/** The guarantees of the cancellation protocol over whole runs. */
module CancellationSafety {
  import opened Words
  import opened Cancellation
  import opened CancellationInvariant
  import opened CancellationSteps

  /** A run of the program: any interleaving of enabled steps from a fresh state. */
  ghost predicate IsRun(states: seq<State>, events: seq<Event>) {
    && |states| == |events| + 1 && states[0] == Init()
    && forall k: nat :: k < |events| ==> IsStep(states[k], events[k], states[k + 1])
  }

  ghost predicate IsStep(s: State, e: Event, z: State) {
    Enabled(s, e) && z == Apply(s, e)
  }

  lemma {:induction false} RunInv(states: seq<State>, events: seq<Event>, k: nat)
    requires IsRun(states, events) && k < |states|
    ensures Inv(states[k])
    decreases k
  {
    hide Inv, Enabled, Apply;
    if k == 0 {
      InitInv();
    } else {
      RunInv(states, events, k - 1);
      assert IsStep(states[k - 1], events[k - 1], states[k - 1 + 1]);
      StepInv(states[k - 1], events[k - 1]);
    }
  }

  /** Some thread is executing the callback's function. */
  ghost predicate Running(s: State, c: nat) {
    exists t: nat, i: nat :: i < |Stack(s, t)| && RunsIn(Stack(s, t)[i], c)
  }

  predicate RunsIn(f: Frame, c: nat) {
    || (f.Adding? && f.addAt.InvokeInline? && f.c == c)
    || (f.Requesting? && f.requestAt.Invoking? && f.requestAt.c == c)
  }

  /** No callback is ever run twice, whoever runs it. */
  lemma AtMostOnce(states: seq<State>, events: seq<Event>, k: nat, c: nat)
    requires IsRun(states, events) && k < |states| && c in states[k].callbacks
    ensures Cb(states[k], c).runs <= 1
  {
    hide IsRun;
    RunInv(states, events, k);
    CallbackAt(states[k], c);
  }

  /** Once the first requestCancellation has returned, every callback that was ever constructed with
      a token of this state has been run, or was taken off the list by its destructor first, or is
      still in its constructor, which will run it. */
  lemma AllCallbacksHaveRun(states: seq<State>, events: seq<Event>, k: nat, c: nat)
    requires IsRun(states, events) && k < |states| && states[k].signal.Finished? && c in states[k].callbacks
    ensures
      var s, b := states[k], Cb(states[k], c);
      && c !in s.list && s.list == [] && IsCancelled(s.word)
      && (b.runs == 1 || b.fate.Unlinked? || (b.status.Constructing? && b.fate.Fresh?))
      && (b.registered && !b.fate.Unlinked? ==> b.runs == 1 && (b.fate.Inside? || b.completed))
  {
    hide IsRun;
    RunInv(states, events, k);
    CallbackAt(states[k], c);
    WordMeans(states[k]);
  }

  /** When a destructor has returned, the callback is not being run, except by the signalling thread
      when the callback destroyed itself. */
  lemma DestroyedIsQuiet(s: State, c: nat)
    requires Inv(s) && c in s.callbacks && Cb(s, c).status.Dead? && !Cb(s, c).fate.Inside?
    ensures !Running(s, c)
  {
    hide FramesOk, CallbacksOk, PinsOk, ListOk, WordOk, CallbackOk;
    CallbackAt(s, c);
    forall t: nat, i: nat | i < |Stack(s, t)| ensures !RunsIn(Stack(s, t)[i], c) {
      FrameAtIndex(s, t, i);
      NotRunning(s, t, i, c);
    }
  }

  lemma NotRunning(s: State, t: nat, i: nat, c: nat)
    requires i < |Stack(s, t)| && FrameOk(s, t, i, Stack(s, t)[i]) && CallbackOk(s, c)
    requires c in s.callbacks && Cb(s, c).status.Dead? && !Cb(s, c).fate.Inside?
    ensures !RunsIn(Stack(s, t)[i], c)
  {}

  /** A destructor only ever marks a callback as destroyed inside its invocation on the signalling
      thread itself, and it is called by that very invocation: the call that runs the callback is on
      the same stack, below the destructor's. */
  lemma InsideOnlyOnSignaller(states: seq<State>, events: seq<Event>, k: nat, c: nat)
    requires IsRun(states, events) && k < |events|
    requires !Cb(states[k], c).fate.Inside? && Cb(states[k + 1], c).fate.Inside?
    ensures
      var s, e := states[k], events[k];
      && e.Remove? && e.remove.RemSelf? && s.signallingThread == Some(e.t)
      && Stack(s, e.t) != [] && Top(s, e.t).Removing? && TopCallback(s, e.t) == c
      && s.signal.Active? && s.signal.t == e.t && s.signal.i < Depth(s, e.t) && RunsIn(Stack(s, e.t)[s.signal.i], c)
  {
    hide FramesOk, CallbacksOk, PinsOk, ListOk, WordOk, FetchAdd, FetchSub;
    RunInv(states, events, k);
    assert IsStep(states[k], events[k], states[k + 1]);
    var s, e := states[k], events[k];
    FateSteps(s, e, c);
    SelfFlag(s, e.t, c);
  }

  lemma FateSteps(s: State, e: Event, c: nat)
    requires Enabled(s, e) && !Cb(s, c).fate.Inside? && Cb(Apply(s, e), c).fate.Inside?
    ensures e.Remove? && e.remove.RemSelf? && TopCallback(s, e.t) == c && Cb(s, c).flagAt.Some?
  {
    hide EnabledRef, EnabledAdd, EnabledRemove, EnabledRequest, ApplyRef, ApplyAdd, ApplyRemove, ApplyRequest;
    match e
    case Ref(r) => RefFate(s, r);
    case Add(t, a) => AddFate(s, t, a, c);
    case Remove(t, m) => RemoveFate(s, t, m, c);
    case Request(t, q) => RequestFate(s, t, q, c);
    case DestroyUnregistered(_) =>
  }

  lemma RefFate(s: State, r: RefEvent)
    requires EnabledRef(s, r)
    ensures ApplyRef(s, r).callbacks == s.callbacks
  {
    hide FetchAdd, FetchSub;
  }

  lemma AddFate(s: State, t: nat, a: AddEvent, c: nat)
    requires EnabledAdd(s, t, a) && !Cb(s, c).fate.Inside?
    ensures !Cb(ApplyAdd(s, t, a), c).fate.Inside?
  {
    hide FetchAdd, FetchSub, OrLocked, IsCancelled, IsLocked, CanBeCancelled, TokenFree, TokenNotMoved;
  }

  lemma RemoveFate(s: State, t: nat, m: RemoveEvent, c: nat)
    requires EnabledRemove(s, t, m) && !Cb(s, c).fate.Inside? && Cb(ApplyRemove(s, t, m), c).fate.Inside?
    ensures m.RemSelf? && TopCallback(s, t) == c && Cb(s, c).flagAt.Some?
  {
    hide FetchAdd, FetchSub, OrLocked, IsCancelled, IsLocked, CanBeCancelled;
  }

  lemma RequestFate(s: State, t: nat, q: RequestEvent, c: nat)
    requires EnabledRequest(s, t, q) && !Cb(s, c).fate.Inside?
    ensures !Cb(ApplyRequest(s, t, q), c).fate.Inside?
  {
    hide FetchAdd, FetchSub, OrLocked, OrCancelled, IsCancelled, IsLocked, CanBeCancelled, SourceFree;
  }

  // ----- destroyed callbacks -----

  /** The callback objects whose fields a step reads or writes. */
  function Accessed(s: State, e: Event): set<nat>
    requires e.Add? || e.Remove? || e.Request?
  {
    var top := if Stack(s, e.t) == [] then {} else FrameCallback(Top(s, e.t));
    match e
    case Add(t, a) =>
      if a.StartAdd? then {} else top + (if a.AddLink? && s.head.Some? then {s.head.value} else {})
    case Remove(t, m) =>
      if m.StartRemove? then {m.c}
      else if m.RemUnlink? && Stack(s, t) != [] && Top(s, t).Removing? then top + Around(Cb(s, Top(s, t).c)) else top
    case Request(t, q) =>
      if q.ReqPop? && s.head.Some? then {s.head.value} + (if Cb(s, s.head.value).next.Some? then {Cb(s, s.head.value).next.value} else {})
      else if q.ReqSetFlag? || q.ReqInvoke? || q.ReqClearFlag? || q.ReqComplete? then top else {}
  }

  function FrameCallback(f: Frame): set<nat> {
    match f
    case Adding(c, _, _, _) => {c}
    case Removing(c, _) => {c}
    case Requesting(_, at) => if TouchedBy(at).Some? then {TouchedBy(at).value} else {}
  }

  function Around(b: Callback): set<nat> {
    (if b.next.Some? then {b.next.value} else {}) + (if b.prevNext.NextField? then {b.prevNext.callback} else {})
  }

  function Put(s: State, c: nat, b: Callback): State {
    s.(callbacks := s.callbacks[c := b])
  }

  /** Whatever the fields of a callback outside the table hold, the step is enabled as well, does the
      same, and leaves them as they are: it neither reads nor writes them. */
  ghost predicate Ignores(s: State, e: Event, c: nat, b: Callback) {
    && (Enabled(s, e) <==> Enabled(Put(s, c, b), e))
    && (Enabled(s, e) ==> Apply(Put(s, c, b), e) == Put(Apply(s, e), c, b) && Cb(Apply(s, e), c) == Cb(s, c))
  }

  /** The table is complete. */
  lemma OnlyAccessed(s: State, e: Event, c: nat, b: Callback)
    requires e.Add? || e.Remove? || e.Request?
    requires c in s.callbacks && c !in Accessed(s, e)
    ensures Ignores(s, e, c, b)
  {
    hide FetchAdd, FetchSub, OrLocked, OrCancelled, IsCancelled, IsLocked, CanBeCancelled, TokenFree, TokenNotMoved;
    match e
    case Add(t, a) => AddIgnores(s, t, a, c, b);
    case Remove(t, m) => RemoveIgnores(s, t, m, c, b);
    case Request(t, q) => RequestIgnores(s, t, q, c, b);
  }

  lemma AddIgnores(s: State, t: nat, a: AddEvent, c: nat, b: Callback)
    requires c in s.callbacks && c !in Accessed(s, Add(t, a))
    ensures Ignores(s, Add(t, a), c, b)
  {
    hide FetchAdd, FetchSub, OrLocked, OrCancelled, IsCancelled, IsLocked, CanBeCancelled, TokenFree, TokenNotMoved;
    hide ApplyAddLink, ApplyStartAdd, ApplyAddInline, ApplyAddInlineDone, ApplyAddGiveUp, ApplyAddUnlock, ApplyAddLock;
    if a.StartAdd? { StartIgnores(s, t, a.c, a.h, a.copy, c, b); }
    if Enabled(s, Add(t, a)) {
      if a.AddLink? {
        LinkIgnores(s, t, c, b);
      } else if !a.StartAdd? {
        ConstructorIgnores(s, t, a, c, b);
      }
    }
  }

  lemma ConstructorIgnores(s: State, t: nat, a: AddEvent, c: nat, b: Callback)
    requires c in s.callbacks && c !in Accessed(s, Add(t, a)) && EnabledAdd(s, t, a) && !a.StartAdd? && !a.AddLink?
    ensures EnabledAdd(Put(s, c, b), t, a) && ApplyAdd(Put(s, c, b), t, a) == Put(ApplyAdd(s, t, a), c, b)
    ensures Cb(ApplyAdd(s, t, a), c) == Cb(s, c)
  {
    hide FetchAdd, FetchSub, OrLocked, OrCancelled, IsCancelled, IsLocked, CanBeCancelled;
    var d := TopCallback(s, t);
    match a
    case AddInline => Commute(s.callbacks, c, b, d, Cb(s, d).(fate := Inline, runs := Cb(s, d).runs + 1));
    case AddInlineDone => Commute(s.callbacks, c, b, d, Cb(s, d).(status := Alive));
    case AddGiveUp => Commute(s.callbacks, c, b, d, Cb(s, d).(status := Alive, fate := Skipped));
    case AddUnlock => Commute(s.callbacks, c, b, d, Cb(s, d).(status := Alive, registered := true));
    case AddLock =>
  }

  lemma StartIgnores(s: State, t: nat, d: nat, h: nat, copy: bool, c: nat, b: Callback)
    requires c in s.callbacks
    ensures TokenFree(Put(s, c, b), h) == TokenFree(s, h) && TokenNotMoved(Put(s, c, b), h) == TokenNotMoved(s, h)
    ensures d != c ==>
      && ApplyStartAdd(Put(s, c, b), t, d, h, copy) == Put(ApplyStartAdd(s, t, d, h, copy), c, b)
      && Cb(ApplyStartAdd(s, t, d, h, copy), c) == Cb(s, c)
  {
    var z := Put(s, c, b);
    assert forall t2: nat :: Stack(z, t2) == Stack(s, t2);
    if d != c {
      assert ApplyStartAdd(z, t, d, h, copy).callbacks == ApplyStartAdd(s, t, d, h, copy).callbacks[c := b];
    }
  }

  lemma LinkIgnores(s: State, t: nat, c: nat, b: Callback)
    requires c in s.callbacks && AtAdd(s, t, AddLocked) && c != TopCallback(s, t) && s.head != Some(c)
    ensures AtAdd(Put(s, c, b), t, AddLocked) && ApplyAddLink(Put(s, c, b), t) == Put(ApplyAddLink(s, t), c, b)
    ensures Cb(ApplyAddLink(s, t), c) == Cb(s, c)
  {
    var top := TopCallback(s, t);
    if s.head.Some? { Commute(s.callbacks, c, b, s.head.value, Cb(s, s.head.value).(prevNext := NextField(top))); }
    assert ApplyAddLink(Put(s, c, b), t).callbacks == ApplyAddLink(s, t).callbacks[c := b];
  }

  lemma RemoveIgnores(s: State, t: nat, m: RemoveEvent, c: nat, b: Callback)
    requires c in s.callbacks && c !in Accessed(s, Remove(t, m))
    ensures Ignores(s, Remove(t, m), c, b)
  {
    hide FetchAdd, FetchSub, OrLocked, OrCancelled, IsCancelled, IsLocked, CanBeCancelled;
    hide ApplyRemSelf, ApplyRemUnlink, ApplyRemUnlockDrop, ApplyRemDropRef, ApplyStartRemove, ApplyRemAcquire, ApplyRemRelease;
    hide ToRemove;
    if Enabled(s, Remove(t, m)) {
      if m.RemUnlink? {
        UnlinkIgnores(s, t, c, b);
      } else if m.RemSelf? {
        SelfIgnores(s, t, c, b);
      } else {
        DestructorIgnores(s, t, m, c, b);
      }
    }
  }

  lemma DestructorIgnores(s: State, t: nat, m: RemoveEvent, c: nat, b: Callback)
    requires c in s.callbacks && c !in Accessed(s, Remove(t, m)) && EnabledRemove(s, t, m) && !m.RemUnlink? && !m.RemSelf?
    ensures EnabledRemove(Put(s, c, b), t, m) && ApplyRemove(Put(s, c, b), t, m) == Put(ApplyRemove(s, t, m), c, b)
    ensures Cb(ApplyRemove(s, t, m), c) == Cb(s, c)
  {
    hide FetchAdd, FetchSub, OrLocked, IsLocked;
    var d := if m.StartRemove? then m.c else TopCallback(s, t);
    match m
    case StartRemove(_) => Commute(s.callbacks, c, b, d, Cb(s, d).(status := Destroying(t, |Stack(s, t)|)));
    case RemUnlockDrop => Commute(s.callbacks, c, b, d, Cb(s, d).(status := Dead));
    case RemDropRef => Commute(s.callbacks, c, b, d, Cb(s, d).(status := Dead));
    case _ =>
  }

  lemma SelfIgnores(s: State, t: nat, c: nat, b: Callback)
    requires c in s.callbacks && AtRemove(s, t, RemCheck) && c != TopCallback(s, t)
    ensures AtRemove(Put(s, c, b), t, RemCheck) && ApplyRemSelf(Put(s, c, b), t) == Put(ApplyRemSelf(s, t), c, b)
    ensures Cb(ApplyRemSelf(s, t), c) == Cb(s, c)
  {
    hide MarkDestroyed;
    assert ApplyRemSelf(Put(s, c, b), t).callbacks == ApplyRemSelf(s, t).callbacks[c := b];
  }

  lemma UnlinkIgnores(s: State, t: nat, c: nat, b: Callback)
    requires c in s.callbacks && AtRemove(s, t, RemLocked) && c != TopCallback(s, t) && c !in Around(Cb(s, TopCallback(s, t)))
    ensures AtRemove(Put(s, c, b), t, RemLocked) && ApplyRemUnlink(Put(s, c, b), t) == Put(ApplyRemUnlink(s, t), c, b)
    ensures Cb(ApplyRemUnlink(s, t), c) == Cb(s, c)
  {
    hide Index, Without;
    var z, top := Put(s, c, b), TopCallback(s, t);
    var next, prevNext := Cb(s, top).next, Cb(s, top).prevNext;
    var forward :=
      if prevNext.NextField? then s.callbacks[prevNext.callback := Cb(s, prevNext.callback).(next := next)] else s.callbacks;
    var backward :=
      if next.Some? then forward[next.value := Cb(s.(callbacks := forward), next.value).(prevNext := prevNext)] else forward;
    if prevNext.NextField? {
      Commute(s.callbacks, c, b, prevNext.callback, Cb(s, prevNext.callback).(next := next));
    }
    var x := s.(callbacks := forward);
    assert Cb(x, c) == Cb(s, c);
    if next.Some? { Commute(forward, c, b, next.value, Cb(x, next.value).(prevNext := prevNext)); }
    Commute(backward, c, b, top, Cb(s.(callbacks := backward), top).(fate := Unlinked));
  }

  lemma Commute(m: map<nat, Callback>, c: nat, b: Callback, d: nat, x: Callback)
    requires c != d
    ensures m[c := b][d := x] == m[d := x][c := b]
  {}

  lemma RequestIgnores(s: State, t: nat, q: RequestEvent, c: nat, b: Callback)
    requires c in s.callbacks && c !in Accessed(s, Request(t, q))
    ensures Ignores(s, Request(t, q), c, b)
  {
    hide FetchAdd, FetchSub, OrLocked, OrCancelled, IsCancelled, IsLocked, CanBeCancelled, Deleted;
    hide ApplyReqPop, ApplyReqSetFlag, ApplyReqInvoke, ApplyReqClearFlag, ApplyReqComplete, ApplyReqReturn, AfterCallback;
    hide ApplyReqCancel, ApplyReqUnlock, ToRequest;
    if Enabled(s, Request(t, q)) {
      if q.ReqPop? {
        PopIgnores(s, t, c, b);
      } else if q.ReqSetFlag? || q.ReqInvoke? || q.ReqClearFlag? || q.ReqComplete? {
        CallingIgnores(s, t, q, c, b);
      } else {
        LoopIgnores(s, t, q, c, b);
      }
    }
  }

  lemma CallingIgnores(s: State, t: nat, q: RequestEvent, c: nat, b: Callback)
    requires c in s.callbacks && c !in Accessed(s, Request(t, q)) && EnabledRequest(s, t, q)
    requires q.ReqSetFlag? || q.ReqInvoke? || q.ReqClearFlag? || q.ReqComplete?
    ensures EnabledRequest(Put(s, c, b), t, q) && ApplyRequest(Put(s, c, b), t, q) == Put(ApplyRequest(s, t, q), c, b)
    ensures Cb(ApplyRequest(s, t, q), c) == Cb(s, c)
  {
    hide FetchAdd, FetchSub, OrLocked, OrCancelled, IsCancelled, IsLocked, AfterCallback;
    AfterIgnores(s, t, c, b);
    var d := Top(s, t).requestAt.c;
    match q
    case ReqSetFlag => Commute(s.callbacks, c, b, d, Cb(s, d).(flagAt := Some(Depth(s, t))));
    case ReqInvoke => Commute(s.callbacks, c, b, d, Cb(s, d).(runs := Cb(s, d).runs + 1));
    case ReqClearFlag => Commute(s.callbacks, c, b, d, Cb(s, d).(flagAt := None));
    case ReqComplete => Commute(s.callbacks, c, b, d, Cb(s, d).(completed := true));
  }

  lemma LoopIgnores(s: State, t: nat, q: RequestEvent, c: nat, b: Callback)
    requires c in s.callbacks && EnabledRequest(s, t, q)
    requires !(q.ReqPop? || q.ReqSetFlag? || q.ReqInvoke? || q.ReqClearFlag? || q.ReqComplete?)
    ensures EnabledRequest(Put(s, c, b), t, q) && ApplyRequest(Put(s, c, b), t, q) == Put(ApplyRequest(s, t, q), c, b)
    ensures Cb(ApplyRequest(s, t, q), c) == Cb(s, c)
  {
    hide FetchAdd, FetchSub, OrLocked, OrCancelled, IsCancelled, IsLocked, AfterCallback;
    if AtRequest(s, t) { AfterIgnores(s, t, c, b); }
  }

  lemma AfterIgnores(s: State, t: nat, c: nat, b: Callback)
    requires AtRequest(s, t) && c in s.callbacks
    ensures AtRequest(Put(s, c, b), t)
    ensures forall more :: AfterCallback(s, t, more).callbacks == s.callbacks
    ensures forall more :: AfterCallback(Put(s, c, b), t, more) == Put(AfterCallback(s, t, more), c, b)
  {}

  lemma PopIgnores(s: State, t: nat, c: nat, b: Callback)
    requires c in s.callbacks && AtRequest(s, t) && s.head.Some?
    requires c != s.head.value && Cb(s, s.head.value).next != Some(c)
    ensures AtRequest(Put(s, c, b), t) && ApplyReqPop(Put(s, c, b), t) == Put(ApplyReqPop(s, t), c, b)
    ensures Cb(ApplyReqPop(s, t), c) == Cb(s, c)
  {
    hide Without, Index;
    var top := s.head.value;
    var head := Cb(s, top).next;
    if head.Some? { Commute(s.callbacks, c, b, head.value, Cb(s, head.value).(prevNext := HeadField)); }
    assert ApplyReqPop(Put(s, c, b), t).callbacks == ApplyReqPop(s, t).callbacks[c := b];
  }

  /** No step touches a callback whose destructor has returned: not the signalling thread, and no
      other thread that relinks the list. */
  lemma NoAccessAfterDestruction(states: seq<State>, events: seq<Event>, k: nat, c: nat)
    requires IsRun(states, events) && k < |events| && (events[k].Add? || events[k].Remove? || events[k].Request?)
    requires c in Accessed(states[k], events[k])
    ensures c in states[k].callbacks && !Cb(states[k], c).status.Dead?
  {
    hide FramesOk, CallbacksOk, PinsOk, WordOk, CallbackOk, IsCancelled, IsLocked, CanBeCancelled;
    RunInv(states, events, k);
    assert IsStep(states[k], events[k], states[k + 1]);
    var s, e := states[k], events[k];
    if Stack(s, e.t) != [] { FrameAt(s, e.t); }
    if e.Remove? && e.remove.RemUnlink? {
      CallbackAt(s, TopCallback(s, e.t));
      StillOnList(s, e.t);
    }
    AccessedKinds(s, e, c);
    if c in s.callbacks {
      CallbackAt(s, c);
      LivingCallback(s, c);
    }
  }

  lemma StillOnList(s: State, t: nat)
    requires EnabledRemove(s, t, RemUnlink) && FrameOk(s, t, Depth(s, t), Top(s, t)) && CallbackOk(s, TopCallback(s, t))
    ensures TopCallback(s, t) in s.list
  {}

  /** A callback is in use by a call of its own, by the signalling thread, or on the list. */
  ghost predicate InUse(s: State, c: nat) {
    && c in s.callbacks
    && (Cb(s, c).status.Constructing? || Cb(s, c).status.Destroying? || Cb(s, c).status.Alive?
        || s.touching == Some(c) || c in s.list)
  }

  lemma LivingCallback(s: State, c: nat)
    requires CallbackOk(s, c) && InUse(s, c)
    ensures !Cb(s, c).status.Dead?
  {}

  lemma AccessedKinds(s: State, e: Event, c: nat)
    requires ListOk(s) && Enabled(s, e) && (e.Add? || e.Remove? || e.Request?) && c in Accessed(s, e)
    requires Stack(s, e.t) != [] ==> FrameOk(s, e.t, Depth(s, e.t), Top(s, e.t))
    requires e.Remove? && e.remove.RemUnlink? ==> TopCallback(s, e.t) in s.list
    ensures InUse(s, c)
  {
    hide ListOk, InUse, FrameOk, IsCancelled, IsLocked, CanBeCancelled, TokenFree, TokenNotMoved;
    if Stack(s, e.t) != [] { OwnInUse(s, e.t); }
    ListInUse(s);
    match e
    case Add(t, a) =>
    case Remove(t, m) => if m.StartRemove? { AliveInUse(s, c); } else if m.RemUnlink? { AroundInUse(s, TopCallback(s, t)); }
    case Request(t, q) => if q.ReqPop? { AroundInUse(s, s.head.value); }
  }

  lemma OwnInUse(s: State, t: nat)
    requires Stack(s, t) != [] && FrameOk(s, t, Depth(s, t), Top(s, t))
    ensures forall c: nat :: c in FrameCallback(Top(s, t)) ==> InUse(s, c)
  {}

  lemma AliveInUse(s: State, c: nat)
    requires c in s.callbacks && Cb(s, c).status.Alive?
    ensures InUse(s, c)
  {}

  lemma ListInUse(s: State)
    requires ListOk(s)
    ensures s.head.Some? ==> s.head.value in s.list && InUse(s, s.head.value)
  {}

  /** The neighbours of a callback on the list are on the list. */
  lemma AroundInUse(s: State, c: nat)
    requires ListOk(s) && c in s.list
    ensures forall d: nat :: d in Around(Cb(s, c)) ==> InUse(s, d)
  {
    var k: nat :| k < |s.list| && s.list[k] == c;
    assert Cb(s, s.list[k]).next == NextIn(s.list, k);
  }

  /** Destruction is final: nothing about the callback's history changes afterwards. */
  lemma DeadStays(s: State, e: Event, c: nat)
    requires Inv(s) && Enabled(s, e) && c in s.callbacks && Cb(s, c).status.Dead?
    ensures
      var z := Apply(s, e);
      c in z.callbacks && Cb(z, c).status.Dead? && Cb(z, c).runs == Cb(s, c).runs && Cb(z, c).fate == Cb(s, c).fate
  {
    hide FramesOk, CallbacksOk, PinsOk, ListOk, WordOk, CallbackOk, SignalOk, FrameOk;
    hide EnabledRef, EnabledAdd, EnabledRemove, EnabledRequest, ApplyRef, ApplyAdd, ApplyRemove, ApplyRequest;
    CallbackAt(s, c);
    match e
    case Ref(r) => RefFate(s, r);
    case DestroyUnregistered(_) =>
    case Add(t, a) => if Stack(s, t) != [] { FrameAt(s, t); } DeadInAdd(s, t, a, c);
    case Remove(t, m) => if Stack(s, t) != [] { FrameAt(s, t); } DeadInRemove(s, t, m, c);
    case Request(t, q) => if Stack(s, t) != [] { FrameAt(s, t); } PopOnList(s, t, q); DeadInRequest(s, t, q, c);
  }

  lemma PopOnList(s: State, t: nat, q: RequestEvent)
    requires ListOk(s) && EnabledRequest(s, t, q)
    ensures q.ReqPop? ==> s.head.Some? && s.head.value in s.list
  {}

  ghost predicate SameEnd(s: State, z: State, c: nat) {
    c in z.callbacks && Cb(z, c).status == Cb(s, c).status && Cb(z, c).runs == Cb(s, c).runs && Cb(z, c).fate == Cb(s, c).fate
  }

  lemma DeadInAdd(s: State, t: nat, e: AddEvent, c: nat)
    requires EnabledAdd(s, t, e) && CallbackOk(s, c) && c in s.callbacks && Cb(s, c).status.Dead?
    requires Stack(s, t) != [] ==> FrameOk(s, t, Depth(s, t), Top(s, t))
    ensures SameEnd(s, ApplyAdd(s, t, e), c)
  {
    hide FetchSub, OrLocked;
  }

  lemma DeadInRemove(s: State, t: nat, e: RemoveEvent, c: nat)
    requires EnabledRemove(s, t, e) && CallbackOk(s, c) && c in s.callbacks && Cb(s, c).status.Dead?
    requires Stack(s, t) != [] ==> FrameOk(s, t, Depth(s, t), Top(s, t))
    ensures SameEnd(s, ApplyRemove(s, t, e), c)
  {
    hide FetchSub, OrLocked;
  }

  lemma DeadInRequest(s: State, t: nat, e: RequestEvent, c: nat)
    requires EnabledRequest(s, t, e) && CallbackOk(s, c) && c in s.callbacks && Cb(s, c).status.Dead?
    requires Stack(s, t) != [] ==> FrameOk(s, t, Depth(s, t), Top(s, t))
    requires e.ReqPop? ==> s.head.Some? && s.head.value in s.list
    ensures SameEnd(s, ApplyRequest(s, t, e), c)
  {
    hide FetchSub, OrLocked;
  }

  /** After a destructor has returned, the callback is never run again, and unless it destroyed itself
      it is not running either: in every later state of every run. */
  lemma {:induction false} NeverRunAfterDestruction(states: seq<State>, events: seq<Event>, k: nat, j: nat, c: nat)
    requires IsRun(states, events) && k <= j < |states|
    requires c in states[k].callbacks && Cb(states[k], c).status.Dead?
    ensures c in states[j].callbacks && Cb(states[j], c).status.Dead?
    ensures Cb(states[j], c).runs == Cb(states[k], c).runs && Cb(states[j], c).fate == Cb(states[k], c).fate
    ensures !Cb(states[k], c).fate.Inside? ==> !Running(states[j], c)
    decreases j
  {
    hide Inv, Enabled, Apply, Running, Cb;
    RunInv(states, events, j);
    if j > k {
      NeverRunAfterDestruction(states, events, k, j - 1, c);
      RunInv(states, events, j - 1);
      assert IsStep(states[j - 1], events[j - 1], states[j - 1 + 1]);
      DeadStays(states[j - 1], events[j - 1], c);
    }
    if !Cb(states[j], c).fate.Inside? { DestroyedIsQuiet(states[j], c); }
  }

  // ----- the lock -----

  /** At most one call holds the lock, and it is one that is executing. */
  lemma MutualExclusion(states: seq<State>, events: seq<Event>, k: nat, t1: nat, i1: nat, t2: nat, i2: nat)
    requires IsRun(states, events) && k < |states| && i1 < |Stack(states[k], t1)| && i2 < |Stack(states[k], t2)|
    requires HoldsLock(Stack(states[k], t1)[i1]) && HoldsLock(Stack(states[k], t2)[i2])
    ensures t1 == t2 && i1 == i2 == Depth(states[k], t1) && IsLocked(states[k].word)
  {
    hide IsRun, FramesOk, CallbacksOk, PinsOk, WordOk, ListOk, SignalOk;
    RunInv(states, events, k);
    var s := states[k];
    FrameAtIndex(s, t1, i1);
    FrameAtIndex(s, t2, i2);
    WordMeans(s);
  }

  // ----- references -----

  /** The token field counts the live handles and the registered callbacks, the source field the live
      sources; the state has been deleted exactly if there are none of any. */
  lemma ReferenceCounts(states: seq<State>, events: seq<Event>, k: nat)
    requires IsRun(states, events) && k < |states|
    ensures
      var s := states[k];
      && s.word / TOKEN_INCREMENT % TWO31 == |s.tokens| && s.word / SOURCE_INCREMENT == |s.sources|
      && (forall c: nat :: Registered(c) in s.tokens <==>
            c in s.callbacks && Cb(s, c).registered && !Cb(s, c).status.Dead?)
      && s.deletions == if s.tokens == {} && s.sources == {} then 1 else 0
  {
    hide IsRun;
    RunInv(states, events, k);
    var s := states[k];
    PackFields(!s.signal.Quiet?, s.holder.Some?, |s.tokens|, |s.sources|);
    forall c: nat ensures Registered(c) in s.tokens <==> c in s.callbacks && Cb(s, c).registered && !Cb(s, c).status.Dead? {
      if c in s.callbacks { CallbackAt(s, c); }
    }
  }

  /** When the last reference goes, nothing is left: no lock, no list, no call in progress. */
  lemma DeletedIsIdle(states: seq<State>, events: seq<Event>, k: nat)
    requires IsRun(states, events) && k < |states| && states[k].deletions > 0
    ensures !IsLocked(states[k].word) && states[k].head.None? && states[k].word < TOKEN_INCREMENT
    ensures forall t: nat :: Stack(states[k], t) == []
  {
    hide IsRun, PinsOk;
    RunInv(states, events, k);
    var s := states[k];
    WordMeans(s);
    forall t: nat ensures Stack(s, t) == [] {
      if Stack(s, t) != [] { FrameNeedsReference(s, t); }
    }
    if s.list != [] { ListNeedsReference(s); }
  }

  lemma FrameNeedsReference(s: State, t: nat)
    requires FramesOk(s) && Stack(s, t) != []
    ensures s.tokens != {} || s.sources != {}
  {
    FrameAt(s, t);
  }

  lemma ListNeedsReference(s: State)
    requires FramesOk(s) && CallbacksOk(s) && ListOk(s) && s.list != []
    ensures s.tokens != {}
  {
    var c := s.list[0];
    CallbackAt(s, c);
    var k := Cb(s, c).status;
    if k.Constructing? { FrameAtIndex(s, k.t, k.i); }
  }

  /** A deleted state is never used again. */
  lemma NoUseAfterDelete(states: seq<State>, events: seq<Event>, k: nat)
    requires IsRun(states, events) && k < |events| && states[k].deletions > 0
    ensures events[k].DestroyUnregistered?
  {
    hide FramesOk, CallbacksOk, PinsOk, ListOk, SignalOk;
    RunInv(states, events, k);
    assert IsStep(states[k], events[k], states[k + 1]);
    DeletedIsIdle(states, events, k);
    var s, e := states[k], events[k];
    if e.Remove? && e.remove.StartRemove? { CallbackAt(s, e.remove.c); }
  }
}
