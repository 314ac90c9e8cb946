/** The cancellation protocol makes progress, and runs callbacks for a reason only: because cancellation
    was requested. */
module CancellationProgress {
  import opened Cancellation
  import opened CancellationInvariant
  import opened CancellationSteps
  import opened CancellationSafety

  // ----- callbacks run because of a request -----

  /** How a callback's function comes to be started. */
  lemma RunsStep(s: State, e: Event, c: nat)
    requires Enabled(s, e) && Cb(Apply(s, e), c).runs > Cb(s, c).runs
    ensures
      || (e.Add? && e.add.AddInline? && IsCancelled(s.word))
      || (e.Request? && e.request.ReqInvoke? && AtRequest(s, e.t) && Top(s, e.t).requestAt.Call?)
  {
    hide FetchAdd, FetchSub, OrLocked, OrCancelled, IsCancelled, IsLocked, CanBeCancelled, TokenFree, TokenNotMoved, SourceFree;
    hide Without, Index, MarkDestroyed;
  }

  /** A request is never taken back. */
  lemma SignalStays(s: State, e: Event)
    requires Enabled(s, e) && !s.signal.Quiet?
    ensures !Apply(s, e).signal.Quiet?
  {
    hide FetchAdd, FetchSub, OrLocked, OrCancelled, IsCancelled, IsLocked, CanBeCancelled, TokenFree, TokenNotMoved, SourceFree;
    hide Without, Index, MarkDestroyed, Cb;
  }

  /** A callback that has been run, or is running, was run because cancellation had been requested. */
  lemma {:induction false} OnlyAfterRequest(states: seq<State>, events: seq<Event>, k: nat, c: nat)
    requires IsRun(states, events) && k < |states|
    ensures Cb(states[k], c).runs > 0 || Running(states[k], c) ==> IsCancelled(states[k].word)
    decreases k
  {
    hide Inv, Enabled, Apply, Running, IsCancelled, Cb;
    RunInv(states, events, k);
    RunningHasRun(states[k], c);
    if k == 0 {
      NothingRun(c);
    } else {
      OnlyAfterRequest(states, events, k - 1, c);
      RunInv(states, events, k - 1);
      var s, e := states[k - 1], events[k - 1];
      assert IsStep(s, e, states[k - 1 + 1]);
      CancelledMeans(s);
      CancelledMeans(states[k]);
      if Cb(states[k], c).runs > Cb(s, c).runs {
        RunsStep(s, e, c);
        if e.Request? { CallingIsActive(s, e.t); }
      }
      if !s.signal.Quiet? { SignalStays(s, e); }
    }
  }

  lemma NothingRun(c: nat)
    ensures Cb(Init(), c).runs == 0
  {}

  lemma CancelledMeans(s: State)
    requires Inv(s)
    ensures IsCancelled(s.word) <==> !s.signal.Quiet?
  {
    hide Shape;
    WordMeans(s);
  }

  lemma CallingIsActive(s: State, t: nat)
    requires Inv(s) && AtRequest(s, t) && Top(s, t).requestAt.Call?
    ensures !s.signal.Quiet?
  {
    hide CallbacksOk, PinsOk, ListOk, WordOk;
    FrameAt(s, t);
  }

  lemma RunningHasRun(s: State, c: nat)
    requires Inv(s)
    ensures Running(s, c) ==> Cb(s, c).runs > 0
  {
    hide FramesOk, CallbacksOk, PinsOk, ListOk, WordOk;
    if !Running(s, c) { return; }
    var t: nat, i: nat :| i < |Stack(s, t)| && RunsIn(Stack(s, t)[i], c);
    FrameAtIndex(s, t, i);
    RunsInFrame(s, t, i, Stack(s, t)[i], c);
    CallbackAt(s, c);
  }

  lemma RunsInFrame(s: State, t: nat, i: nat, f: Frame, c: nat)
    requires FrameOk(s, t, i, f) && RunsIn(f, c)
    ensures c in s.callbacks && (Cb(s, c).fate.Inline? || Cb(s, c).fate.Inside? || Cb(s, c).runs > 0)
  {}

  // ----- constructors -----

  /** The step that ends a constructor. */
  lemma ConstructorEnds(s: State, e: Event, c: nat)
    requires Inv(s) && Enabled(s, e) && Cb(s, c).status.Constructing? && !Cb(Apply(s, e), c).status.Constructing?
    ensures e.Add? && Stack(s, e.t) != [] && Top(s, e.t).Adding? && TopCallback(s, e.t) == c
    ensures e.add.AddInlineDone? || e.add.AddGiveUp? || e.add.AddUnlock?
  {
    hide FramesOk, CallbacksOk, PinsOk, ListOk, WordOk, FetchAdd, FetchSub, OrLocked, OrCancelled, IsCancelled, IsLocked;
    hide CanBeCancelled, TokenFree, TokenNotMoved, SourceFree, Without, Index, MarkDestroyed;
    hide EnabledAdd, EnabledRemove, EnabledRequest, ApplyAdd, ApplyRemove, ApplyRequest;
    match e
    case Ref(r) => RefFate(s, r);
    case Add(t, a) => AddEnds(s, t, a, c);
    case Remove(t, m) =>
      if Stack(s, t) != [] { FrameAt(s, t); }
      RemoveEndsNone(s, t, m, c);
    case Request(t, q) => RequestEndsNone(s, t, q, c);
    case DestroyUnregistered(_) =>
  }

  lemma AddEnds(s: State, t: nat, a: AddEvent, c: nat)
    requires EnabledAdd(s, t, a) && Cb(s, c).status.Constructing? && !Cb(ApplyAdd(s, t, a), c).status.Constructing?
    ensures Stack(s, t) != [] && Top(s, t).Adding? && TopCallback(s, t) == c
    ensures a.AddInlineDone? || a.AddGiveUp? || a.AddUnlock?
  {
    hide FetchAdd, FetchSub, OrLocked, IsCancelled, IsLocked, CanBeCancelled, TokenFree, TokenNotMoved;
  }

  lemma RemoveEndsNone(s: State, t: nat, m: RemoveEvent, c: nat)
    requires EnabledRemove(s, t, m) && Cb(s, c).status.Constructing?
    requires Stack(s, t) != [] ==> FrameOk(s, t, Depth(s, t), Top(s, t))
    ensures Cb(ApplyRemove(s, t, m), c).status.Constructing?
  {
    hide FetchAdd, FetchSub, OrLocked, IsLocked, MarkDestroyed, Without, Index;
  }

  lemma RequestEndsNone(s: State, t: nat, q: RequestEvent, c: nat)
    requires EnabledRequest(s, t, q)
    ensures Cb(ApplyRequest(s, t, q), c).status == Cb(s, c).status
  {
    hide FetchAdd, FetchSub, OrLocked, OrCancelled, IsCancelled, IsLocked, SourceFree, Without, Index;
  }

  /** A constructor that ends while cancellation has not been requested and still can be has registered
      its callback: it is on the list, to be run. */
  lemma ConstructorRegisters(states: seq<State>, events: seq<Event>, k: nat, c: nat)
    requires IsRun(states, events) && k < |events|
    requires Cb(states[k], c).status.Constructing? && !Cb(states[k + 1], c).status.Constructing?
    requires !IsCancelled(states[k + 1].word) && states[k + 1].sources != {}
    ensures Cb(states[k + 1], c).registered && c in states[k + 1].list && Cb(states[k + 1], c).status.Alive?
  {
    hide FramesOk, CallbacksOk, PinsOk, ListOk, WordOk, IsCancelled, CanBeCancelled, Enabled, Apply;
    RunInv(states, events, k);
    var s, e := states[k], events[k];
    assert IsStep(s, e, states[k + 1]);
    ConstructorEnds(s, e, c);
    OnlyAfterRequest(states, events, k, c);
    CancelledMeans(s);
    RunInv(states, events, k + 1);
    CancelledMeans(states[k + 1]);
    if !s.signal.Quiet? { SignalStays(s, e); }
    EndOfAdd(s, e.t, e.add, c);
  }

  lemma EndOfAdd(s: State, t: nat, a: AddEvent, c: nat)
    requires Inv(s) && Enabled(s, Add(t, a)) && s.signal.Quiet? && (a.AddInlineDone? || a.AddGiveUp? || a.AddUnlock?)
    requires TopCallback(s, t) == c && Apply(s, Add(t, a)).sources != {} && !Running(s, c)
    ensures var z := Apply(s, Add(t, a)); Cb(z, c).registered && c in z.list && Cb(z, c).status.Alive?
  {
    hide FramesOk, CallbacksOk, PinsOk, ListOk, WordOk, IsCancelled, CanBeCancelled, IsLocked, FetchAdd, FetchSub;
    FrameAt(s, t);
    CallbackAt(s, c);
    WordMeans(s);
    if a.AddInlineDone? { TopRuns(s, t); }
  }

  lemma TopRuns(s: State, t: nat)
    requires AtAdd(s, t, InvokeInline)
    ensures Running(s, TopCallback(s, t))
  {
    assert RunsIn(Stack(s, t)[Depth(s, t)], TopCallback(s, t));
  }

  // ----- destructors that wait -----

  /** The signalling thread is set once. */
  lemma SignallerStays(s: State, e: Event)
    requires Inv(s) && Enabled(s, e) && s.signallingThread.Some?
    ensures Apply(s, e).signallingThread == s.signallingThread
  {
    hide Shape, WordOk, EnabledRef, EnabledAdd, EnabledRemove, ApplyAdd, ApplyRemove, ApplyRequest, Cb, MarkDestroyed;
    if e.Add? { AddSignaller(s, e.t, e.add); }
    if e.Remove? { RemoveSignaller(s, e.t, e.remove); }
    if e.Request? {
      SettingIsFirst(s, e.t);
      RequestSignaller(s, e.t, e.request);
    }
  }

  lemma AddSignaller(s: State, t: nat, a: AddEvent)
    requires EnabledAdd(s, t, a)
    ensures ApplyAdd(s, t, a).signallingThread == s.signallingThread
  {
    hide FetchAdd, FetchSub, OrLocked, IsCancelled, IsLocked, CanBeCancelled, TokenFree, TokenNotMoved, Cb;
  }

  lemma RemoveSignaller(s: State, t: nat, m: RemoveEvent)
    requires EnabledRemove(s, t, m)
    ensures ApplyRemove(s, t, m).signallingThread == s.signallingThread
  {
    hide FetchAdd, FetchSub, OrLocked, IsLocked, Without, Index, Cb;
  }

  lemma RequestSignaller(s: State, t: nat, q: RequestEvent)
    requires EnabledRequest(s, t, q)
    ensures !q.ReqSetId? ==> ApplyRequest(s, t, q).signallingThread == s.signallingThread
    ensures q.ReqSetId? ==> AtRequest(s, t) && Top(s, t).requestAt.SetId?
  {
    hide FetchAdd, FetchSub, OrLocked, OrCancelled, IsCancelled, IsLocked, SourceFree, Without, Index, Cb;
  }

  lemma SettingIsFirst(s: State, t: nat)
    requires Inv(s)
    ensures AtRequest(s, t) && Top(s, t).requestAt.SetId? ==> s.signallingThread.None?
  {
    hide CallbacksOk, PinsOk, ListOk, WordOk;
    if AtRequest(s, t) { FrameAt(s, t); }
  }

  /** How a destructor comes to wait. */
  lemma WaitStep(s: State, e: Event, t: nat)
    requires Inv(s) && Enabled(s, e) && AtRemove(Apply(s, e), t, RemWait) && !AtRemove(s, t, RemWait)
    ensures e == Remove(t, RemOther) && AtRemove(s, t, RemCheck) && s.signallingThread != Some(t)
    ensures s.signallingThread.Some? && Apply(s, e).signallingThread == s.signallingThread
  {
    hide Shape, WordOk, EnabledRef, EnabledAdd, EnabledRemove, EnabledRequest, ApplyAdd, ApplyRemove, ApplyRequest, ApplyRef, Cb;
    BelowIsUserCode(s, t);
    CheckingHasSignaller(s, t);
    match e
    case Ref(r) => SameStacks(s, r);
    case Add(t2, a) => AddNoWait(s, t2, a, t);
    case Remove(t2, m) => RemoveWaits(s, t2, m, t);
    case Request(t2, q) => RequestNoWait(s, t2, q, t);
    case DestroyUnregistered(_) =>
  }

  lemma SameStacks(s: State, r: RefEvent)
    ensures ApplyRef(s, r).stacks == s.stacks
  {}

  lemma AddNoWait(s: State, t2: nat, a: AddEvent, t: nat)
    requires EnabledAdd(s, t2, a) && forall i: nat :: i + 1 < |Stack(s, t)| ==> UserCode(Stack(s, t)[i])
    ensures AtRemove(ApplyAdd(s, t2, a), t, RemWait) ==> AtRemove(s, t, RemWait)
  {
    hide FetchAdd, FetchSub, OrLocked, IsCancelled, IsLocked, CanBeCancelled, TokenFree, TokenNotMoved, Cb;
  }

  lemma RemoveWaits(s: State, t2: nat, m: RemoveEvent, t: nat)
    requires EnabledRemove(s, t2, m) && forall i: nat :: i + 1 < |Stack(s, t)| ==> UserCode(Stack(s, t)[i])
    ensures AtRemove(ApplyRemove(s, t2, m), t, RemWait) && !AtRemove(s, t, RemWait) ==>
      && t2 == t && m.RemOther? && AtRemove(s, t, RemCheck) && s.signallingThread != Some(t)
      && ApplyRemove(s, t2, m).signallingThread == s.signallingThread
  {
    hide FetchAdd, FetchSub, OrLocked, IsLocked, Without, Index, Cb;
  }

  lemma RequestNoWait(s: State, t2: nat, q: RequestEvent, t: nat)
    requires EnabledRequest(s, t2, q) && forall i: nat :: i + 1 < |Stack(s, t)| ==> UserCode(Stack(s, t)[i])
    ensures AtRemove(ApplyRequest(s, t2, q), t, RemWait) ==> AtRemove(s, t, RemWait)
  {
    hide FetchAdd, FetchSub, OrLocked, OrCancelled, IsCancelled, IsLocked, SourceFree, Without, Index, Cb;
  }

  /** The list was found without the callback: so there is a signalling thread. */
  lemma CheckingHasSignaller(s: State, t: nat)
    requires Inv(s)
    ensures AtRemove(s, t, RemCheck) ==> s.signallingThread.Some?
  {
    hide FramesOk, CallbacksOk, PinsOk, ListOk, WordOk;
    if AtRemove(s, t, RemCheck) {
      FrameAt(s, t);
      CallbackAt(s, TopCallback(s, t));
    }
  }

  /** The call below the top one is inside user code, so it is not a destructor. */
  lemma BelowIsUserCode(s: State, t: nat)
    requires Inv(s)
    ensures forall i: nat :: i + 1 < |Stack(s, t)| ==> UserCode(Stack(s, t)[i])
  {
    hide CallbacksOk, PinsOk, ListOk, WordOk, SignalOk;
    forall i: nat | i + 1 < |Stack(s, t)| ensures UserCode(Stack(s, t)[i]) { FrameAtIndex(s, t, i); }
  }

  lemma {:induction false} WaitsForSignaller(states: seq<State>, events: seq<Event>, k: nat, t: nat)
    requires IsRun(states, events) && k < |states| && AtRemove(states[k], t, RemWait)
    ensures states[k].signallingThread.Some? && states[k].signallingThread != Some(t)
    decreases k
  {
    hide Inv, Enabled, Apply;
    assert k > 0 by { NobodyAtStart(t); }
    RunInv(states, events, k - 1);
    var s, e := states[k - 1], events[k - 1];
    assert IsStep(s, e, states[k - 1 + 1]);
    if AtRemove(s, t, RemWait) {
      WaitsForSignaller(states, events, k - 1, t);
      SignallerStays(s, e);
    } else {
      WaitStep(s, e, t);
    }
  }

  lemma NobodyAtStart(t: nat)
    ensures Stack(Init(), t) == []
  {}

  /** A destructor waits only for a callback that another thread has taken off the list and is still
      running or finishing: never for one that runs on its own thread, such as its own. */
  lemma WaitsForAnother(states: seq<State>, events: seq<Event>, k: nat, t: nat)
    requires IsRun(states, events) && k < |states| && AtRemove(states[k], t, RemWait)
    ensures
      var s, c := states[k], TopCallback(states[k], t);
      && (forall i: nat :: i < |Stack(s, t)| ==> !RunsIn(Stack(s, t)[i], c))
      && (if Cb(s, c).completed then Enabled(s, Remove(t, RemWaited))
          else s.signal.Active? && s.signal.t != t && Finishing(s, s.signal.t, s.signal.i, c))
  {
    hide IsRun, FramesOk, CallbacksOk, PinsOk, ListOk, WordOk;
    RunInv(states, events, k);
    WaitsForSignaller(states, events, k, t);
    var s, c := states[k], TopCallback(states[k], t);
    FrameAt(s, t);
    CallbackAt(s, c);
    if s.signal.Active? { FrameAtIndex(s, s.signal.t, s.signal.i); }
    forall i: nat | i < |Stack(s, t)| ensures !RunsIn(Stack(s, t)[i], c) {
      FrameAtIndex(s, t, i);
      NotOnOwnThread(s, t, i, c);
    }
  }

  /** The call at i on the thread's stack is working on the callback. */
  ghost predicate Finishing(s: State, t: nat, i: nat, c: nat) {
    i < |Stack(s, t)| && Stack(s, t)[i].Requesting? && TouchedBy(Stack(s, t)[i].requestAt) == Some(c)
  }

  lemma NotOnOwnThread(s: State, t: nat, i: nat, c: nat)
    requires i < |Stack(s, t)| && FrameOk(s, t, i, Stack(s, t)[i]) && s.signallingThread != Some(t) && Cb(s, c).fate.Taken?
    ensures !RunsIn(Stack(s, t)[i], c)
  {}
}
