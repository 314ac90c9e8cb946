/** Every call of the cancellation protocol ends: no deadlock, and no unending run once calls stop being
    made.  User code is taken to return. */
module CancellationTermination {
  import opened Words
  import opened Cancellation
  import opened CancellationInvariant
  import opened CancellationSteps
  import opened CancellationSafety
  import opened CancellationProgress

  /** A further step of a call that has been made. */
  predicate Continues(e: Event) {
    || (e.Add? && !e.add.StartAdd?)
    || (e.Remove? && !e.remove.StartRemove?)
    || (e.Request? && !e.request.StartRequest?)
  }

  // ----- no deadlock -----

  /** The next step of the call on top of the thread's stack. */
  function NextAdd(s: State, f: Frame): AddEvent
    requires f.Adding?
  {
    match f.addAt
    case TryAdd => if IsCancelled(s.word) then AddInline else if CanBeCancelled(s.word) then AddLock else AddGiveUp
    case InvokeInline => AddInlineDone
    case AddLocked => AddLink
    case AddLinked => AddUnlock
  }

  function NextRemove(s: State, t: nat, f: Frame): RemoveEvent
    requires f.Removing?
  {
    match f.removeAt
    case RemLock => RemAcquire
    case RemLocked => if Cb(s, f.c).prevNext.Null? then RemFound else RemUnlink
    case RemUnlinked => RemUnlockDrop
    case RemUnlock => RemRelease
    case RemCheck => if s.signallingThread == Some(t) then RemSelf else RemOther
    case RemWait => RemWaited
    case RemDrop => RemDropRef
  }

  function NextRequest(s: State, f: Frame): RequestEvent
    requires f.Requesting?
  {
    match f.requestAt
    case TryCancel => if IsCancelled(s.word) then ReqAlready else ReqCancel
    case SetId => ReqSetId
    case Loop => if s.head.Some? then ReqPop else ReqEmpty
    case Popped(_, _) => ReqUnlock
    case SetFlag(_, _) => ReqSetFlag
    case Call(_, _) => ReqInvoke
    case Invoking(_, _, _) => ReqReturn
    case ClearFlag(_, _) => ReqClearFlag
    case Complete(_, _) => ReqComplete
    case Relock => ReqRelock
    case Final => ReqLast
  }

  function Next(s: State, t: nat): (e: Event)
    requires Stack(s, t) != []
    ensures Continues(e)
  {
    var f := Top(s, t);
    if f.Adding? then Add(t, NextAdd(s, f))
    else if f.Removing? then Remove(t, NextRemove(s, t, f))
    else Request(t, NextRequest(s, f))
  }

  /** Only the lock and the completion of a callback are ever waited for. */
  lemma TopMoves(s: State, t: nat)
    requires Inv(s) && Stack(s, t) != [] && |s.tokens| + 1 < TWO31
    requires s.holder.None? || s.holder == Some(t)
    requires !AtRemove(s, t, RemWait) || Cb(s, TopCallback(s, t)).completed
    ensures Enabled(s, Next(s, t))
  {
    hide FramesOk, CallbacksOk, PinsOk, ListOk, WordOk, IsCancelled, IsLocked, CanBeCancelled, Cb, CallbackOk;
    FrameAt(s, t);
    FrameLock(s, t, Depth(s, t), Top(s, t));
    WordMeans(s);
  }

  /** While a call is in progress, some call can take its next step: if the lock is held, by its holder;
      otherwise any call can, except a destructor waiting for a callback, which the signalling thread
      is then finishing. */
  lemma NeverDeadlocked(states: seq<State>, events: seq<Event>, k: nat, t: nat)
    requires IsRun(states, events) && k < |states| && Stack(states[k], t) != [] && |states[k].tokens| + 1 < TWO31
    ensures exists u: nat :: Stack(states[k], u) != [] && Enabled(states[k], Next(states[k], u))
  {
    hide IsRun, Inv, Enabled, Next;
    RunInv(states, events, k);
    var s := states[k];
    if s.holder.Some? {
      HolderIsTop(s);
      TopMoves(s, s.holder.value);
    } else if AtRemove(s, t, RemWait) && !Cb(s, TopCallback(s, t)).completed {
      WaitsForAnother(states, events, k, t);
      WaitsForSignaller(states, events, k, t);
      var u := s.signal.t;
      if AtRemove(s, u, RemWait) { WaitsForSignaller(states, events, k, u); }
      SignallerIs(s);
      TopMoves(s, u);
    } else {
      TopMoves(s, t);
    }
  }

  lemma HolderIsTop(s: State)
    requires Inv(s) && s.holder.Some?
    ensures Stack(s, s.holder.value) != [] && !AtRemove(s, s.holder.value, RemWait)
  {
    hide FramesOk, CallbacksOk, PinsOk, ListOk, WordOk;
  }

  lemma SignallerIs(s: State)
    requires Inv(s) && s.signal.Active? && s.signallingThread.Some?
    ensures s.signallingThread == Some(s.signal.t) && Stack(s, s.signal.t) != []
  {
    hide CallbacksOk, PinsOk, ListOk, WordOk;
    FrameAtIndex(s, s.signal.t, s.signal.i);
  }

  // ----- the work that is left -----

  const PER_CALLBACK: nat := 10

  /** More than the steps that the call can still take, apart from those for callbacks on the list. */
  function FrameWork(f: Frame): nat {
    match f
    case Adding(_, _, _, at) =>
      (match at case TryAdd => 14 case AddLocked => 13 case AddLinked => 2 case InvokeInline => 1)
    case Removing(_, at) =>
      (match at
       case RemLock => 7 case RemLocked => 6 case RemUnlinked => 1 case RemUnlock => 5
       case RemCheck => 4 case RemWait => 3 case RemDrop => 2)
    case Requesting(_, at) =>
      (match at
       case TryCancel => 5 case SetId => 4 case Loop => 3 case Popped(_, _) => 10 case SetFlag(_, _) => 9
       case Call(_, _) => 8 case Invoking(_, _, _) => 7 case ClearFlag(_, _) => 6 case Complete(_, _) => 5
       case Relock => 4 case Final => 1)
  }

  function StackWork(stack: seq<Frame>): nat {
    if stack == [] then 0 else StackWork(stack[..|stack| - 1]) + FrameWork(stack[|stack| - 1])
  }

  /** The threads below n. */
  function StacksWork(s: State, n: nat): nat {
    if n == 0 then 0 else StacksWork(s, n - 1) + StackWork(Stack(s, n - 1))
  }

  function Work(s: State, n: nat): nat {
    PER_CALLBACK * |s.list| + StacksWork(s, n)
  }

  /** Only threads below n have made calls. */
  ghost predicate ThreadsBelow(s: State, n: nat) {
    forall t: nat :: Stack(s, t) != [] ==> t < n
  }

  /** There is always such a bound. */
  lemma SomeBound(s: State) returns (n: nat)
    ensures ThreadsBelow(s, n)
  {
    n := KeysBound(s.stacks.Keys);
    assert forall t: nat :: Stack(s, t) != [] ==> t in s.stacks.Keys;
  }

  lemma {:induction false} KeysBound(keys: set<nat>) returns (n: nat)
    ensures forall t: nat :: t in keys ==> t < n
  {
    n := 0;
    if keys != {} {
      var t: nat :| t in keys;
      var rest := keys - {t};
      n := KeysBound(rest);
      assert forall u: nat :: u in keys ==> u == t || u in rest;
      n := if n <= t then t + 1 else n;
    }
  }

  /** The call on top of thread t has less to do, or is over; those below it have as much as before. */
  ghost predicate WorksOff(s: State, z: State, t: nat)
    requires Stack(s, t) != []
  {
    var d := Depth(s, t);
    && (forall u: nat :: u != t ==> Stack(z, u) == Stack(s, u))
    && d <= |Stack(z, t)| <= d + 1
    && StackWork(Stack(z, t)[..d]) == StackWork(Stack(s, t)[..d])
    && PER_CALLBACK * |z.list| + (if |Stack(z, t)| == d then 0 else FrameWork(Stack(z, t)[d]))
       < PER_CALLBACK * |s.list| + FrameWork(Top(s, t))
  }

  lemma AddWorksOff(s: State, t: nat, a: AddEvent)
    requires EnabledAdd(s, t, a) && !a.StartAdd?
    ensures WorksOff(s, ApplyAdd(s, t, a), t)
  {
    hide FetchAdd, FetchSub, OrLocked, IsCancelled, IsLocked, CanBeCancelled, TokenFree, TokenNotMoved, Cb, StackWork;
    assert Stack(ApplyAdd(s, t, a), t)[..Depth(s, t)] == Stack(s, t)[..Depth(s, t)];
  }

  lemma RemoveWorksOff(s: State, t: nat, m: RemoveEvent)
    requires EnabledRemove(s, t, m) && !m.StartRemove?
    ensures WorksOff(s, ApplyRemove(s, t, m), t)
  {
    hide FetchAdd, FetchSub, OrLocked, IsLocked, Index, Without, Cb, StackWork, MarkDestroyed;
    WithoutIsShorter(s.list, TopCallback(s, t));
    if m.RemSelf? {
      SelfWorksOff(s, t);
    } else {
      assert Stack(ApplyRemove(s, t, m), t)[..Depth(s, t)] == Stack(s, t)[..Depth(s, t)];
    }
  }

  lemma WithoutIsShorter(list: seq<nat>, c: nat)
    ensures |Without(list, c)| <= |list|
  {}

  lemma SelfWorksOff(s: State, t: nat)
    requires AtRemove(s, t, RemCheck)
    ensures WorksOff(s, ApplyRemSelf(s, t), t)
  {
    hide StackWork, MarkDestroyed, Cb;
    var d, z, c := Depth(s, t), ApplyRemSelf(s, t), TopCallback(s, t);
    if Cb(s, c).flagAt.Some? {
      var j := Cb(s, c).flagAt.value;
      MarkWork(Stack(s, t), j, d);
      assert Stack(z, t)[..d] == MarkDestroyed(Stack(s, t), j)[..d];
    } else {
      assert Stack(z, t)[..d] == Stack(s, t)[..d];
    }
  }

  lemma {:induction false} MarkWork(stack: seq<Frame>, j: nat, d: nat)
    requires d <= |stack|
    ensures StackWork(MarkDestroyed(stack, j)[..d]) == StackWork(stack[..d])
  {
    if d > 0 {
      MarkWork(stack, j, d - 1);
      assert stack[..d][..d - 1] == stack[..d - 1];
      assert MarkDestroyed(stack, j)[..d][..d - 1] == MarkDestroyed(stack, j)[..d - 1];
    }
  }

  lemma RequestWorksOff(s: State, t: nat, q: RequestEvent)
    requires ListOk(s) && EnabledRequest(s, t, q) && !q.StartRequest?
    ensures WorksOff(s, ApplyRequest(s, t, q), t)
  {
    hide FetchAdd, FetchSub, OrLocked, OrCancelled, IsCancelled, IsLocked, SourceFree, Index, Without, Cb, StackWork, ListOk;
    if q.ReqPop? { HeadIsFirst(s); }
    assert Stack(ApplyRequest(s, t, q), t)[..Depth(s, t)] == Stack(s, t)[..Depth(s, t)];
  }

  lemma HeadIsFirst(s: State)
    requires ListOk(s) && s.head.Some?
    ensures |Without(s.list, s.head.value)| == |s.list| - 1
  {
    WithoutFirst(s.list, s.head.value);
  }

  /** Every step of a call leaves less work. */
  lemma StepWork(s: State, e: Event, n: nat)
    requires Inv(s) && Enabled(s, e) && Continues(e) && ThreadsBelow(s, n)
    ensures Work(Apply(s, e), n) < Work(s, n) && ThreadsBelow(Apply(s, e), n)
  {
    hide FramesOk, CallbacksOk, PinsOk, ListOk, WordOk, EnabledAdd, EnabledRemove, EnabledRequest, WorksOff;
    hide ApplyAdd, ApplyRemove, ApplyRequest, StackWork, StacksWork;
    TopExists(s, e);
    match e
    case Add(t, a) => AddWorksOff(s, t, a); LessWork(s, Apply(s, e), t, n);
    case Remove(t, m) => RemoveWorksOff(s, t, m); LessWork(s, Apply(s, e), t, n);
    case Request(t, q) => RequestWorksOff(s, t, q); LessWork(s, Apply(s, e), t, n);
    case _ =>
  }

  lemma TopExists(s: State, e: Event)
    requires Enabled(s, e) && Continues(e)
    ensures Stack(s, e.t) != []
  {
    hide IsCancelled, IsLocked, CanBeCancelled, Cb;
  }

  lemma LessWork(s: State, z: State, t: nat, n: nat)
    requires Stack(s, t) != [] && WorksOff(s, z, t) && ThreadsBelow(s, n)
    ensures Work(z, n) < Work(s, n) && ThreadsBelow(z, n)
  {
    var d := Depth(s, t);
    StacksDiffer(s, z, n, t);
    if |Stack(z, t)| == d { assert Stack(z, t)[..d] == Stack(z, t); }
    forall u: nat | Stack(z, u) != [] ensures u < n {
      assert Stack(s, u) != [];
    }
  }

  lemma {:induction false} StacksDiffer(s: State, z: State, n: nat, t: nat)
    requires forall u: nat :: u != t ==> Stack(z, u) == Stack(s, u)
    ensures StacksWork(z, n) - StacksWork(s, n) == if t < n then StackWork(Stack(z, t)) - StackWork(Stack(s, t)) else 0
  {
    if n > 0 { StacksDiffer(s, z, n - 1, t); }
  }

  // ----- calls end -----

  /** From any state of a run, if no further calls are made, only so many steps remain: and when the
      calls in progress can take no more steps, they have all returned. */
  lemma CallsEnd(states: seq<State>, events: seq<Event>, k: nat, n: nat)
    requires IsRun(states, events) && k <= |events| && ThreadsBelow(states[k], n)
    requires forall i: nat :: k <= i < |events| ==> Continues(events[i])
    ensures |events| - k <= Work(states[k], n)
    ensures
      var z := states[|events|];
      |z.tokens| + 1 < TWO31 && (forall e :: Continues(e) ==> !Enabled(z, e)) ==> forall t: nat :: Stack(z, t) == []
  {
    hide Inv, Enabled, Apply, Work;
    WorkLeft(states, events, k, |events|, n);
    var z := states[|events|];
    if |z.tokens| + 1 < TWO31 && forall e :: Continues(e) ==> !Enabled(z, e) {
      forall t: nat ensures Stack(z, t) == [] {
        if Stack(z, t) != [] {
          NeverDeadlocked(states, events, |events|, t);
          assert false;
        }
      }
    }
  }

  lemma {:induction false} WorkLeft(states: seq<State>, events: seq<Event>, k: nat, m: nat, n: nat)
    requires IsRun(states, events) && k <= m <= |events| && ThreadsBelow(states[k], n)
    requires forall i: nat :: k <= i < |events| ==> Continues(events[i])
    ensures Work(states[m], n) + (m - k) <= Work(states[k], n) && ThreadsBelow(states[m], n)
    decreases m
  {
    hide Inv, Enabled, Apply, Work, ThreadsBelow;
    if m > k {
      WorkLeft(states, events, k, m - 1, n);
      RunInv(states, events, m - 1);
      assert IsStep(states[m - 1], events[m - 1], states[m - 1 + 1]);
      StepWork(states[m - 1], events[m - 1], n);
    }
  }

  // ----- what has happened when a request returns -----

  /** The thread's requestCancellation call returns by this step. */
  ghost predicate Returns(s: State, e: Event) {
    e.Request? && AtRequest(s, e.t) && Enabled(s, e) && |Stack(Apply(s, e), e.t)| < |Stack(s, e.t)|
  }

  /** A requestCancellation call returns only when cancellation has been requested: at once if it had
      been already, otherwise as the one call that ran all the callbacks. */
  lemma RequestEnds(states: seq<State>, events: seq<Event>, k: nat)
    requires IsRun(states, events) && k < |events| && Returns(states[k], events[k])
    ensures
      var s, z, t := states[k], states[k + 1], events[k].t;
      && IsCancelled(z.word)
      && (Top(s, t).requestAt.TryCancel? ==> IsCancelled(s.word))
      && (!Top(s, t).requestAt.TryCancel? ==> s.signal == Active(t, Depth(s, t)) && z.signal.Finished? && z.list == [])
  {
    hide FramesOk, CallbacksOk, PinsOk, ListOk, WordOk, IsCancelled, EnabledRequest, ApplyRequest;
    RunInv(states, events, k);
    RunInv(states, events, k + 1);
    var s, e := states[k], events[k];
    assert IsStep(s, e, states[k + 1]);
    WordMeans(s);
    WordMeans(states[k + 1]);
    FrameAt(s, e.t);
    ReturnSteps(s, e.t, e.request);
  }

  lemma ReturnSteps(s: State, t: nat, q: RequestEvent)
    requires AtRequest(s, t) && EnabledRequest(s, t, q) && |Stack(ApplyRequest(s, t, q), t)| < |Stack(s, t)|
    ensures if Top(s, t).requestAt.TryCancel? then IsCancelled(s.word) && ApplyRequest(s, t, q).signal == s.signal
            else ApplyRequest(s, t, q).signal.Finished?
  {
    hide FetchAdd, FetchSub, OrLocked, OrCancelled, IsCancelled, IsLocked, SourceFree, Without, Index, Cb;
  }
}
