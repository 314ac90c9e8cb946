/** Every step of the cancellation protocol keeps the invariant. */
module CancellationSteps {
  import opened Words
  import opened Cancellation
  import opened CancellationInvariant

  // ----- references -----

  ghost predicate RefStep(s: State, z: State) {
    && z.stacks == s.stacks && z.callbacks == s.callbacks && z.list == s.list && z.head == s.head
    && z.holder == s.holder && z.signal == s.signal && z.touching == s.touching && z.signallingThread == s.signallingThread
    && (s.sources == {} ==> z.sources == {})
    && forall c: nat :: Registered(c) in z.tokens <==> Registered(c) in s.tokens
  }

  lemma RefKeepsShape(s: State, e: RefEvent)
    requires Inv(s) && EnabledRef(s, e)
    ensures Shape(ApplyRef(s, e))
  {
    hide Pack, WordOk, FetchAdd, FetchSub, FrameOk, CallbackOk, FramesOk, CallbacksOk, PinsOk, ListOk;
    var z := ApplyRef(s, e);
    assert RefStep(s, z);
    RefFrames(s, e);
    RefCallbacks(s, z);
    RefPins(s, z);
  }

  lemma RefFrames(s: State, e: RefEvent)
    requires FramesOk(s) && EnabledRef(s, e) && RefStep(s, ApplyRef(s, e))
    ensures FramesOk(ApplyRef(s, e))
  {
    hide ApplyRef, FrameOk, Unaffected, EnabledRef;
    var z := ApplyRef(s, e);
    forall t: nat, i: nat | i < |Stack(z, t)| ensures FrameOk(z, t, i, Stack(z, t)[i]) {
      assert Stack(z, t) == Stack(s, t);
      FrameLock(s, t, i, Stack(s, t)[i]);
      RefUnaffected(s, e, t, i);
      KeepFrame(s, z, t, i, Stack(s, t)[i]);
    }
  }

  lemma RefUnaffected(s: State, e: RefEvent, t: nat, i: nat)
    requires FramesOk(s) && EnabledRef(s, e) && i < |Stack(s, t)|
    ensures Unaffected(s, ApplyRef(s, e), Stack(s, t)[i])
  {
    hide FetchAdd, FetchSub;
    assert FrameOk(s, t, i, Stack(s, t)[i]);
  }

  lemma RefCallbacks(s: State, z: State)
    requires CallbacksOk(s) && RefStep(s, z)
    ensures CallbacksOk(z)
  {
    assert forall t: nat :: Stack(z, t) == Stack(s, t);
    CallbacksKeep(s, z, 0, |Stack(s, 0)|, None);
  }

  lemma RefPins(s: State, z: State)
    requires PinsOk(s) && ListOk(s) && SignalOk(s) && RefStep(s, z)
    ensures PinsOk(z) && ListOk(z) && SignalOk(z)
  {
    assert forall t: nat :: Stack(z, t) == Stack(s, t);
  }

  // ----- steps of a constructor or a destructor on its own callback -----

  /** Another callback, up to its place on the list. */
  ghost predicate Relinked(k: Callback, k2: Callback) {
    k2 == k.(next := k2.next, prevNext := k2.prevNext) && (k2.prevNext == k.prevNext || k.fate.Linked?)
  }

  /** Nothing changes but c0, links, the word, the list, c0's reference and the token that is dropped. */
  ghost predicate OwnerStep(s: State, z: State, c0: nat, dropped: TokenRef) {
    && z.callbacks.Keys == s.callbacks.Keys && c0 in s.callbacks
    && (forall c: nat :: c in s.callbacks && c != c0 ==> Relinked(Cb(s, c), Cb(z, c)))
    && (Cb(s, c0).fate.Taken? ==> Cb(z, c0) == Cb(s, c0).(status := Cb(z, c0).status))
    && (Cb(s, c0).fate.Inside? ==> Cb(z, c0) == Cb(s, c0).(status := Cb(z, c0).status))
    && z.signal == s.signal && z.touching == s.touching && z.signallingThread == s.signallingThread
    && z.sources == s.sources && (s.list == [] ==> z.list == [] || s.signal.Quiet?)
    && (forall c: nat :: c != c0 ==> (c in z.list <==> c in s.list))
    && (forall r :: r in s.tokens && r != Registered(c0) && r != dropped ==> r in z.tokens)
    && (forall r :: r in z.tokens && r != Registered(c0) ==> r in s.tokens)
  }

  /** The token that a successful constructor keeps. */
  function Kept(f: Frame): TokenRef
    requires !f.Requesting?
  {
    if f.Adding? && !f.copy then Handle(f.token) else Registered(f.c)
  }

  lemma OwnerUnaffected(s: State, z: State, t: nat, i: nat, t2: nat, i2: nat)
    requires FramesOk(s) && PinsOk(s) && i < |Stack(s, t)| && i2 < |Stack(s, t2)| && !(t2 == t && i2 == i)
    requires !Stack(s, t)[i].Requesting? && OwnerStep(s, z, Stack(s, t)[i].c, Kept(Stack(s, t)[i]))
    ensures Unaffected(s, z, Stack(s, t2)[i2])
  {
    hide FrameOk, PinsOk, OwnerStep, Unaffected;
    assert FrameOk(s, t, i, Stack(s, t)[i]) && FrameOk(s, t2, i2, Stack(s, t2)[i2]);
    match Stack(s, t2)[i2]
    case Adding(_, _, _, _) => AddingUnaffected(s, z, t, i, t2, i2);
    case Removing(_, _) => RemovingUnaffected(s, z, t, i, t2, i2);
    case Requesting(_, _) => RequestingUnaffected(s, z, t, i, t2, i2);
  }

  lemma AddingUnaffected(s: State, z: State, t: nat, i: nat, t2: nat, i2: nat)
    requires PinsOk(s) && i < |Stack(s, t)| && i2 < |Stack(s, t2)| && !(t2 == t && i2 == i) && Stack(s, t2)[i2].Adding?
    requires FrameOk(s, t, i, Stack(s, t)[i]) && FrameOk(s, t2, i2, Stack(s, t2)[i2])
    requires !Stack(s, t)[i].Requesting? && OwnerStep(s, z, Stack(s, t)[i].c, Kept(Stack(s, t)[i]))
    ensures Unaffected(s, z, Stack(s, t2)[i2])
  {
    assert MovesToken(Stack(s, t)[i], Stack(s, t2)[i2]) ==> t == t2 && i == i2;
  }

  lemma RemovingUnaffected(s: State, z: State, t: nat, i: nat, t2: nat, i2: nat)
    requires i < |Stack(s, t)| && i2 < |Stack(s, t2)| && !(t2 == t && i2 == i) && Stack(s, t2)[i2].Removing?
    requires FrameOk(s, t, i, Stack(s, t)[i]) && FrameOk(s, t2, i2, Stack(s, t2)[i2])
    requires !Stack(s, t)[i].Requesting? && OwnerStep(s, z, Stack(s, t)[i].c, Kept(Stack(s, t)[i]))
    ensures Unaffected(s, z, Stack(s, t2)[i2])
  {}

  lemma RequestingUnaffected(s: State, z: State, t: nat, i: nat, t2: nat, i2: nat)
    requires i < |Stack(s, t)| && i2 < |Stack(s, t2)| && !(t2 == t && i2 == i) && Stack(s, t2)[i2].Requesting?
    requires FrameOk(s, t, i, Stack(s, t)[i]) && FrameOk(s, t2, i2, Stack(s, t2)[i2])
    requires !Stack(s, t)[i].Requesting? && OwnerStep(s, z, Stack(s, t)[i].c, Kept(Stack(s, t)[i]))
    ensures Unaffected(s, z, Stack(s, t2)[i2])
  {}

  lemma OwnerKeeps(s: State, z: State, t: nat, i: nat)
    requires Shape(s) && Acts(s, z, t, i) && LockMoves(s, z, t) && i < |Stack(s, t)| && !Stack(s, t)[i].Requesting?
    requires OwnerStep(s, z, Stack(s, t)[i].c, Kept(Stack(s, t)[i]))
    requires i + 1 == |Stack(z, t)| ==> FrameOk(z, t, i, Stack(z, t)[i])
    requires i == |Stack(z, t)| ==> z.holder != Some(t)
    requires CallbackOk(z, Stack(s, t)[i].c) && SamePin(s, z, t, i) && ListOk(z) && SignalOk(z)
    ensures Shape(z)
  {
    hide FrameOk, Unaffected, CallbackOk, SamePin, FramesOk, PinsOk, ListOk, SignalOk, Acts;
    var c0 := Stack(s, t)[i].c;
    forall t2: nat, i2: nat | i2 < |Stack(s, t2)| && !(t2 == t && i2 == i)
      ensures Unaffected(s, z, Stack(s, t2)[i2])
    {
      OwnerUnaffected(s, z, t, i, t2, i2);
    }
    OwnerCallback(s, z, t, i);
    StepKeeps(s, z, t, i, Some(c0));
  }

  lemma OwnerCallback(s: State, z: State, t: nat, i: nat)
    requires CallbacksOk(s) && i < |Stack(s, t)| && !Stack(s, t)[i].Requesting?
    requires OwnerStep(s, z, Stack(s, t)[i].c, Kept(Stack(s, t)[i])) && CallbackOk(z, Stack(s, t)[i].c)
    ensures OwnCallback(s, z, t, i, Some(Stack(s, t)[i].c))
  {
    hide CallbackOk;
  }

  // ----- steps of requestCancellation -----

  /** Nothing changes but the signalling call, links, the word, the list, and the callback it works on. */
  ghost predicate SignallerStep(s: State, z: State, t: nat, i: nat, c0: Option<nat>) {
    && z.callbacks.Keys == s.callbacks.Keys && (c0.Some? ==> c0.value in s.callbacks)
    && (forall c: nat :: c in s.callbacks && c0 != Some(c) ==> Relinked(Cb(s, c), Cb(z, c)))
    && (c0.Some? ==>
          && Cb(z, c0.value).status == Cb(s, c0.value).status
          && (Cb(z, c0.value).fate == Cb(s, c0.value).fate || (Cb(s, c0.value).fate.Linked? && Cb(z, c0.value).fate.Taken?))
          && (z.touching == c0 ==> s.touching == c0 || Cb(s, c0.value).fate.Linked?))
    && z.tokens == s.tokens && z.sources == s.sources
    && (forall c: nat :: c0 != Some(c) ==> (c in z.list <==> c in s.list))
    && (forall c: nat :: c0 != Some(c) ==> (z.touching == Some(c) <==> s.touching == Some(c)))
    && (s.signallingThread.Some? ==> z.signallingThread.Some?)
    && (s.signal == Active(t, i) || (s.signal.Quiet? && (z.signal.Quiet? || s.holder.None?)))
    && (s.holder.None? || s.holder == z.holder || !s.signal.Quiet?)
  }

  lemma SignallerUnaffected(s: State, z: State, t: nat, i: nat, c0: Option<nat>, t2: nat, i2: nat)
    requires FramesOk(s) && i2 < |Stack(s, t2)| && !(t2 == t && i2 == i)
    requires SignallerStep(s, z, t, i, c0)
    requires c0.Some? && Cb(s, c0.value).fate.Linked? && !Cb(z, c0.value).fate.Linked? ==>
      i < |Stack(s, t)| && HoldsLock(Stack(s, t)[i])
    ensures Unaffected(s, z, Stack(s, t2)[i2])
  {
    assert FrameOk(s, t2, i2, Stack(s, t2)[i2]);
    if i < |Stack(s, t)| { assert FrameOk(s, t, i, Stack(s, t)[i]); }
  }

  lemma SignallerKeeps(s: State, z: State, t: nat, i: nat, c0: Option<nat>)
    requires Shape(s) && Acts(s, z, t, i) && LockMoves(s, z, t) && i < |Stack(s, t)| && Stack(s, t)[i].Requesting?
    requires SignallerStep(s, z, t, i, c0)
    requires c0.Some? && Cb(s, c0.value).fate.Linked? && !Cb(z, c0.value).fate.Linked? ==> HoldsLock(Stack(s, t)[i])
    requires i + 1 == |Stack(z, t)| ==> FrameOk(z, t, i, Stack(z, t)[i]) && Stack(z, t)[i].Requesting?
    requires i == |Stack(z, t)| ==> z.holder != Some(t)
    requires c0.Some? ==> CallbackOk(z, c0.value)
    requires ListOk(z) && SignalOk(z)
    ensures Shape(z)
  {
    hide FrameOk, Unaffected, CallbackOk, FramesOk, PinsOk, ListOk, SignalOk;
    forall t2: nat, i2: nat | i2 < |Stack(s, t2)| && !(t2 == t && i2 == i)
      ensures Unaffected(s, z, Stack(s, t2)[i2])
    {
      SignallerUnaffected(s, z, t, i, c0, t2, i2);
    }
    SignallerCallback(s, z, t, i, c0);
    StepKeeps(s, z, t, i, c0);
  }

  lemma SignallerCallback(s: State, z: State, t: nat, i: nat, c0: Option<nat>)
    requires CallbacksOk(s) && FramesOk(s) && i < |Stack(s, t)| && Stack(s, t)[i].Requesting?
    requires SignallerStep(s, z, t, i, c0) && (c0.Some? ==> CallbackOk(z, c0.value))
    ensures OwnCallback(s, z, t, i, c0)
  {
    hide CallbackOk;
    assert FrameOk(s, t, i, Stack(s, t)[i]);
  }

  // ----- steps that leave the list alone -----

  /** The top frame of t changes or is popped. */
  ghost predicate TopStep(s: State, z: State, t: nat) {
    && Stack(s, t) != []
    && (z.stacks == Pop(s, t) || (Stack(z, t) != [] && z.stacks == SetTop(s, t, Top(z, t))))
  }

  lemma TopActs(s: State, z: State, t: nat)
    requires TopStep(s, z, t)
    ensures Acts(s, z, t, Depth(s, t))
  {}

  ghost predicate SameLinks(s: State, z: State) {
    && z.list == s.list && z.head == s.head && z.callbacks.Keys == s.callbacks.Keys
    && forall c: nat :: c in s.callbacks ==> Cb(z, c).next == Cb(s, c).next && Cb(z, c).prevNext == Cb(s, c).prevNext
  }

  lemma LinksKeep(s: State, z: State)
    requires ListOk(s) && SameLinks(s, z)
    ensures ListOk(z)
  {}

  /** The lock is with t after the step exactly if t's top frame holds it. */
  ghost predicate LockStep(s: State, z: State, t: nat) {
    && LockMoves(s, z, t)
    && (z.holder == Some(t) ==> Stack(z, t) != [] && HoldsLock(Top(z, t)))
  }

  lemma OwnerMoves(s: State, z: State, t: nat)
    requires Shape(s) && TopStep(s, z, t) && LockStep(s, z, t) && SameLinks(s, z) && !Top(s, t).Requesting?
    requires OwnerStep(s, z, Top(s, t).c, Kept(Top(s, t))) && CallbackOk(z, Top(s, t).c)
    requires |Stack(z, t)| < |Stack(s, t)| || (FrameOk(z, t, Depth(s, t), Top(z, t)) && SameCall(Top(s, t), Top(z, t)))
    requires |Stack(z, t)| < |Stack(s, t)| ==> z.holder != Some(t)
    ensures Shape(z)
  {
    hide FrameOk, CallbackOk, OwnerStep, FramesOk, CallbacksOk, PinsOk, ListOk, SignalOk, LockStep, TopStep;
    LinksKeep(s, z);
    OwnerRelinks(s, z, t);
  }

  lemma OwnerRelinks(s: State, z: State, t: nat)
    requires Shape(s) && TopStep(s, z, t) && LockStep(s, z, t) && ListOk(z) && !Top(s, t).Requesting?
    requires s.list == [] ==> z.list == [] || s.signal.Quiet?
    requires OwnerStep(s, z, Top(s, t).c, Kept(Top(s, t))) && CallbackOk(z, Top(s, t).c)
    requires |Stack(z, t)| < |Stack(s, t)| || (FrameOk(z, t, Depth(s, t), Top(z, t)) && SameCall(Top(s, t), Top(z, t)))
    requires |Stack(z, t)| < |Stack(s, t)| ==> z.holder != Some(t)
    ensures Shape(z)
  {
    hide FrameOk, CallbackOk, OwnerStep, FramesOk, CallbacksOk, PinsOk, ListOk;
    TopActs(s, z, t);
    OwnerSignal(s, z, t);
    OwnerKeeps(s, z, t, Depth(s, t));
  }

  /** The same operation, further on. */
  predicate SameCall(f: Frame, g: Frame) {
    match f
    case Adding(c, h, copy, _) => g.Adding? && g.c == c && g.token == h && g.copy == copy
    case Removing(c, _) => g.Removing? && g.c == c
    case Requesting(h, _) => g.Requesting? && g.source == h
  }

  lemma OwnerSignal(s: State, z: State, t: nat)
    requires SignalOk(s) && TopStep(s, z, t) && LockStep(s, z, t) && !Top(s, t).Requesting?
    requires OwnerStep(s, z, Top(s, t).c, Kept(Top(s, t)))
    requires s.list == [] ==> z.list == [] || s.signal.Quiet?
    ensures SignalOk(z)
  {
    TopActs(s, z, t);
  }

  lemma FrameAt(s: State, t: nat)
    requires FramesOk(s) && Stack(s, t) != []
    ensures FrameOk(s, t, Depth(s, t), Top(s, t))
  {}

  lemma CallbackAt(s: State, c: nat)
    requires CallbacksOk(s) && c in s.callbacks
    ensures CallbackOk(s, c)
  {}

  // ----- constructors -----

  lemma AddInlineKeeps(s: State, t: nat)
    requires Shape(s) && !s.signal.Quiet? && AtAdd(s, t, TryAdd)
    ensures Shape(ApplyAddInline(s, t))
  {
    hide FramesOk, CallbacksOk, PinsOk, ListOk, SignalOk;
    var z := ApplyAddInline(s, t);
    FrameAt(s, t);
    CallbackAt(s, TopCallback(s, t));
    OwnerMoves(s, z, t);
  }

  lemma AddInlineDoneKeeps(s: State, t: nat)
    requires Shape(s) && AtAdd(s, t, InvokeInline)
    ensures Shape(ApplyAddInlineDone(s, t))
  {
    hide FramesOk, CallbacksOk, PinsOk, ListOk, SignalOk;
    var z := ApplyAddInlineDone(s, t);
    FrameAt(s, t);
    CallbackAt(s, TopCallback(s, t));
    OwnerMoves(s, z, t);
  }

  lemma AddGiveUpKeeps(s: State, t: nat)
    requires Shape(s) && AtAdd(s, t, TryAdd) && s.sources == {} && s.signal.Quiet?
    ensures Shape(ApplyAddGiveUp(s, t))
  {
    hide FramesOk, CallbacksOk, PinsOk, ListOk, SignalOk;
    var z := ApplyAddGiveUp(s, t);
    FrameAt(s, t);
    CallbackAt(s, TopCallback(s, t));
    OwnerMoves(s, z, t);
  }

  lemma AddLockKeeps(s: State, t: nat)
    requires Shape(s) && AtAdd(s, t, TryAdd) && s.signal.Quiet? && s.holder.None?
    ensures Shape(ApplyAddLock(s, t))
  {
    hide FramesOk, CallbacksOk, PinsOk, ListOk, SignalOk, OrLocked;
    var z := ApplyAddLock(s, t);
    FrameAt(s, t);
    CallbackAt(s, TopCallback(s, t));
    OwnerMoves(s, z, t);
  }

  lemma AddUnlockKeeps(s: State, t: nat)
    requires Shape(s) && AtAdd(s, t, AddLinked)
    ensures Shape(ApplyAddUnlock(s, t))
  {
    hide FramesOk, CallbacksOk, PinsOk, ListOk, SignalOk, FetchSub;
    var z := ApplyAddUnlock(s, t);
    FrameAt(s, t);
    CallbackAt(s, TopCallback(s, t));
    OwnerMoves(s, z, t);
  }

  // ----- destructors -----

  lemma RemAcquireKeeps(s: State, t: nat)
    requires Shape(s) && AtRemove(s, t, RemLock) && s.holder.None?
    ensures Shape(ApplyRemAcquire(s, t))
  {
    hide FramesOk, CallbacksOk, PinsOk, ListOk, SignalOk, OrLocked;
    var z := ApplyRemAcquire(s, t);
    FrameAt(s, t);
    CallbackAt(s, TopCallback(s, t));
    OwnerMoves(s, z, t);
  }

  lemma RemUnlockDropKeeps(s: State, t: nat)
    requires Shape(s) && AtRemove(s, t, RemUnlinked)
    ensures Shape(ApplyRemUnlockDrop(s, t))
  {
    hide FramesOk, CallbacksOk, PinsOk, ListOk, SignalOk, FetchSub;
    var z := ApplyRemUnlockDrop(s, t);
    FrameAt(s, t);
    CallbackAt(s, TopCallback(s, t));
    OwnerMoves(s, z, t);
  }

  lemma RemFoundKeeps(s: State, t: nat)
    requires Shape(s) && EnabledRemove(s, t, RemFound)
    ensures Shape(ApplyRemove(s, t, RemFound))
  {
    hide FramesOk, CallbacksOk, PinsOk, ListOk, SignalOk;
    var z := ApplyRemove(s, t, RemFound);
    FrameAt(s, t);
    CallbackAt(s, TopCallback(s, t));
    NullIsUnlinked(s, TopCallback(s, t));
    OwnerMoves(s, z, t);
  }

  lemma NullIsUnlinked(s: State, c: nat)
    requires ListOk(s) && Cb(s, c).prevNext.Null?
    ensures c !in s.list
  {}

  lemma RemReleaseKeeps(s: State, t: nat)
    requires Shape(s) && AtRemove(s, t, RemUnlock)
    ensures Shape(ApplyRemRelease(s, t))
  {
    hide FramesOk, CallbacksOk, PinsOk, ListOk, SignalOk, FetchSub;
    var z := ApplyRemRelease(s, t);
    FrameAt(s, t);
    CallbackAt(s, TopCallback(s, t));
    OwnerMoves(s, z, t);
  }

  lemma RemOtherKeeps(s: State, t: nat)
    requires Shape(s) && EnabledRemove(s, t, RemOther)
    ensures Shape(ApplyRemove(s, t, RemOther))
  {
    hide FramesOk, CallbacksOk, PinsOk, ListOk, SignalOk;
    var z := ApplyRemove(s, t, RemOther);
    FrameAt(s, t);
    CallbackAt(s, TopCallback(s, t));
    OwnerMoves(s, z, t);
  }

  lemma RemWaitedKeeps(s: State, t: nat)
    requires Shape(s) && EnabledRemove(s, t, RemWaited)
    ensures Shape(ApplyRemove(s, t, RemWaited))
  {
    hide FramesOk, CallbacksOk, PinsOk, ListOk, SignalOk;
    var z := ApplyRemove(s, t, RemWaited);
    FrameAt(s, t);
    CallbackAt(s, TopCallback(s, t));
    OwnerMoves(s, z, t);
  }

  lemma RemDropRefKeeps(s: State, t: nat)
    requires Shape(s) && AtRemove(s, t, RemDrop)
    ensures Shape(ApplyRemDropRef(s, t))
  {
    hide FramesOk, CallbacksOk, PinsOk, ListOk, SignalOk, FetchSub;
    var z := ApplyRemDropRef(s, t);
    FrameAt(s, t);
    CallbackAt(s, TopCallback(s, t));
    OwnerMoves(s, z, t);
  }

  // ----- calls begin -----

  /** A new frame on top of a thread that is idle or in user code; one callback may change its status. */
  ghost predicate PushStep(s: State, z: State, t: nat, f: Frame, c0: Option<nat>) {
    && CanCall(s, t) && z.stacks == Push(s, t, f) && !HoldsLock(f)
    && z.list == s.list && z.head == s.head && z.holder == s.holder && z.signal == s.signal
    && z.touching == s.touching && z.signallingThread == s.signallingThread
    && z.tokens == s.tokens && z.sources == s.sources && s.callbacks.Keys <= z.callbacks.Keys
    && forall c: nat :: c in z.callbacks && c0 != Some(c) ==> c in s.callbacks && Cb(z, c) == Cb(s, c)
  }

  /** The callback is free to be constructed or destroyed: no constructor or destructor is at work on it. */
  ghost predicate Idle(s: State, c: nat) {
    c in s.callbacks ==> Cb(s, c).status.Alive?
  }

  lemma PushUnaffected(s: State, z: State, t: nat, f: Frame, c0: Option<nat>, t2: nat, i2: nat)
    requires FramesOk(s) && PushStep(s, z, t, f, c0) && i2 < |Stack(s, t2)|
    requires c0.Some? ==> Idle(s, c0.value) && c0.value in z.callbacks
    requires c0.Some? && c0.value in s.callbacks ==> Cb(z, c0.value) == Cb(s, c0.value).(status := Cb(z, c0.value).status)
    ensures Unaffected(s, z, Stack(s, t2)[i2])
  {
    assert FrameOk(s, t2, i2, Stack(s, t2)[i2]);
  }

  lemma PushKeeps(s: State, z: State, t: nat, f: Frame, c0: Option<nat>)
    requires Shape(s) && PushStep(s, z, t, f, c0) && PinsOk(z)
    requires c0.Some? ==> Idle(s, c0.value) && CallbackOk(z, c0.value) && c0.value in z.callbacks
    requires c0.Some? && c0.value in s.callbacks ==> Cb(z, c0.value) == Cb(s, c0.value).(status := Cb(z, c0.value).status)
    requires FrameOk(z, t, |Stack(s, t)|, f)
    ensures Shape(z)
  {
    hide FrameOk, CallbackOk, Unaffected, PinsOk, ListOk, SignalOk;
    var i := |Stack(s, t)|;
    forall t2: nat, i2: nat | i2 < |Stack(s, t2)| && !(t2 == t && i2 == i) ensures Unaffected(s, z, Stack(s, t2)[i2]) {
      PushUnaffected(s, z, t, f, c0, t2, i2);
    }
    UserCodeIsUnlocked(s, t);
    PushLinks(s, z, t, f, c0);
    FramesKeep(s, z, t, i);
    ActsIsLoose(s, z, t, i);
    PushOwn(s, z, t, f, c0);
    CallbacksKeep(s, z, t, i, c0);
  }

  lemma PushOwn(s: State, z: State, t: nat, f: Frame, c0: Option<nat>)
    requires CallbacksOk(s) && PushStep(s, z, t, f, c0) && (c0.Some? ==> CallbackOk(z, c0.value))
    ensures OwnCallback(s, z, t, |Stack(s, t)|, c0)
  {
    hide CallbackOk;
  }

  lemma PushLinks(s: State, z: State, t: nat, f: Frame, c0: Option<nat>)
    requires ListOk(s) && SignalOk(s) && PushStep(s, z, t, f, c0)
    requires s.holder != Some(t)
    requires c0.Some? && c0.value in s.callbacks ==> Cb(z, c0.value) == Cb(s, c0.value).(status := Cb(z, c0.value).status)
    ensures ListOk(z) && SignalOk(z)
  {
    assert forall c: nat :: c in s.callbacks ==> Cb(z, c).next == Cb(s, c).next && Cb(z, c).prevNext == Cb(s, c).prevNext;
  }

  lemma StartRequestKeeps(s: State, t: nat, h: nat)
    requires Shape(s) && EnabledRequest(s, t, StartRequest(h))
    ensures Shape(ApplyRequest(s, t, StartRequest(h)))
  {
    hide FramesOk, CallbacksOk, PinsOk, ListOk, SignalOk;
    var z := ApplyRequest(s, t, StartRequest(h));
    UserCodeIsUnlocked(s, t);
    PushPins(s, z, t, Requesting(h, TryCancel), None);
    PushKeeps(s, z, t, Requesting(h, TryCancel), None);
  }

  lemma StartRemoveKeeps(s: State, t: nat, c: nat)
    requires Shape(s) && EnabledRemove(s, t, StartRemove(c))
    ensures Shape(ApplyStartRemove(s, t, c))
  {
    hide FramesOk, CallbacksOk, PinsOk, ListOk, SignalOk;
    var z := ApplyStartRemove(s, t, c);
    UserCodeIsUnlocked(s, t);
    CallbackAt(s, c);
    PushPins(s, z, t, Removing(c, RemLock), Some(c));
    PushKeeps(s, z, t, Removing(c, RemLock), Some(c));
  }

  lemma StartAddKeeps(s: State, t: nat, c: nat, h: nat, copy: bool)
    requires Shape(s) && EnabledAdd(s, t, StartAdd(c, h, copy))
    ensures Shape(ApplyStartAdd(s, t, c, h, copy))
  {
    hide FramesOk, ListOk, SignalOk, PinsOk;
    var z := ApplyStartAdd(s, t, c, h, copy);
    UserCodeIsUnlocked(s, t);
    AddPins(s, z, t, c, h, copy);
    NotOnList(s, c);
    TouchedExists(s);
    PushKeeps(s, z, t, Adding(c, h, copy, TryAdd), Some(c));
  }

  /** The signalling thread only works on callbacks that exist. */
  lemma TouchedExists(s: State)
    requires FramesOk(s) && SignalOk(s)
    ensures s.touching.Some? ==> s.touching.value in s.callbacks
  {
    if s.signal.Active? {
      assert FrameOk(s, s.signal.t, s.signal.i, Stack(s, s.signal.t)[s.signal.i]);
    }
  }

  lemma NotOnList(s: State, c: nat)
    requires ListOk(s) && SignalOk(s) && CallbacksOk(s) && c !in s.callbacks
    ensures c !in s.list
  {}

  lemma UserCodeIsUnlocked(s: State, t: nat)
    requires FramesOk(s) && SignalOk(s) && CanCall(s, t)
    ensures s.holder != Some(t)
  {}

  lemma PushPins(s: State, z: State, t: nat, f: Frame, c0: Option<nat>)
    requires PinsOk(s) && PushStep(s, z, t, f, c0) && !f.Adding?
    ensures PinsOk(z)
  {
    assert Acts(s, z, t, |Stack(s, t)|);
    ActsIsLoose(s, z, t, |Stack(s, t)|);
    PinsKeep(s, z, t, |Stack(s, t)|);
  }

  lemma AddPins(s: State, z: State, t: nat, c: nat, h: nat, copy: bool)
    requires PinsOk(s) && EnabledAdd(s, t, StartAdd(c, h, copy)) && z == ApplyStartAdd(s, t, c, h, copy)
    ensures PinsOk(z)
  {
    var i := |Stack(s, t)|;
    forall t1: nat, i1: nat, t2: nat, i2: nat
      | i1 < |Stack(z, t1)| && i2 < |Stack(z, t2)| && MovesToken(Stack(z, t1)[i1], Stack(z, t2)[i2])
      ensures t1 == t2 && i1 == i2
    {
      if !(t1 == t && i1 == i) { assert Stack(z, t1)[i1] == Stack(s, t1)[i1]; }
      if !(t2 == t && i2 == i) { assert Stack(z, t2)[i2] == Stack(s, t2)[i2]; }
    }
  }

  lemma DestroyUnregisteredKeeps(s: State, c: nat)
    requires Shape(s) && Enabled(s, DestroyUnregistered(c))
    ensures Shape(ApplyDestroyUnregistered(s, c))
  {
    hide FramesOk, PinsOk, ListOk, SignalOk, CallbacksOk, CallbackOk;
    var z := ApplyDestroyUnregistered(s, c);
    UnregisteredFrames(s, c);
    UnregisteredCallbacks(s, c);
    UnregisteredLinks(s, c);
  }

  lemma UnregisteredFrames(s: State, c: nat)
    requires FramesOk(s) && CallbacksOk(s) && c in s.callbacks && Cb(s, c).status.Alive? && !Cb(s, c).registered
    ensures FramesOk(ApplyDestroyUnregistered(s, c))
  {
    var z := ApplyDestroyUnregistered(s, c);
    CallbackAt(s, c);
    forall t: nat, i: nat | i < |Stack(z, t)| ensures FrameOk(z, t, i, Stack(z, t)[i]) {
      assert FrameOk(s, t, i, Stack(s, t)[i]);
    }
  }

  lemma UnregisteredCallbacks(s: State, c: nat)
    requires CallbacksOk(s) && c in s.callbacks && Cb(s, c).status.Alive? && !Cb(s, c).registered
    ensures CallbacksOk(ApplyDestroyUnregistered(s, c))
  {
    var z := ApplyDestroyUnregistered(s, c);
    CallbackAt(s, c);
    assert CallbackOk(z, c);
    CallbacksKeep(s, z, 0, |Stack(s, 0)|, Some(c));
  }

  lemma UnregisteredLinks(s: State, c: nat)
    requires PinsOk(s) && ListOk(s) && SignalOk(s) && c in s.callbacks
    ensures var z := ApplyDestroyUnregistered(s, c); PinsOk(z) && ListOk(z) && SignalOk(z)
  {
    var z := ApplyDestroyUnregistered(s, c);
    assert forall t: nat :: Stack(z, t) == Stack(s, t);
    LinksKeep(s, z);
  }

  // ----- requestCancellation -----

  /** The signalling call goes on, or it returns with the list empty. */
  ghost predicate SignalStep(s: State, z: State, t: nat)
    requires Stack(s, t) != []
  {
    match z.signal
    case Quiet => false
    case Active(t2, i) =>
      && t2 == t && i == Depth(s, t) && |Stack(z, t)| == |Stack(s, t)|
      && Top(z, t).Requesting? && !Top(z, t).requestAt.TryCancel?
    case Finished => z.list == [] && z.touching.None? && z.signallingThread.Some?
  }

  lemma SignalAfter(s: State, z: State, t: nat)
    requires SignalOk(s) && TopStep(s, z, t) && LockStep(s, z, t) && SignalStep(s, z, t)
    ensures SignalOk(z)
  {}

  lemma SignallerMoves(s: State, z: State, t: nat, c0: Option<nat>)
    requires Shape(s) && TopStep(s, z, t) && LockStep(s, z, t) && SameLinks(s, z) && Top(s, t).Requesting?
    requires SignallerStep(s, z, t, Depth(s, t), c0) && (c0.Some? ==> CallbackOk(z, c0.value))
    requires c0.Some? ==> Cb(z, c0.value).fate == Cb(s, c0.value).fate
    requires |Stack(z, t)| < |Stack(s, t)| || (FrameOk(z, t, Depth(s, t), Top(z, t)) && SameCall(Top(s, t), Top(z, t)))
    requires |Stack(z, t)| < |Stack(s, t)| ==> z.holder != Some(t)
    requires SignalStep(s, z, t)
    ensures Shape(z)
  {
    hide FrameOk, CallbackOk, SignallerStep, FramesOk, CallbacksOk, PinsOk, ListOk, SignalOk, SignalStep;
    TopActs(s, z, t);
    LinksKeep(s, z);
    SignalAfter(s, z, t);
    SignallerKeeps(s, z, t, Depth(s, t), c0);
  }

  lemma ReqAlreadyKeeps(s: State, t: nat)
    requires Shape(s) && EnabledRequest(s, t, ReqAlready)
    ensures Shape(ApplyRequest(s, t, ReqAlready))
  {
    hide FrameOk, CallbackOk, Unaffected, ListOk, SignalOk;
    var z, i := ApplyRequest(s, t, ReqAlready), Depth(s, t);
    TopActs(s, z, t);
    FrameAt(s, t);
    FrameLock(s, t, i, Top(s, t));
    forall t2: nat, i2: nat | i2 < |Stack(s, t2)| && !(t2 == t && i2 == i) ensures Unaffected(s, z, Stack(s, t2)[i2]) {
      PopUnaffected(s, z, t2, i2);
    }
    PopSignal(s, z, t);
    LinksKeep(s, z);
    StepKeeps(s, z, t, i, None);
  }

  lemma PopUnaffected(s: State, z: State, t2: nat, i2: nat)
    requires FramesOk(s) && i2 < |Stack(s, t2)| && z == s.(stacks := z.stacks)
    ensures Unaffected(s, z, Stack(s, t2)[i2])
  {
    assert FrameOk(s, t2, i2, Stack(s, t2)[i2]);
  }

  lemma PopSignal(s: State, z: State, t: nat)
    requires SignalOk(s) && EnabledRequest(s, t, ReqAlready) && z == ApplyRequest(s, t, ReqAlready) && s.holder != Some(t)
    ensures SignalOk(z)
  {}

  lemma ReqCancelKeeps(s: State, t: nat)
    requires Shape(s) && EnabledRequest(s, t, ReqCancel) && s.signal.Quiet? && s.holder.None?
    ensures Shape(ApplyReqCancel(s, t))
  {
    hide FramesOk, CallbacksOk, PinsOk, ListOk, OrLocked, OrCancelled;
    var z := ApplyReqCancel(s, t);
    FrameAt(s, t);
    SignallerMoves(s, z, t, None);
  }

  lemma ReqSetIdKeeps(s: State, t: nat)
    requires Shape(s) && EnabledRequest(s, t, ReqSetId)
    ensures Shape(ApplyRequest(s, t, ReqSetId))
  {
    hide FramesOk, CallbacksOk, PinsOk, ListOk, SignalOk;
    var z := ApplyRequest(s, t, ReqSetId);
    FrameAt(s, t);
    SignallerMoves(s, z, t, None);
  }

  lemma ReqEmptyKeeps(s: State, t: nat)
    requires Shape(s) && EnabledRequest(s, t, ReqEmpty)
    ensures Shape(ApplyRequest(s, t, ReqEmpty))
  {
    hide FramesOk, CallbacksOk, PinsOk, SignalOk;
    var z := ApplyRequest(s, t, ReqEmpty);
    FrameAt(s, t);
    SignallerMoves(s, z, t, None);
  }

  lemma ReqUnlockKeeps(s: State, t: nat)
    requires Shape(s) && AtRequest(s, t) && Top(s, t).requestAt.Popped?
    ensures Shape(ApplyReqUnlock(s, t))
  {
    hide FramesOk, CallbacksOk, PinsOk, ListOk, SignalOk, FetchSub;
    var z := ApplyReqUnlock(s, t);
    FrameAt(s, t);
    SignallerMoves(s, z, t, None);
  }

  lemma ReqSetFlagKeeps(s: State, t: nat)
    requires Shape(s) && AtRequest(s, t) && Top(s, t).requestAt.SetFlag?
    ensures Shape(ApplyReqSetFlag(s, t))
  {
    hide FramesOk, CallbacksOk, PinsOk, ListOk, SignalOk;
    var z := ApplyReqSetFlag(s, t);
    FrameAt(s, t);
    CallbackAt(s, Top(s, t).requestAt.c);
    SignallerMoves(s, z, t, Some(Top(s, t).requestAt.c));
  }

  lemma ReqInvokeKeeps(s: State, t: nat)
    requires Shape(s) && AtRequest(s, t) && Top(s, t).requestAt.Call?
    ensures Shape(ApplyReqInvoke(s, t))
  {
    hide FramesOk, CallbacksOk, PinsOk, ListOk, SignalOk;
    var z := ApplyReqInvoke(s, t);
    FrameAt(s, t);
    CallbackAt(s, Top(s, t).requestAt.c);
    SignallerMoves(s, z, t, Some(Top(s, t).requestAt.c));
  }

  lemma ReqReturnKeeps(s: State, t: nat)
    requires Shape(s) && AtRequest(s, t) && Top(s, t).requestAt.Invoking?
    ensures Shape(ApplyReqReturn(s, t))
  {
    hide Shape, ApplyReqReturn;
    if Top(s, t).requestAt.destroyed { ReqReturnDestroyed(s, t); } else { ReqReturnAlive(s, t); }
  }

  lemma ReqReturnDestroyed(s: State, t: nat)
    requires Shape(s) && AtRequest(s, t) && Top(s, t).requestAt.Invoking? && Top(s, t).requestAt.destroyed
    ensures Shape(ApplyReqReturn(s, t))
  {
    hide FramesOk, CallbacksOk, PinsOk, ListOk, SignalOk;
    var z := ApplyReqReturn(s, t);
    FrameAt(s, t);
    SignallerMoves(s, z, t, None);
  }

  lemma ReqReturnAlive(s: State, t: nat)
    requires Shape(s) && AtRequest(s, t) && Top(s, t).requestAt.Invoking? && !Top(s, t).requestAt.destroyed
    ensures Shape(ApplyReqReturn(s, t))
  {
    hide FramesOk, CallbacksOk, PinsOk, ListOk, SignalOk;
    var z := ApplyReqReturn(s, t);
    FrameAt(s, t);
    SignallerMoves(s, z, t, None);
  }

  lemma ReqClearFlagKeeps(s: State, t: nat)
    requires Shape(s) && AtRequest(s, t) && Top(s, t).requestAt.ClearFlag?
    ensures Shape(ApplyReqClearFlag(s, t))
  {
    hide FramesOk, CallbacksOk, PinsOk, ListOk, SignalOk;
    var z := ApplyReqClearFlag(s, t);
    FrameAt(s, t);
    CallbackAt(s, Top(s, t).requestAt.c);
    SignallerMoves(s, z, t, Some(Top(s, t).requestAt.c));
  }

  lemma ReqCompleteKeeps(s: State, t: nat)
    requires Shape(s) && AtRequest(s, t) && Top(s, t).requestAt.Complete?
    ensures Shape(ApplyReqComplete(s, t))
  {
    hide FramesOk, CallbacksOk, PinsOk, ListOk, SignalOk, CallbackOk;
    var z, c := ApplyReqComplete(s, t), Top(s, t).requestAt.c;
    FrameAt(s, t);
    CallbackAt(s, c);
    CompletedCallback(s, z, t, c);
    SignallerMoves(s, z, t, Some(c));
  }

  lemma CompletedCallback(s: State, z: State, t: nat, c: nat)
    requires CallbackOk(s, c) && AtRequest(s, t) && Working(s, c, 1) && s.touching == Some(c) && Cb(s, c).flagAt.None?
    requires TopStep(s, z, t) && z.callbacks == s.callbacks[c := Cb(s, c).(completed := true)]
    requires z.touching.None? && z.tokens == s.tokens && z.list == s.list && s.signallingThread == z.signallingThread
    requires |Stack(z, t)| == |Stack(s, t)| ==> Top(z, t).Requesting?
    ensures CallbackOk(z, c)
  {
    TopActs(s, z, t);
  }

  lemma ReqRelockKeeps(s: State, t: nat)
    requires Shape(s) && EnabledRequest(s, t, ReqRelock) && s.holder.None?
    ensures Shape(ApplyRequest(s, t, ReqRelock))
  {
    hide FramesOk, CallbacksOk, PinsOk, ListOk, SignalOk, OrLocked;
    var z := ApplyRequest(s, t, ReqRelock);
    FrameAt(s, t);
    SignallerMoves(s, z, t, None);
  }

  lemma ReqLastKeeps(s: State, t: nat)
    requires Shape(s) && EnabledRequest(s, t, ReqLast)
    ensures Shape(ApplyRequest(s, t, ReqLast))
  {
    hide FramesOk, CallbacksOk, PinsOk, ListOk, SignalOk, FetchSub;
    var z := ApplyRequest(s, t, ReqLast);
    FrameAt(s, t);
    SignallerMoves(s, z, t, None);
  }

  // ----- steps that relink the list -----

  lemma AddLinkKeeps(s: State, t: nat)
    requires Shape(s) && AtAdd(s, t, AddLocked)
    ensures Shape(ApplyAddLink(s, t))
  {
    hide FramesOk, CallbacksOk, PinsOk, ListOk, SignalOk;
    var z, c := ApplyAddLink(s, t), TopCallback(s, t);
    FrameAt(s, t);
    CallbackAt(s, c);
    LinkedFirst(s, z, t, c);
    RelinkedOnly(s, z, c);
    OwnerRelinks(s, z, t);
  }

  /** The other callbacks change at most in their links. */
  ghost predicate OthersRelinked(s: State, z: State, c: nat) {
    && z.callbacks.Keys == s.callbacks.Keys
    && forall d: nat :: d in s.callbacks && d != c ==>
         Cb(z, d) == Cb(s, d).(next := Cb(z, d).next, prevNext := Cb(z, d).prevNext)
         && (Cb(z, d).prevNext == Cb(s, d).prevNext || d in s.list)
  }

  lemma RelinkedOnly(s: State, z: State, c: nat)
    requires CallbacksOk(s) && OthersRelinked(s, z, c)
    ensures forall d: nat :: d in s.callbacks && d != c ==> Relinked(Cb(s, d), Cb(z, d))
  {
    forall d: nat | d in s.callbacks && d != c ensures Relinked(Cb(s, d), Cb(z, d)) {
      CallbackAt(s, d);
    }
  }

  lemma LinkedFirst(s: State, z: State, t: nat, c: nat)
    requires ListOk(s) && AtAdd(s, t, AddLocked) && z == ApplyAddLink(s, t) && c == TopCallback(s, t)
    requires c !in s.list && c in s.callbacks
    ensures ListOk(z) && OthersRelinked(s, z, c)
  {
    if s.list != [] { assert Cb(s, s.list[0]).prevNext == BeforeIn(s.list, 0); }
    LinkedCells(s, z, t, c);
    forall k: nat | k < |z.list|
      ensures z.list[k] in z.callbacks && Cb(z, z.list[k]).next == NextIn(z.list, k)
              && Cb(z, z.list[k]).prevNext == BeforeIn(z.list, k)
    {
      if k > 0 { LinkedCell(s, z, c, k - 1); }
    }
  }

  lemma LinkedCells(s: State, z: State, t: nat, c: nat)
    requires AtAdd(s, t, AddLocked) && z == ApplyAddLink(s, t) && c == TopCallback(s, t) && c in s.callbacks
    requires s.head == (if s.list == [] then None else Some(s.list[0])) && c !in s.list
    requires s.head.Some? ==> s.head.value in s.callbacks
    ensures z.callbacks.Keys == s.callbacks.Keys && Cb(z, c).next == s.head && Cb(z, c).prevNext.HeadField?
    ensures forall d: nat :: d in s.callbacks && d != c ==>
              Cb(z, d) == Cb(s, d).(prevNext := if s.head == Some(d) then NextField(c) else Cb(s, d).prevNext)
  {}

  lemma LinkedCell(s: State, z: State, c: nat, k: nat)
    requires ListOk(s) && k < |s.list| && c !in s.list && z.list == [c] + s.list && z.callbacks.Keys == s.callbacks.Keys
    requires forall d: nat :: d in s.callbacks && d != c ==>
               Cb(z, d) == Cb(s, d).(prevNext := if s.head == Some(d) then NextField(c) else Cb(s, d).prevNext)
    ensures z.list[k + 1] == s.list[k] && s.list[k] in z.callbacks
    ensures Cb(z, s.list[k]).next == NextIn(z.list, k + 1) && Cb(z, s.list[k]).prevNext == BeforeIn(z.list, k + 1)
  {
    assert s.list[k] in s.list;
    if k > 0 { assert s.list[0] != s.list[k]; }
  }

  lemma ReqPopKeeps(s: State, t: nat)
    requires Shape(s) && AtRequest(s, t) && Top(s, t).requestAt.Loop? && s.head.Some?
    ensures Shape(ApplyReqPop(s, t))
  {
    hide FramesOk, CallbacksOk, PinsOk, ListOk, SignalOk, Without, CallbackOk;
    var z, c := ApplyReqPop(s, t), s.head.value;
    FrameAt(s, t);
    PoppedFirst(s, z, t, c);
    CallbackAt(s, c);
    LinkedIsBuilt(s, c);
    RelinkedOnly(s, z, c);
    PoppedCallback(s, z, t, c);
    TopActs(s, z, t);
    SignalAfter(s, z, t);
    SignallerKeeps(s, z, t, Depth(s, t), Some(c));
  }

  /** A constructor holds the lock from linking its callback until it returns. */
  lemma LinkedIsBuilt(s: State, c: nat)
    requires FramesOk(s) && CallbacksOk(s) && !s.signal.Quiet? && c in s.callbacks && c in s.list
    ensures !Cb(s, c).status.Constructing?
  {
    hide FramesOk, FrameOk;
    CallbackAt(s, c);
    var k := Cb(s, c).status;
    if k.Constructing? { LinkingIsQuiet(s, k.t, k.i, c); }
  }

  lemma LinkingIsQuiet(s: State, t: nat, i: nat, c: nat)
    requires FramesOk(s) && i < |Stack(s, t)| && Stack(s, t)[i].Adding? && Stack(s, t)[i].c == c && Cb(s, c).fate.Linked?
    ensures s.signal.Quiet?
  {
    assert FrameOk(s, t, i, Stack(s, t)[i]);
  }

  lemma PoppedCallback(s: State, z: State, t: nat, c: nat)
    requires CallbackOk(s, c) && TopStep(s, z, t) && Top(s, t).Requesting? && |Stack(z, t)| == |Stack(s, t)| && Top(z, t).Requesting?
    requires c in s.callbacks && c in s.list && c !in z.list && z.tokens == s.tokens && z.touching == Some(c)
    requires z.signallingThread.Some? && Cb(z, c) == Cb(s, c).(prevNext := Null, fate := Taken) && c in z.callbacks
    requires !Cb(s, c).status.Constructing?
    ensures CallbackOk(z, c) && Working(z, c, 0) && Cb(z, c).flagAt.None? && Cb(s, c).fate.Linked?
  {
    TopActs(s, z, t);
  }

  lemma PoppedFirst(s: State, z: State, t: nat, c: nat)
    requires ListOk(s) && AtRequest(s, t) && s.head == Some(c) && z == ApplyReqPop(s, t)
    ensures ListOk(z) && OthersRelinked(s, z, c) && c in s.callbacks
    ensures s.list != [] && s.list[0] == c && c !in z.list
    ensures forall d: nat :: d != c ==> (d in z.list <==> d in s.list)
    ensures z.head.None? ==> z.list == []
    ensures Cb(z, c) == Cb(s, c).(prevNext := Null, fate := Taken)
  {
    hide Without, Index, ListOk, OthersRelinked;
    FirstOf(s, c);
    WithoutFirst(s.list, c);
    PoppedCells(s, z, t, c);
    PoppedList(s, z, c);
  }

  lemma FirstOf(s: State, c: nat)
    requires ListOk(s) && s.head == Some(c)
    ensures s.list != [] && s.list[0] == c && c in s.callbacks && Cb(s, c).next == NextIn(s.list, 0)
    ensures Cb(s, c).next.Some? ==> Cb(s, c).next.value in s.callbacks && Cb(s, c).next.value != c
  {
    assert Cb(s, s.list[0]).next == NextIn(s.list, 0);
    if |s.list| > 1 { assert s.list[1] in s.callbacks; }
  }

  lemma WithoutFirst(list: seq<nat>, c: nat)
    requires list != [] && list[0] == c
    ensures Without(list, c) == list[1..] && list == [c] + list[1..]
  {}

  /** The three writes of the dequeuing. */
  ghost predicate Dequeued(s: State, z: State, c: nat) {
    var next := Cb(s, c).next;
    && z.callbacks.Keys == s.callbacks.Keys && z.head == next
    && Cb(z, c) == Cb(s, c).(prevNext := Null, fate := Taken)
    && forall d: nat :: d in s.callbacks && d != c ==>
         Cb(z, d) == Cb(s, d).(prevNext := if next == Some(d) then HeadField else Cb(s, d).prevNext)
  }

  lemma PoppedCells(s: State, z: State, t: nat, c: nat)
    requires AtRequest(s, t) && s.head == Some(c) && z == ApplyReqPop(s, t) && c in s.callbacks
    requires Cb(s, c).next.Some? ==> Cb(s, c).next.value in s.callbacks && Cb(s, c).next.value != c
    ensures Dequeued(s, z, c)
  {
    hide Without;
  }

  lemma PoppedList(s: State, z: State, c: nat)
    requires ListOk(s) && Dequeued(s, z, c) && s.list != [] && s.list[0] == c && z.list == s.list[1..]
    requires Cb(s, c).next == NextIn(s.list, 0)
    ensures ListOk(z) && OthersRelinked(s, z, c) && c !in z.list
    ensures forall d: nat :: d != c ==> (d in z.list <==> d in s.list)
  {
    assert s.list == [c] + z.list;
    forall k: nat | k < |z.list|
      ensures z.list[k] in z.callbacks && Cb(z, z.list[k]).next == NextIn(z.list, k)
              && Cb(z, z.list[k]).prevNext == BeforeIn(z.list, k)
    {
      PoppedCell(s, z, c, k);
    }
    forall i: nat, j: nat | i < j < |z.list| ensures z.list[i] != z.list[j] {
      assert z.list[i] == s.list[i + 1] && z.list[j] == s.list[j + 1];
    }
    if z.list != [] { assert z.list[0] == s.list[1]; }
  }

  lemma PoppedCell(s: State, z: State, c: nat, k: nat)
    requires ListOk(s) && Dequeued(s, z, c) && s.list != [] && s.list[0] == c && z.list == s.list[1..] && k < |z.list|
    requires Cb(s, c).next == NextIn(s.list, 0)
    ensures z.list[k] in z.callbacks && Cb(z, z.list[k]).next == NextIn(z.list, k)
    ensures Cb(z, z.list[k]).prevNext == BeforeIn(z.list, k)
  {
    assert z.list[k] == s.list[k + 1];
    assert s.list[k + 1] in s.callbacks && s.list[k + 1] != s.list[0];
    if k > 0 { assert s.list[k + 1] != s.list[1]; }
  }

  lemma RemUnlinkKeeps(s: State, t: nat)
    requires Shape(s) && AtRemove(s, t, RemLocked) && !Cb(s, TopCallback(s, t)).prevNext.Null?
    ensures Shape(ApplyRemUnlink(s, t))
  {
    hide FramesOk, CallbacksOk, PinsOk, ListOk, SignalOk, Without;
    var z, c := ApplyRemUnlink(s, t), TopCallback(s, t);
    FrameAt(s, t);
    CallbackAt(s, c);
    UnlinkedMiddle(s, z, t, c);
    RelinkedOnly(s, z, c);
    OwnerRelinks(s, z, t);
  }

  lemma UnlinkedMiddle(s: State, z: State, t: nat, c: nat)
    requires ListOk(s) && AtRemove(s, t, RemLocked) && c == TopCallback(s, t) && z == ApplyRemUnlink(s, t)
    requires c in s.list && c in s.callbacks
    ensures ListOk(z) && OthersRelinked(s, z, c) && c !in z.list
    ensures forall d: nat :: d != c ==> (d in z.list <==> d in s.list)
    ensures Cb(z, c) == Cb(s, c).(fate := Unlinked)
  {
    hide Without, Index;
    var k := Index(s.list, c);
    IndexIs(s.list, c);
    Removed(s.list, k, c);
    Neighbours(s, c, k);
    CellsWritten(s, z, t, c);
    UnlinkedCells(s, z, c, k);
    UnlinkedList(s, z, c, k);
  }

  lemma IndexIs(list: seq<nat>, c: nat)
    requires c in list
    ensures Index(list, c) < |list| && list[Index(list, c)] == c
    ensures Without(list, c) == list[..Index(list, c)] + list[Index(list, c) + 1..]
  {}

  /** Taking one element out of a list without repetitions. */
  lemma Removed(list: seq<nat>, k: nat, c: nat)
    requires k < |list| && list[k] == c && forall i: nat, j: nat :: i < j < |list| ==> list[i] != list[j]
    ensures
      var rest := list[..k] + list[k + 1..];
      && c !in rest && (forall d: nat :: d != c ==> (d in rest <==> d in list))
      && (forall i: nat, j: nat :: i < j < |rest| ==> rest[i] != rest[j])
      && (forall i: nat :: i < |rest| ==> rest[i] == if i < k then list[i] else list[i + 1])
  {
    assert list == list[..k] + [c] + list[k + 1..];
  }

  /** The three writes of the unlinking. */
  ghost predicate Bypassed(s: State, z: State, c: nat) {
    var next, prevNext := Cb(s, c).next, Cb(s, c).prevNext;
    && z.callbacks.Keys == s.callbacks.Keys
    && z.head == (if prevNext.HeadField? then next else s.head)
    && Cb(z, c) == Cb(s, c).(fate := Unlinked)
    && forall d: nat :: d in s.callbacks && d != c ==>
         Cb(z, d) == Cb(s, d).(next := if prevNext == NextField(d) then next else Cb(s, d).next,
                               prevNext := if next == Some(d) then prevNext else Cb(s, d).prevNext)
  }

  lemma Neighbours(s: State, c: nat, k: nat)
    requires ListOk(s) && k < |s.list| && s.list[k] == c
    ensures Cb(s, c).next.Some? ==> Cb(s, c).next.value in s.callbacks && Cb(s, c).next.value != c
    ensures Cb(s, c).prevNext.NextField? ==> Cb(s, c).prevNext.callback in s.callbacks && Cb(s, c).prevNext.callback != c
  {}

  lemma CellsWritten(s: State, z: State, t: nat, c: nat)
    requires AtRemove(s, t, RemLocked) && c == TopCallback(s, t) && z == ApplyRemUnlink(s, t) && c in s.callbacks
    requires Cb(s, c).next.Some? ==> Cb(s, c).next.value in s.callbacks && Cb(s, c).next.value != c
    requires Cb(s, c).prevNext.NextField? ==> Cb(s, c).prevNext.callback in s.callbacks && Cb(s, c).prevNext.callback != c
    ensures Bypassed(s, z, c)
  {
    hide Without;
  }

  lemma UnlinkedCells(s: State, z: State, c: nat, k: nat)
    requires ListOk(s) && k < |s.list| && s.list[k] == c && Bypassed(s, z, c)
    ensures OthersRelinked(s, z, c)
    ensures z.head == if k == 0 then NextIn(s.list, 0) else s.head
    ensures forall i: nat :: i < |s.list| && i != k ==>
      && Cb(z, s.list[i]).next == (if i + 1 == k then NextIn(s.list, k) else NextIn(s.list, i))
      && Cb(z, s.list[i]).prevNext == (if i == k + 1 then BeforeIn(s.list, k) else BeforeIn(s.list, i))
  {
    assert Cb(s, c).next == NextIn(s.list, k) && Cb(s, c).prevNext == BeforeIn(s.list, k);
    BypassedOthers(s, z, c, k);
    forall i: nat | i < |s.list| && i != k
      ensures Cb(z, s.list[i]).next == (if i + 1 == k then NextIn(s.list, k) else NextIn(s.list, i))
      ensures Cb(z, s.list[i]).prevNext == (if i == k + 1 then BeforeIn(s.list, k) else BeforeIn(s.list, i))
    {
      BypassedCell(s, z, c, k, i);
    }
  }

  lemma BypassedOthers(s: State, z: State, c: nat, k: nat)
    requires ListOk(s) && k < |s.list| && s.list[k] == c && Bypassed(s, z, c) && Cb(s, c).next == NextIn(s.list, k)
    ensures OthersRelinked(s, z, c)
  {}

  lemma BypassedCell(s: State, z: State, c: nat, k: nat, i: nat)
    requires ListOk(s) && k < |s.list| && s.list[k] == c && Bypassed(s, z, c) && i < |s.list| && i != k
    ensures Cb(z, s.list[i]).next == (if i + 1 == k then NextIn(s.list, k) else NextIn(s.list, i))
    ensures Cb(z, s.list[i]).prevNext == (if i == k + 1 then BeforeIn(s.list, k) else BeforeIn(s.list, i))
  {
    assert Cb(s, s.list[k]).next == NextIn(s.list, k) && Cb(s, s.list[k]).prevNext == BeforeIn(s.list, k);
    assert Cb(s, s.list[i]).next == NextIn(s.list, i) && Cb(s, s.list[i]).prevNext == BeforeIn(s.list, i);
    if i + 1 < k { assert s.list[i] != s.list[k - 1]; }
    if k < i && k > 0 { assert s.list[k - 1] != s.list[i]; }
  }

  lemma UnlinkedList(s: State, z: State, c: nat, k: nat)
    requires ListOk(s) && k < |s.list| && s.list[k] == c && z.list == s.list[..k] + s.list[k + 1..]
    requires OthersRelinked(s, z, c) && c !in z.list
    requires forall i: nat, j: nat :: i < j < |z.list| ==> z.list[i] != z.list[j]
    requires z.head == if k == 0 then NextIn(s.list, 0) else s.head
    requires forall i: nat :: i < |s.list| && i != k ==>
      && Cb(z, s.list[i]).next == (if i + 1 == k then NextIn(s.list, k) else NextIn(s.list, i))
      && Cb(z, s.list[i]).prevNext == (if i == k + 1 then BeforeIn(s.list, k) else BeforeIn(s.list, i))
    ensures ListOk(z)
  {
    hide NextIn, BeforeIn;
    RestFirst(s.list, z.list, k);
    forall i: nat | i < |z.list|
      ensures z.list[i] in z.callbacks && Cb(z, z.list[i]).next == NextIn(z.list, i)
              && Cb(z, z.list[i]).prevNext == BeforeIn(z.list, i)
    {
      var j := if i < k then i else i + 1;
      RestNeighbours(s.list, z.list, k, i, j);
      assert s.list[j] in s.callbacks;
    }
  }

  lemma RestFirst(list: seq<nat>, rest: seq<nat>, k: nat)
    requires k < |list| && rest == list[..k] + list[k + 1..]
    ensures (if rest == [] then None else Some(rest[0])) == if k == 0 then NextIn(list, 0) else Some(list[0])
  {}

  lemma RestNeighbours(list: seq<nat>, rest: seq<nat>, k: nat, i: nat, j: nat)
    requires k < |list| && rest == list[..k] + list[k + 1..] && i < |rest| && j == if i < k then i else i + 1
    ensures rest[i] == list[j] && j != k
    ensures NextIn(rest, i) == if j + 1 == k then NextIn(list, k) else NextIn(list, j)
    ensures BeforeIn(rest, i) == if j == k + 1 then BeforeIn(list, k) else BeforeIn(list, j)
  {}

  // ----- a callback destroyed on the signalling thread -----

  /** On the signalling thread, the pointer to the flag is set exactly while the callback is being
      invoked, and then it points into the call that invokes it. */
  lemma SelfFlag(s: State, t: nat, c: nat)
    requires Shape(s) && AtRemove(s, t, RemCheck) && s.signallingThread == Some(t) && c == TopCallback(s, t)
    ensures s.touching == Some(c) <==> Cb(s, c).flagAt.Some?
    ensures s.touching == Some(c) ==>
      && s.signal.Active? && s.signal.t == t && Cb(s, c).flagAt == Some(s.signal.i) && s.signal.i < Depth(s, t)
      && Cb(s, c).runs == 1
      && var f := Stack(s, t)[s.signal.i];
         f.Requesting? && f.requestAt.Invoking? && f.requestAt.c == c && !f.requestAt.destroyed
  {
    hide FramesOk, CallbacksOk, PinsOk, ListOk;
    FrameAt(s, t);
    CallbackAt(s, c);
    if s.signal.Active? { FrameAtIndex(s, s.signal.t, s.signal.i); }
  }

  lemma FrameAtIndex(s: State, t: nat, i: nat)
    requires FramesOk(s) && i < |Stack(s, t)|
    ensures FrameOk(s, t, i, Stack(s, t)[i])
  {}

  lemma RemSelfKeeps(s: State, t: nat)
    requires Shape(s) && AtRemove(s, t, RemCheck) && s.signallingThread == Some(t)
    ensures Shape(ApplyRemSelf(s, t))
  {
    hide FramesOk, CallbacksOk, PinsOk, ListOk, SignalOk;
    var z, c := ApplyRemSelf(s, t), TopCallback(s, t);
    FrameAt(s, t);
    CallbackAt(s, c);
    SelfFlag(s, t, c);
    if Cb(s, c).flagAt.None? {
      OwnerMoves(s, z, t);
    } else {
      FlagKeeps(s, z, t, c);
    }
  }

  /** The stack with the flag set in the invoking call and the destructor one step on. */
  ghost predicate Flagged(s: State, z: State, t: nat, c: nat, j: nat) {
    && j + 1 < |Stack(s, t)| && |Stack(z, t)| == |Stack(s, t)|
    && Stack(s, t)[j].Requesting? && Stack(s, t)[j].requestAt.Invoking? && Stack(s, t)[j].requestAt.c == c
    && Stack(z, t)[j] == Stack(s, t)[j].(requestAt := Stack(s, t)[j].requestAt.(destroyed := true))
    && AtRemove(s, t, RemCheck) && AtRemove(z, t, RemDrop) && TopCallback(s, t) == c == TopCallback(z, t)
    && (forall i: nat :: i < Depth(s, t) && i != j ==> Stack(z, t)[i] == Stack(s, t)[i])
    && (forall t2: nat :: t2 != t ==> Stack(z, t2) == Stack(s, t2))
    && z == s.(stacks := z.stacks, touching := None, callbacks := s.callbacks[c := Cb(s, c).(fate := Inside)])
  }

  lemma FlagKeeps(s: State, z: State, t: nat, c: nat)
    requires Shape(s) && AtRemove(s, t, RemCheck) && s.signallingThread == Some(t) && c == TopCallback(s, t)
    requires Cb(s, c).flagAt.Some? && z == ApplyRemSelf(s, t)
    ensures Shape(z)
  {
    hide FramesOk, CallbacksOk, PinsOk, ListOk, SignalOk, FrameOk, CallbackOk;
    SelfFlag(s, t, c);
    var j := s.signal.i;
    assert Flagged(s, z, t, c, j);
    FlagFrames(s, z, t, c, j);
    FlagCallbacks(s, z, t, c, j);
    FlagLinks(s, z, t, c, j);
  }

  lemma FlagFrames(s: State, z: State, t: nat, c: nat, j: nat)
    requires Shape(s) && Flagged(s, z, t, c, j) && s.signal == Active(t, j) && s.touching == Some(c)
    ensures FramesOk(z)
  {
    hide FramesOk, CallbacksOk, PinsOk, ListOk, SignalOk, FrameOk, CallbackOk, Flagged;
    forall t2: nat, i2: nat | i2 < |Stack(z, t2)| ensures FrameOk(z, t2, i2, Stack(z, t2)[i2]) {
      FlagFrame(s, z, t, c, j, t2, i2);
    }
    assert FramesOk(z) by { FramesDefinition(z); }
  }

  lemma FramesDefinition(z: State)
    requires forall t: nat, i: nat :: i < |Stack(z, t)| ==> FrameOk(z, t, i, Stack(z, t)[i])
    ensures FramesOk(z)
  {}

  lemma FlagFrame(s: State, z: State, t: nat, c: nat, j: nat, t2: nat, i2: nat)
    requires FramesOk(s) && Flagged(s, z, t, c, j) && s.signal == Active(t, j) && s.touching == Some(c)
    requires i2 < |Stack(z, t2)|
    ensures FrameOk(z, t2, i2, Stack(z, t2)[i2])
  {
    hide FramesOk;
    FrameAtIndex(s, t, Depth(s, t));
    FrameAtIndex(s, t, j);
    FrameAtIndex(s, t2, i2);
  }

  lemma FlagCallbacks(s: State, z: State, t: nat, c: nat, j: nat)
    requires Shape(s) && Flagged(s, z, t, c, j) && s.touching == Some(c) && Cb(s, c).runs == 1
    ensures CallbacksOk(z)
  {
    hide FramesOk, PinsOk, ListOk, SignalOk, CallbacksOk;
    FrameAt(s, t);
    CallbackAt(s, c);
    assert CallbackOk(z, c);
    FlagOthers(s, z, t, c, j);
    CallbacksKeep(s, z, t, Depth(s, t), Some(c));
  }

  lemma FlagOthers(s: State, z: State, t: nat, c: nat, j: nat)
    requires CallbacksOk(s) && Flagged(s, z, t, c, j) && s.touching == Some(c) && CallbackOk(z, c) && c in s.callbacks
    ensures OwnCallback(s, z, t, Depth(s, t), Some(c)) && ActsLoosely(s, z, t, Depth(s, t))
  {
    hide CallbackOk;
  }

  lemma FlagLinks(s: State, z: State, t: nat, c: nat, j: nat)
    requires Shape(s) && Flagged(s, z, t, c, j) && s.signal == Active(t, j)
    ensures PinsOk(z) && ListOk(z) && SignalOk(z)
  {
    hide FramesOk, CallbacksOk, FrameOk, CallbackOk, PinsOk, ListOk, SignalOk, Flagged;
    FlagTops(s, z, t, c, j);
    FrameAt(s, t);
    FrameCallbackExists(s, t);
    FlagShape(s, z, t, c, j);
    PinsKeep(s, z, t, Depth(s, t));
    LinksKeep(s, z);
    FlagSignal(s, z, t, c, j);
  }

  lemma FrameCallbackExists(s: State, t: nat)
    requires Stack(s, t) != [] && Top(s, t).Removing? && FrameOk(s, t, Depth(s, t), Top(s, t))
    ensures Top(s, t).c in s.callbacks && (s.holder == Some(t) <==> HoldsLock(Top(s, t)))
  {}

  lemma FlagTops(s: State, z: State, t: nat, c: nat, j: nat)
    requires Flagged(s, z, t, c, j)
    ensures Stack(s, t) != [] && Top(s, t).Removing? && Top(s, t).c == c && !HoldsLock(Top(s, t))
  {}

  lemma FlagShape(s: State, z: State, t: nat, c: nat, j: nat)
    requires Flagged(s, z, t, c, j) && c in s.callbacks
    ensures ActsLoosely(s, z, t, Depth(s, t)) && SamePin(s, z, t, Depth(s, t)) && SameLinks(s, z)
  {}

  lemma FlagSignal(s: State, z: State, t: nat, c: nat, j: nat)
    requires SignalOk(s) && Flagged(s, z, t, c, j) && s.signal == Active(t, j)
    requires s.holder != Some(t)
    ensures SignalOk(z)
  {}

  // ----- the word, step by step -----

  lemma UnlockedWord(s: State, z: State, unlock: bool, dt: nat)
    requires WordOk(s) && z.sources == s.sources && (unlock ==> s.holder.Some?)
    requires z.holder == (if unlock then None else s.holder) && (z.signal.Quiet? <==> s.signal.Quiet?)
    requires dt <= 1 && |z.tokens| == |s.tokens| - dt
    requires z.word == FetchSub(s.word, (if unlock then LOCKED_FLAG else 0) + TOKEN_INCREMENT * dt)
    requires dt == 0 ==> z.deletions == s.deletions
    requires dt == 1 ==> z.deletions == Deleted(s, (if unlock then LOCKED_FLAG else 0) + 2 * TOKEN_INCREMENT)
    ensures WordOk(z)
  {
    hide Pack, FetchSub;
    SubtractFields(!s.signal.Quiet?, s.holder.Some?, unlock, |s.tokens|, |s.sources|, dt, 0);
  }

  lemma LockedWord(s: State, z: State, cancel: bool)
    requires WordOk(s) && z.tokens == s.tokens && z.sources == s.sources && z.deletions == s.deletions
    requires z.holder.Some? && (z.signal.Quiet? <==> s.signal.Quiet? && !cancel)
    requires z.word == if cancel then OrCancelled(OrLocked(s.word)) else OrLocked(s.word)
    ensures WordOk(z)
  {
    hide Pack, OrLocked, OrCancelled;
    SetFields(!s.signal.Quiet?, s.holder.Some?, |s.tokens|, |s.sources|);
    SetFields(!s.signal.Quiet?, true, |s.tokens|, |s.sources|);
  }

  lemma SameWord(s: State, z: State)
    requires WordOk(s) && z.tokens == s.tokens && z.sources == s.sources && z.deletions == s.deletions
    requires z.word == s.word && z.holder == s.holder && (z.signal.Quiet? <==> s.signal.Quiet?)
    ensures WordOk(z)
  {}

  lemma AddKeepsWord(s: State, t: nat, e: AddEvent)
    requires Inv(s) && EnabledAdd(s, t, e)
    ensures WordOk(ApplyAdd(s, t, e))
  {
    hide FramesOk, CallbacksOk, PinsOk, ListOk, SignalOk, WordOk, FetchSub, OrLocked, IsCancelled, IsLocked, CanBeCancelled;
    var z := ApplyAdd(s, t, e);
    match e
    case AddLock => LockedWord(s, z, false);
    case AddUnlock =>
      FrameAt(s, t);
      CallbackAt(s, TopCallback(s, t));
      if Top(s, t).copy { AddedWord(s, z); } else { UnlockedWord(s, z, true, 0); }
    case _ => SameWord(s, z);
  }

  /** unlockAndIncrementTokenCount: one subtraction of a negative amount does both. */
  lemma AddedWord(s: State, z: State)
    requires WordOk(s) && s.holder.Some? && z.holder.None? && z.sources == s.sources && z.deletions == s.deletions
    requires (z.signal.Quiet? <==> s.signal.Quiet?) && |z.tokens| == |s.tokens| + 1 < TWO31 && s.tokens != {}
    requires z.word == FetchSub(s.word, LOCKED_FLAG - TOKEN_INCREMENT)
    ensures WordOk(z)
  {
    hide Pack, FetchSub;
    AddFields(!s.signal.Quiet?, true, true, |s.tokens|, |s.sources|, 1, 0);
  }

  lemma RemoveKeepsWord(s: State, t: nat, e: RemoveEvent)
    requires Inv(s) && EnabledRemove(s, t, e)
    ensures WordOk(ApplyRemove(s, t, e))
  {
    hide FramesOk, CallbacksOk, PinsOk, ListOk, SignalOk, WordOk, FetchSub, OrLocked, IsLocked;
    var z := ApplyRemove(s, t, e);
    match e
    case RemAcquire => LockedWord(s, z, false);
    case RemUnlockDrop => FrameAt(s, t); UnlockedWord(s, z, true, 1);
    case RemRelease => FrameAt(s, t); UnlockedWord(s, z, true, 0);
    case RemDropRef => FrameAt(s, t); UnlockedWord(s, z, false, 1);
    case _ => SameWord(s, z);
  }

  lemma RequestKeepsWord(s: State, t: nat, e: RequestEvent)
    requires Inv(s) && EnabledRequest(s, t, e)
    ensures WordOk(ApplyRequest(s, t, e))
  {
    hide FramesOk, CallbacksOk, PinsOk, ListOk, SignalOk, WordOk, FetchSub, OrLocked, OrCancelled, IsLocked, IsCancelled;
    var z := ApplyRequest(s, t, e);
    match e
    case ReqCancel => LockedWord(s, z, true);
    case ReqRelock => LockedWord(s, z, false);
    case ReqUnlock => FrameAt(s, t); UnlockedWord(s, z, true, 0);
    case ReqLast => FrameAt(s, t); UnlockedWord(s, z, true, 0);
    case ReqReturn => FrameAt(s, t); SameWord(s, z);
    case ReqComplete => FrameAt(s, t); SameWord(s, z);
    case _ => SameWord(s, z);
  }

  // ----- every step -----

  lemma AddKeeps(s: State, t: nat, e: AddEvent)
    requires Inv(s) && EnabledAdd(s, t, e)
    ensures Shape(ApplyAdd(s, t, e))
  {
    hide Shape, WordOk, IsCancelled, IsLocked, CanBeCancelled;
    WordMeans(s);
    match e
    case StartAdd(c, h, copy) => StartAddKeeps(s, t, c, h, copy);
    case AddInline => AddInlineKeeps(s, t);
    case AddInlineDone => AddInlineDoneKeeps(s, t);
    case AddGiveUp => AddGiveUpKeeps(s, t);
    case AddLock => AddLockKeeps(s, t);
    case AddLink => AddLinkKeeps(s, t);
    case AddUnlock => AddUnlockKeeps(s, t);
  }

  lemma RemoveKeeps(s: State, t: nat, e: RemoveEvent)
    requires Inv(s) && EnabledRemove(s, t, e)
    ensures Shape(ApplyRemove(s, t, e))
  {
    hide Shape, WordOk, IsLocked;
    WordMeans(s);
    match e
    case StartRemove(c) => StartRemoveKeeps(s, t, c);
    case RemAcquire => RemAcquireKeeps(s, t);
    case RemUnlink => RemUnlinkKeeps(s, t);
    case RemUnlockDrop => RemUnlockDropKeeps(s, t);
    case RemFound => RemFoundKeeps(s, t);
    case RemRelease => RemReleaseKeeps(s, t);
    case RemSelf => RemSelfKeeps(s, t);
    case RemOther => RemOtherKeeps(s, t);
    case RemWaited => RemWaitedKeeps(s, t);
    case RemDropRef => RemDropRefKeeps(s, t);
  }

  lemma RequestKeeps(s: State, t: nat, e: RequestEvent)
    requires Inv(s) && EnabledRequest(s, t, e)
    ensures Shape(ApplyRequest(s, t, e))
  {
    hide Shape, WordOk, IsCancelled, IsLocked;
    WordMeans(s);
    match e
    case StartRequest(h) => StartRequestKeeps(s, t, h);
    case ReqAlready => ReqAlreadyKeeps(s, t);
    case ReqCancel => ReqCancelKeeps(s, t);
    case ReqSetId => ReqSetIdKeeps(s, t);
    case ReqPop => ReqPopKeeps(s, t);
    case ReqEmpty => ReqEmptyKeeps(s, t);
    case ReqUnlock => ReqUnlockKeeps(s, t);
    case ReqSetFlag => ReqSetFlagKeeps(s, t);
    case ReqInvoke => ReqInvokeKeeps(s, t);
    case ReqReturn => ReqReturnKeeps(s, t);
    case ReqClearFlag => ReqClearFlagKeeps(s, t);
    case ReqComplete => ReqCompleteKeeps(s, t);
    case ReqRelock => ReqRelockKeeps(s, t);
    case ReqLast => ReqLastKeeps(s, t);
  }

  lemma StepInv(s: State, e: Event)
    requires Inv(s) && Enabled(s, e)
    ensures Inv(Apply(s, e))
  {
    hide Shape, WordOk, EnabledRef, EnabledAdd, EnabledRemove, EnabledRequest, ApplyAdd, ApplyRemove, ApplyRequest, ApplyRef;
    match e
    case Ref(r) => RefKeepsShape(s, r); RefKeepsWord(s, r);
    case Add(t, a) => AddKeeps(s, t, a); AddKeepsWord(s, t, a);
    case Remove(t, m) => RemoveKeeps(s, t, m); RemoveKeepsWord(s, t, m);
    case Request(t, q) => RequestKeeps(s, t, q); RequestKeepsWord(s, t, q);
    case DestroyUnregistered(c) =>
      DestroyUnregisteredKeeps(s, c);
      SameWord(s, ApplyDestroyUnregistered(s, c));
  }
}
