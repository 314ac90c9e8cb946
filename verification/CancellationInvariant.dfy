/** What every reachable state of the cancellation protocol satisfies. */
module CancellationInvariant {
  import opened Words
  import opened Cancellation

  /** The callback a requestCancellation call may still dereference. */
  function TouchedBy(at: RequestAt): Option<nat> {
    match at
    case Popped(c, _) => Some(c)
    case SetFlag(c, _) => Some(c)
    case Call(c, _) => Some(c)
    case Invoking(c, _, destroyed) => if destroyed then None else Some(c)
    case ClearFlag(c, _) => Some(c)
    case Complete(c, _) => Some(c)
    case _ => None
  }

  function MoreOf(at: RequestAt): bool {
    match at
    case Popped(_, more) => more
    case SetFlag(_, more) => more
    case Call(_, more) => more
    case Invoking(_, more, _) => more
    case ClearFlag(_, more) => more
    case Complete(_, more) => more
    case Final => false
    case _ => true
  }

  /** The signalling thread has taken c off the list and not finished with it. */
  ghost predicate Working(s: State, c: nat, runs: nat) {
    c in s.callbacks && Cb(s, c).fate.Taken? && Cb(s, c).runs == runs && !Cb(s, c).completed
  }

  ghost predicate RequestOk(s: State, t: nat, i: nat, at: RequestAt) {
    && s.signal == Active(t, i) && s.touching == TouchedBy(at)
    && s.signallingThread == (if at.SetId? then None else Some(t))
    && (!MoreOf(at) ==> s.list == [])
    && match at
       case Popped(c, _) => Working(s, c, 0) && Cb(s, c).flagAt.None?
       case SetFlag(c, _) => Working(s, c, 0) && Cb(s, c).flagAt.None?
       case Call(c, _) => Working(s, c, 0) && Cb(s, c).flagAt == Some(i)
       case Invoking(c, _, destroyed) =>
         if destroyed then Cb(s, c).fate.Inside? else Working(s, c, 1) && Cb(s, c).flagAt == Some(i)
       case ClearFlag(c, _) => Working(s, c, 1) && Cb(s, c).flagAt == Some(i)
       case Complete(c, _) => Working(s, c, 1) && Cb(s, c).flagAt.None?
       case _ => true
  }

  ghost predicate AddingOk(s: State, t: nat, i: nat, c: nat, h: nat, at: AddAt) {
    && Handle(h) in s.tokens && c in s.callbacks
    && Cb(s, c).status == Constructing(t, i)
    && match at
       case TryAdd => Cb(s, c).fate.Fresh?
       case InvokeInline => Cb(s, c).fate.Inline?
       case AddLocked => Cb(s, c).fate.Fresh? && s.signal.Quiet?
       case AddLinked => Cb(s, c).fate.Linked? && s.signal.Quiet?
  }

  ghost predicate RemovingOk(s: State, t: nat, i: nat, c: nat, at: RemoveAt) {
    && Registered(c) in s.tokens && c in s.callbacks
    && Cb(s, c).status == Destroying(t, i)
    && match at
       case RemLock => Cb(s, c).fate.Linked? || Cb(s, c).fate.Taken?
       case RemLocked => Cb(s, c).fate.Linked? || Cb(s, c).fate.Taken?
       case RemUnlinked => Cb(s, c).fate.Unlinked?
       case RemUnlock => Cb(s, c).fate.Taken?
       case RemCheck => Cb(s, c).fate.Taken?
       case RemWait => Cb(s, c).fate.Taken?
       case RemDrop => (Cb(s, c).fate.Taken? || Cb(s, c).fate.Inside?) && s.touching != Some(c)
  }

  ghost predicate FrameOk(s: State, t: nat, i: nat, f: Frame) {
    && (i + 1 < |Stack(s, t)| ==> UserCode(f))
    && (HoldsLock(f) <==> s.holder == Some(t) && i + 1 == |Stack(s, t)|)
    && match f
       case Adding(c, h, _, at) => AddingOk(s, t, i, c, h, at)
       case Removing(c, at) => RemovingOk(s, t, i, c, at)
       case Requesting(h, at) => h in s.sources && (!at.TryCancel? ==> RequestOk(s, t, i, at))
  }

  ghost predicate FramesOk(s: State) {
    forall t: nat, i: nat :: i < |Stack(s, t)| ==> FrameOk(s, t, i, Stack(s, t)[i])
  }

  predicate MovesToken(f: Frame, g: Frame) {
    f.Adding? && !f.copy && PinsToken(g, f.token)
  }

  /** A token that a constructor will keep is pinned by that constructor only. */
  ghost predicate PinsOk(s: State) {
    forall t: nat, i: nat, t2: nat, i2: nat ::
      i < |Stack(s, t)| && i2 < |Stack(s, t2)| && MovesToken(Stack(s, t)[i], Stack(s, t2)[i2]) ==> t == t2 && i == i2
  }

  ghost predicate StatusOk(s: State, c: nat, k: Callback) {
    match k.status
    case Constructing(t, i) => i < |Stack(s, t)| && Stack(s, t)[i].Adding? && Stack(s, t)[i].c == c && !k.registered
    case Destroying(t, i) => i < |Stack(s, t)| && Stack(s, t)[i].Removing? && Stack(s, t)[i].c == c && k.registered
    case Alive => true
    case Dead => s.touching != Some(c)
  }

  ghost predicate FateOk(s: State, c: nat, k: Callback) {
    match k.fate
    case Fresh => k.status.Constructing? && k.runs == 0 && k.flagAt.None? && !k.completed && k.prevNext.Null?
    case Inline => !k.registered && k.runs == 1
    case Skipped =>
      !k.registered && !k.status.Constructing? && k.runs == 0 && s.sources == {} && s.signal.Quiet?
    case Linked => (k.status.Constructing? || k.registered) && !k.status.Dead? && k.runs == 0 && k.flagAt.None? && !k.completed
    case Unlinked => k.registered && !k.status.Alive? && k.runs == 0
    case Inside => k.registered && !k.status.Alive? && k.runs == 1 && s.touching != Some(c)
    case Taken =>
      && k.registered && k.runs <= 1 && k.prevNext.Null? && s.signallingThread.Some?
      && (k.completed <==> s.touching != Some(c))
      && (s.touching != Some(c) ==> k.runs == 1 && k.flagAt.None?)
  }

  ghost predicate CallbackOk(s: State, c: nat) {
    var k := Cb(s, c);
    && StatusOk(s, c, k) && FateOk(s, c, k)
    && (k.fate.Linked? <==> c in s.list) && (s.touching == Some(c) ==> k.fate.Taken?)
    && (Registered(c) in s.tokens <==> k.registered && !k.status.Dead?)
  }

  ghost predicate CallbacksOk(s: State) {
    && (forall c: nat :: c in s.callbacks ==> CallbackOk(s, c))
    && (forall c: nat :: Registered(c) in s.tokens ==> c in s.callbacks)
  }

  function NextIn(list: seq<nat>, k: nat): Option<nat> {
    if k + 1 < |list| then Some(list[k + 1]) else None
  }

  function BeforeIn(list: seq<nat>, k: nat): Location
    requires k <= |list|
  {
    if k == 0 then HeadField else NextField(list[k - 1])
  }

  /** The pointers form the doubly linked list. */
  ghost predicate ListOk(s: State) {
    && s.head == (if s.list == [] then None else Some(s.list[0]))
    && (forall i: nat, j: nat :: i < j < |s.list| ==> s.list[i] != s.list[j])
    && (forall k: nat :: k < |s.list| ==>
          && s.list[k] in s.callbacks
          && Cb(s, s.list[k]).next == NextIn(s.list, k) && Cb(s, s.list[k]).prevNext == BeforeIn(s.list, k))
  }

  ghost predicate SignalOk(s: State) {
    && (s.holder.Some? ==> Stack(s, s.holder.value) != [] && HoldsLock(Top(s, s.holder.value)))
    && match s.signal
       case Quiet => s.signallingThread.None? && s.touching.None?
       case Active(t, i) =>
         i < |Stack(s, t)| && Stack(s, t)[i].Requesting? && !Stack(s, t)[i].requestAt.TryCancel?
       case Finished => s.list == [] && s.touching.None? && s.signallingThread.Some?
  }

  ghost predicate WordOk(s: State) {
    && |s.tokens| < TWO31 && |s.sources| < TWO31
    && s.word == Pack(!s.signal.Quiet?, s.holder.Some?, |s.tokens|, |s.sources|)
    && s.deletions == (if s.tokens == {} && s.sources == {} then 1 else 0)
  }

  ghost predicate Shape(s: State) {
    FramesOk(s) && PinsOk(s) && CallbacksOk(s) && ListOk(s) && SignalOk(s)
  }

  ghost predicate Inv(s: State) {
    Shape(s) && WordOk(s)
  }

  lemma InitInv()
    ensures Inv(Init())
  {
    PackFields(false, false, 0, 1);
  }

  // ----- the word -----

  /** The tests on the word read the fields they are meant to. */
  lemma WordMeans(s: State)
    requires WordOk(s)
    ensures IsCancelled(s.word) <==> !s.signal.Quiet?
    ensures IsLocked(s.word) <==> s.holder.Some?
    ensures CanBeCancelled(s.word) <==> s.sources != {} || !s.signal.Quiet?
  {
    PackFields(!s.signal.Quiet?, s.holder.Some?, |s.tokens|, |s.sources|);
  }

  /** A subtraction changes its own field and no other, and tells whether it was the last. */
  lemma SubtractFields(cancelled: bool, locked: bool, unlock: bool, tokens: int, sources: int, dt: int, ds: int)
    requires 0 <= dt <= tokens < TWO31 && 0 <= ds <= sources < TWO31 && (unlock ==> locked)
    ensures FetchSub(Pack(cancelled, locked, tokens, sources),
                     (if unlock then LOCKED_FLAG else 0) + TOKEN_INCREMENT * dt + SOURCE_INCREMENT * ds)
         == Pack(cancelled, locked && !unlock, tokens - dt, sources - ds)
    ensures dt == 1 && ds == 0 ==>
      (Pack(cancelled, locked, tokens, sources) < 2 * TOKEN_INCREMENT <==> tokens == 1 && sources == 0)
    ensures dt == 1 && ds == 0 && unlock ==>
      (Pack(cancelled, locked, tokens, sources) < LOCKED_FLAG + 2 * TOKEN_INCREMENT <==> tokens == 1 && sources == 0)
    ensures ds == 1 && dt == 0 ==>
      (Pack(cancelled, locked, tokens, sources) < SOURCE_INCREMENT + TOKEN_INCREMENT <==> tokens == 0 && sources == 1)
  {}

  lemma AddFields(cancelled: bool, locked: bool, unlock: bool, tokens: int, sources: int, dt: int, ds: int)
    requires 0 <= dt && 0 <= tokens && tokens + dt < TWO31 && 0 <= ds && 0 <= sources && sources + ds < TWO31
    requires unlock ==> locked
    ensures FetchSub(Pack(cancelled, locked, tokens, sources),
                     (if unlock then LOCKED_FLAG else 0) - TOKEN_INCREMENT * dt - SOURCE_INCREMENT * ds)
         == FetchAdd(Pack(cancelled, locked, tokens, sources),
                     TOKEN_INCREMENT * dt + SOURCE_INCREMENT * ds - (if unlock then LOCKED_FLAG else 0))
         == Pack(cancelled, locked && !unlock, tokens + dt, sources + ds)
  {}

  lemma SetFields(cancelled: bool, locked: bool, tokens: int, sources: int)
    requires 0 <= tokens < TWO31 && 0 <= sources < TWO31
    ensures OrLocked(Pack(cancelled, locked, tokens, sources)) == Pack(cancelled, true, tokens, sources)
    ensures OrCancelled(Pack(cancelled, locked, tokens, sources)) == Pack(true, locked, tokens, sources)
  {
    PackFields(cancelled, locked, tokens, sources);
  }

  // ----- references -----

  lemma RefKeepsWord(s: State, e: RefEvent)
    requires WordOk(s) && EnabledRef(s, e)
    ensures WordOk(ApplyRef(s, e))
  {
    hide WordOk, ApplyRef, EnabledRef;
    match e
    case CopyToken(h) => CopyTokenWord(s, h);
    case DropToken(h) => DropTokenWord(s, h);
    case CopySource(h) => CopySourceWord(s, h);
    case DropSource(h) => DropSourceWord(s, h);
  }

  lemma CopyTokenWord(s: State, h: nat)
    requires WordOk(s) && EnabledRef(s, CopyToken(h))
    ensures WordOk(ApplyRef(s, CopyToken(h)))
  {
    hide Pack, FetchAdd, FetchSub;
    AddFields(!s.signal.Quiet?, s.holder.Some?, false, |s.tokens|, |s.sources|, 1, 0);
    assert |s.tokens + {Handle(h)}| == |s.tokens| + 1;
  }

  lemma DropTokenWord(s: State, h: nat)
    requires WordOk(s) && EnabledRef(s, DropToken(h))
    ensures WordOk(ApplyRef(s, DropToken(h)))
  {
    hide Pack, FetchAdd, FetchSub, TokenFree;
    SubtractFields(!s.signal.Quiet?, s.holder.Some?, false, |s.tokens|, |s.sources|, 1, 0);
    OneLess(s.tokens, Handle(h));
  }

  lemma CopySourceWord(s: State, h: nat)
    requires WordOk(s) && EnabledRef(s, CopySource(h))
    ensures WordOk(ApplyRef(s, CopySource(h)))
  {
    hide Pack, FetchAdd, FetchSub;
    AddFields(!s.signal.Quiet?, s.holder.Some?, false, |s.tokens|, |s.sources|, 0, 1);
    assert |s.sources + {h}| == |s.sources| + 1;
  }

  lemma DropSourceWord(s: State, h: nat)
    requires WordOk(s) && EnabledRef(s, DropSource(h))
    ensures WordOk(ApplyRef(s, DropSource(h)))
  {
    hide Pack, FetchAdd, FetchSub, SourceFree;
    SubtractFields(!s.signal.Quiet?, s.holder.Some?, false, |s.tokens|, |s.sources|, 0, 1);
    OneLess(s.sources, h);
  }

  lemma OneLess<T>(a: set<T>, x: T)
    requires x in a
    ensures |a - {x}| == |a| - 1 && (a - {x} == {} <==> |a| == 1)
  {
    if |a| == 1 {
      assert |a - {x}| == 0;
    }
  }

  // ----- what a step leaves alone -----

  /** Only frame i of thread t differs: it is replaced, pushed or popped. */
  ghost predicate Acts(s: State, z: State, t: nat, i: nat) {
    && (forall t2: nat :: t2 != t ==> Stack(z, t2) == Stack(s, t2))
    && i <= |Stack(s, t)| <= i + 1 && i <= |Stack(z, t)| <= i + 1
    && Stack(z, t)[..i] == Stack(s, t)[..i]
  }

  /** The same, but a flag may also have been set in a requestCancellation call further down. */
  ghost predicate ActsLoosely(s: State, z: State, t: nat, i: nat) {
    && (forall t2: nat :: t2 != t ==> Stack(z, t2) == Stack(s, t2))
    && i <= |Stack(s, t)| <= i + 1 && i <= |Stack(z, t)| <= i + 1
    && (forall j: nat :: j < i ==>
          if Stack(s, t)[j].Requesting? then Stack(z, t)[j].Requesting? else Stack(z, t)[j] == Stack(s, t)[j])
  }

  lemma ActsIsLoose(s: State, z: State, t: nat, i: nat)
    requires Acts(s, z, t, i)
    ensures ActsLoosely(s, z, t, i)
  {
    assert forall j: nat :: j < i ==> Stack(z, t)[..i][j] == Stack(s, t)[..i][j];
  }

  /** Everything another call relies on is as before. */
  ghost predicate Unaffected(s: State, z: State, f: Frame) {
    match f
    case Adding(c, h, _, at) =>
      && Handle(h) in z.tokens && c in z.callbacks
      && Cb(z, c).status == Cb(s, c).status && Cb(z, c).fate == Cb(s, c).fate
      && (at.AddLocked? || at.AddLinked? ==> z.signal == s.signal)
    case Removing(c, at) =>
      && Registered(c) in z.tokens && c in z.callbacks && Cb(z, c).status == Cb(s, c).status
      && (Cb(z, c).fate == Cb(s, c).fate || (at.RemLock? && Cb(z, c).fate.Taken?))
      && (at.RemDrop? ==> z.touching != Some(c))
    case Requesting(h, at) =>
      && h in z.sources
      && (!at.TryCancel? ==>
            && z.signal == s.signal && z.touching == s.touching && z.signallingThread == s.signallingThread
            && (s.list == [] ==> z.list == []))
      && (at.Invoking? ==> Cb(z, at.c).fate == Cb(s, at.c).fate)
      && (TouchedBy(at).Some? ==>
            var c := TouchedBy(at).value;
            && c in z.callbacks && Cb(z, c).fate == Cb(s, c).fate && Cb(z, c).runs == Cb(s, c).runs
            && Cb(z, c).flagAt == Cb(s, c).flagAt && Cb(z, c).completed == Cb(s, c).completed)
  }

  lemma KeepFrame(s: State, z: State, t: nat, i: nat, f: Frame)
    requires FrameOk(s, t, i, f) && Unaffected(s, z, f)
    requires i + 1 < |Stack(z, t)| ==> UserCode(f)
    requires HoldsLock(f) <==> z.holder == Some(t) && i + 1 == |Stack(z, t)|
    ensures FrameOk(z, t, i, f)
  {}

  /** The lock is taken or released by thread t, or not at all. */
  ghost predicate LockMoves(s: State, z: State, t: nat) {
    z.holder == s.holder || ((s.holder.None? || s.holder == Some(t)) && (z.holder.None? || z.holder == Some(t)))
  }

  lemma FramesKeep(s: State, z: State, t: nat, i: nat)
    requires FramesOk(s) && Acts(s, z, t, i) && LockMoves(s, z, t)
    requires i + 1 == |Stack(z, t)| ==> FrameOk(z, t, i, Stack(z, t)[i])
    requires i == |Stack(z, t)| ==> z.holder != Some(t)
    requires i == |Stack(s, t)| && i > 0 ==> UserCode(Stack(s, t)[i - 1])
    requires forall t2: nat, i2: nat :: i2 < |Stack(s, t2)| && !(t2 == t && i2 == i) ==> Unaffected(s, z, Stack(s, t2)[i2])
    ensures FramesOk(z)
  {
    hide FrameOk, Unaffected;
    forall t2: nat, i2: nat | i2 < |Stack(z, t2)| ensures FrameOk(z, t2, i2, Stack(z, t2)[i2]) {
      if !(t2 == t && i2 == i) {
        assert Stack(z, t2)[i2] == Stack(s, t2)[i2];
        FrameLock(s, t2, i2, Stack(s, t2)[i2]);
        KeepFrame(s, z, t2, i2, Stack(s, t2)[i2]);
      }
    }
  }

  lemma FrameLock(s: State, t: nat, i: nat, f: Frame)
    requires FrameOk(s, t, i, f)
    ensures i + 1 < |Stack(s, t)| ==> UserCode(f)
    ensures HoldsLock(f) <==> s.holder == Some(t) && i + 1 == |Stack(s, t)|
    ensures UserCode(f) ==> !HoldsLock(f)
  {}

  /** Everything the condition on callback c reads is as before. */
  ghost predicate Unconcerned(s: State, z: State, c: nat) {
    && c in s.callbacks
    && Cb(z, c) == Cb(s, c).(next := Cb(z, c).next, prevNext := Cb(z, c).prevNext)
    && (Cb(z, c).prevNext == Cb(s, c).prevNext || Cb(s, c).fate.Linked?)
    && (c in z.list <==> c in s.list) && (Registered(c) in z.tokens <==> Registered(c) in s.tokens)
    && (z.touching == Some(c) <==> s.touching == Some(c))
    && (s.signallingThread.Some? ==> z.signallingThread.Some?)
    && (s.sources == {} && s.signal.Quiet? ==> z.sources == {} && z.signal.Quiet?)
  }

  lemma KeepCallback(s: State, z: State, c: nat, t: nat, i: nat)
    requires CallbackOk(s, c) && Unconcerned(s, z, c) && ActsLoosely(s, z, t, i)
    requires i < |Stack(s, t)| && !Stack(s, t)[i].Requesting? && Stack(s, t)[i].c == c ==>
               i < |Stack(z, t)| && !Stack(z, t)[i].Requesting? && Stack(z, t)[i].c == c
               && (Stack(z, t)[i].Adding? <==> Stack(s, t)[i].Adding?)
    ensures CallbackOk(z, c)
  {}

  /** The step's own callback, if it has one, is c0. */
  ghost predicate OwnCallback(s: State, z: State, t: nat, i: nat, c0: Option<nat>) {
    && (forall c: nat :: c in z.callbacks && c0 != Some(c) ==> Unconcerned(s, z, c))
    && (c0.Some? && c0.value in z.callbacks ==> CallbackOk(z, c0.value))
    && (i < |Stack(s, t)| && !Stack(s, t)[i].Requesting? && c0 != Some(Stack(s, t)[i].c) ==>
          && i < |Stack(z, t)| && !Stack(z, t)[i].Requesting? && Stack(z, t)[i].c == Stack(s, t)[i].c
          && (Stack(z, t)[i].Adding? <==> Stack(s, t)[i].Adding?))
    && (forall c: nat :: Registered(c) in z.tokens ==> c in z.callbacks)
  }

  lemma CallbacksKeep(s: State, z: State, t: nat, i: nat, c0: Option<nat>)
    requires CallbacksOk(s) && ActsLoosely(s, z, t, i) && OwnCallback(s, z, t, i, c0)
    ensures CallbacksOk(z)
  {
    hide CallbackOk;
    forall c: nat | c in z.callbacks ensures CallbackOk(z, c) {
      if c0 != Some(c) {
        KeepCallback(s, z, c, t, i);
      }
    }
  }

  /** The acting call keeps its token and its way of using it. */
  ghost predicate SamePin(s: State, z: State, t: nat, i: nat) {
    i < |Stack(z, t)| && Stack(z, t)[i].Adding? ==>
      && i < |Stack(s, t)| && Stack(s, t)[i].Adding?
      && Stack(s, t)[i].token == Stack(z, t)[i].token && Stack(s, t)[i].copy == Stack(z, t)[i].copy
  }

  lemma PinsKeep(s: State, z: State, t: nat, i: nat)
    requires PinsOk(s) && ActsLoosely(s, z, t, i) && SamePin(s, z, t, i)
    ensures PinsOk(z)
  {
    forall t1: nat, i1: nat, t2: nat, i2: nat
      | i1 < |Stack(z, t1)| && i2 < |Stack(z, t2)| && MovesToken(Stack(z, t1)[i1], Stack(z, t2)[i2])
      ensures t1 == t2 && i1 == i2
    {
      PinBefore(s, z, t, i, t1, i1);
      PinBefore(s, z, t, i, t2, i2);
      assert MovesToken(Stack(s, t1)[i1], Stack(s, t2)[i2]);
    }
  }

  lemma PinBefore(s: State, z: State, t: nat, i: nat, t1: nat, i1: nat)
    requires ActsLoosely(s, z, t, i) && SamePin(s, z, t, i) && i1 < |Stack(z, t1)| && Stack(z, t1)[i1].Adding?
    ensures i1 < |Stack(s, t1)| && Stack(s, t1)[i1].Adding?
    ensures Stack(s, t1)[i1].token == Stack(z, t1)[i1].token && Stack(s, t1)[i1].copy == Stack(z, t1)[i1].copy
  {}

  /** What remains to be shown of a step by frame i of thread t on callback c0. */
  lemma StepKeeps(s: State, z: State, t: nat, i: nat, c0: Option<nat>)
    requires Shape(s) && Acts(s, z, t, i) && LockMoves(s, z, t)
    requires i + 1 == |Stack(z, t)| ==> FrameOk(z, t, i, Stack(z, t)[i])
    requires i == |Stack(z, t)| ==> z.holder != Some(t)
    requires i == |Stack(s, t)| && i > 0 ==> UserCode(Stack(s, t)[i - 1])
    requires forall t2: nat, i2: nat :: i2 < |Stack(s, t2)| && !(t2 == t && i2 == i) ==> Unaffected(s, z, Stack(s, t2)[i2])
    requires OwnCallback(s, z, t, i, c0) && SamePin(s, z, t, i) && ListOk(z) && SignalOk(z)
    ensures Shape(z)
  {
    hide FrameOk, Unaffected, CallbackOk, OwnCallback, SamePin, FramesOk, CallbacksOk, PinsOk, ListOk, SignalOk, Acts;
    FramesKeep(s, z, t, i);
    ActsIsLoose(s, z, t, i);
    CallbacksKeep(s, z, t, i, c0);
    PinsKeep(s, z, t, i);
  }
}
