/** folly::detail::CancellationState as a transition system: one step per atomic operation or per
    group of plain accesses made under the lock, any number of threads, any interleaving.  A thread
    is a stack of calls, because a callback that is running may call into the same state again. */
module Cancellation {
  import opened Words

  datatype Option<T> = None | Some(value: T)

  /** What a callback's prevNext_ points to. */
  datatype Location = Null | HeadField | NextField(callback: nat)

  /** Lifetime of a callback object; while it is constructed or destroyed, by which call. */
  datatype Status = Constructing(t: nat, i: nat) | Alive | Destroying(t: nat, i: nat) | Dead

  /** History of a callback: not yet on the list; run by its constructor; not cancellable; on the
      list; taken off by the signalling thread; taken off by its destructor; destroyed from inside
      its own invocation. */
  datatype Fate = Fresh | Inline | Skipped | Linked | Taken | Unlinked | Inside

  /** next, prevNext, flagAt (destructorHasRunInsideCallback_, a stack position), completed and
      registered (state_ is set) are the object's fields; the rest is history. */
  datatype Callback = Callback(
    status: Status, fate: Fate, runs: nat,
    registered: bool, next: Option<nat>, prevNext: Location, flagAt: Option<nat>, completed: bool)

  datatype AddAt = TryAdd | InvokeInline | AddLocked | AddLinked

  datatype RemoveAt = RemLock | RemLocked | RemUnlinked | RemUnlock | RemCheck | RemWait | RemDrop

  datatype RequestAt =
    | TryCancel | SetId | Loop
    | Popped(c: nat, more: bool) | SetFlag(c: nat, more: bool) | Call(c: nat, more: bool)
    | Invoking(c: nat, more: bool, destroyed: bool)
    | ClearFlag(c: nat, more: bool) | Complete(c: nat, more: bool)
    | Relock | Final

  /** A call in progress: a constructor with its token (moved in unless `copy`), a destructor, or a
      requestCancellation through a source. */
  datatype Frame =
    | Adding(c: nat, token: nat, copy: bool, addAt: AddAt)
    | Removing(c: nat, removeAt: RemoveAt)
    | Requesting(source: nat, requestAt: RequestAt)

  datatype TokenRef = Handle(id: nat) | Registered(c: nat)

  datatype Signal = Quiet | Active(t: nat, i: nat) | Finished

  /** word, head, signallingThread, the callbacks and the stacks are the program's state; the rest is
      history: the live references, the list as a sequence, the lock holder, the signalling call, the
      callback it may still touch, and how often the state was deleted. */
  datatype State = State(
    word: int, head: Option<nat>, signallingThread: Option<nat>,
    callbacks: map<nat, Callback>, stacks: map<nat, seq<Frame>>,
    tokens: set<TokenRef>, sources: set<nat>,
    list: seq<nat>, holder: Option<nat>, signal: Signal, touching: Option<nat>, deletions: nat)

  const LOCKED_FLAG: int := 2
  const TOKEN_INCREMENT: int := 4
  const SOURCE_INCREMENT: int := 0x2_0000_0000

  // ----- the packed word -----

  function Bit(b: bool): int { if b then 1 else 0 }

  function Pack(cancelled: bool, locked: bool, tokens: int, sources: int): int {
    Bit(cancelled) + 2 * Bit(locked) + TOKEN_INCREMENT * tokens + SOURCE_INCREMENT * sources
  }

  predicate IsCancelled(word: int) { word % 2 == 1 }

  predicate IsLocked(word: int) { word / 2 % 2 == 1 }

  predicate CanBeCancelled(word: int) { word >= SOURCE_INCREMENT || IsCancelled(word) }

  function OrLocked(word: int): int { if IsLocked(word) then word else word + LOCKED_FLAG }

  function OrCancelled(word: int): int { if IsCancelled(word) then word else word + 1 }

  function FetchAdd(word: int, d: int): int { (word + d) % TWO64 }

  function FetchSub(word: int, d: int): int { (word - d) % TWO64 }

  /** The four fields never leak into each other. */
  lemma PackFields(cancelled: bool, locked: bool, tokens: int, sources: int)
    requires 0 <= tokens < TWO31 && 0 <= sources < TWO31
    ensures
      var word := Pack(cancelled, locked, tokens, sources);
      && 0 <= word < TWO64
      && (IsCancelled(word) <==> cancelled) && (IsLocked(word) <==> locked)
      && (CanBeCancelled(word) <==> sources > 0 || cancelled)
      && word / TOKEN_INCREMENT % TWO31 == tokens && word / SOURCE_INCREMENT == sources
  {}

  // ----- stacks -----

  function Stack(s: State, t: nat): seq<Frame> {
    if t in s.stacks then s.stacks[t] else []
  }

  function Top(s: State, t: nat): Frame
    requires Stack(s, t) != []
  {
    Stack(s, t)[|Stack(s, t)| - 1]
  }

  function Depth(s: State, t: nat): nat
    requires Stack(s, t) != []
  {
    |Stack(s, t)| - 1
  }

  function SetTop(s: State, t: nat, f: Frame): map<nat, seq<Frame>>
    requires Stack(s, t) != []
  {
    s.stacks[t := Stack(s, t)[Depth(s, t) := f]]
  }

  function Push(s: State, t: nat, f: Frame): map<nat, seq<Frame>> {
    s.stacks[t := Stack(s, t) + [f]]
  }

  function Pop(s: State, t: nat): map<nat, seq<Frame>>
    requires Stack(s, t) != []
  {
    s.stacks[t := Stack(s, t)[..Depth(s, t)]]
  }

  /** The call is inside a user callback. */
  predicate UserCode(f: Frame) {
    || (f.Adding? && f.addAt.InvokeInline?)
    || (f.Requesting? && f.requestAt.Invoking?)
  }

  predicate CanCall(s: State, t: nat) {
    Stack(s, t) == [] || UserCode(Top(s, t))
  }

  predicate HoldsLock(f: Frame) {
    match f
    case Adding(_, _, _, at) => at.AddLocked? || at.AddLinked?
    case Removing(_, at) => at.RemLocked? || at.RemUnlinked? || at.RemUnlock?
    case Requesting(_, at) => at.SetId? || at.Loop? || at.Popped? || at.Final?
  }

  // ----- steps -----

  datatype RefEvent = CopyToken(h: nat) | DropToken(h: nat) | CopySource(h: nat) | DropSource(h: nat)

  datatype AddEvent =
    | StartAdd(c: nat, h: nat, copy: bool) | AddInline | AddInlineDone | AddGiveUp | AddLock | AddLink | AddUnlock

  datatype RemoveEvent =
    | StartRemove(c: nat) | RemAcquire | RemUnlink | RemUnlockDrop | RemFound | RemRelease
    | RemSelf | RemOther | RemWaited | RemDropRef

  datatype RequestEvent =
    | StartRequest(h: nat) | ReqAlready | ReqCancel | ReqSetId | ReqPop | ReqEmpty | ReqUnlock | ReqSetFlag
    | ReqInvoke | ReqReturn | ReqClearFlag | ReqComplete | ReqRelock | ReqLast

  /** A step of a thread in one of the operations, of a user changing references, or of the
      destructor of a callback that was never registered. */
  datatype Event =
    | Ref(ref: RefEvent) | Add(t: nat, add: AddEvent) | Remove(t: nat, remove: RemoveEvent)
    | Request(t: nat, request: RequestEvent) | DestroyUnregistered(c: nat)

  predicate AtAdd(s: State, t: nat, at: AddAt) {
    Stack(s, t) != [] && Top(s, t).Adding? && Top(s, t).addAt == at
  }

  predicate AtRemove(s: State, t: nat, at: RemoveAt) {
    Stack(s, t) != [] && Top(s, t).Removing? && Top(s, t).removeAt == at
  }

  predicate AtRequest(s: State, t: nat) {
    Stack(s, t) != [] && Top(s, t).Requesting?
  }

  /** A call in progress that relies on the token or the source. */
  predicate PinsToken(f: Frame, h: nat) { f.Adding? && f.token == h }

  predicate PinsSource(f: Frame, h: nat) { f.Requesting? && f.source == h }

  ghost predicate TokenFree(s: State, h: nat) {
    forall t: nat, i: nat :: i < |Stack(s, t)| ==> !PinsToken(Stack(s, t)[i], h)
  }

  ghost predicate SourceFree(s: State, h: nat) {
    forall t: nat, i: nat :: i < |Stack(s, t)| ==> !PinsSource(Stack(s, t)[i], h)
  }

  /** No call has been given the token to keep. */
  ghost predicate TokenNotMoved(s: State, h: nat) {
    forall t: nat, i: nat :: i < |Stack(s, t)| && PinsToken(Stack(s, t)[i], h) ==> Stack(s, t)[i].copy
  }

  /** The callback of the call on top, where the code dereferences it. */
  function TopCallback(s: State, t: nat): nat
    requires Stack(s, t) != [] && (Top(s, t).Adding? || Top(s, t).Removing?)
  {
    Top(s, t).c
  }

  /** The fields of a callback; the default for a name never used is an object that is gone. */
  function Cb(s: State, c: nat): Callback {
    if c in s.callbacks then s.callbacks[c] else Callback(Dead, Fresh, 0, false, None, Null, None, false)
  }

  ghost predicate EnabledRef(s: State, e: RefEvent) {
    match e
    case CopyToken(h) =>
      && ((exists k: nat :: Handle(k) in s.tokens) || s.sources != {})
      && Handle(h) !in s.tokens && |s.tokens| + 1 < TWO31
    case DropToken(h) => Handle(h) in s.tokens && TokenFree(s, h)
    case CopySource(h) => s.sources != {} && h !in s.sources && |s.sources| + 1 < TWO31
    case DropSource(h) => h in s.sources && SourceFree(s, h)
  }

  ghost predicate EnabledAdd(s: State, t: nat, e: AddEvent) {
    match e
    case StartAdd(c, h, copy) =>
      && CanCall(s, t) && c !in s.callbacks && Handle(h) in s.tokens
      && TokenNotMoved(s, h) && (copy || TokenFree(s, h))
    case AddInline => AtAdd(s, t, TryAdd) && IsCancelled(s.word)
    case AddInlineDone => AtAdd(s, t, InvokeInline)
    case AddGiveUp => AtAdd(s, t, TryAdd) && !CanBeCancelled(s.word)
    case AddLock => AtAdd(s, t, TryAdd) && CanBeCancelled(s.word) && !IsCancelled(s.word) && !IsLocked(s.word)
    case AddLink => AtAdd(s, t, AddLocked)
    case AddUnlock => AtAdd(s, t, AddLinked) && |s.tokens| + 1 < TWO31
  }

  ghost predicate EnabledRemove(s: State, t: nat, e: RemoveEvent) {
    match e
    case StartRemove(c) => CanCall(s, t) && c in s.callbacks && Cb(s, c).status.Alive? && Cb(s, c).registered
    case RemAcquire => AtRemove(s, t, RemLock) && !IsLocked(s.word)
    case RemUnlink => AtRemove(s, t, RemLocked) && !Cb(s, TopCallback(s, t)).prevNext.Null?
    case RemUnlockDrop => AtRemove(s, t, RemUnlinked)
    case RemFound => AtRemove(s, t, RemLocked) && Cb(s, TopCallback(s, t)).prevNext.Null?
    case RemRelease => AtRemove(s, t, RemUnlock)
    case RemSelf => AtRemove(s, t, RemCheck) && s.signallingThread == Some(t)
    case RemOther => AtRemove(s, t, RemCheck) && s.signallingThread != Some(t)
    case RemWaited => AtRemove(s, t, RemWait) && Cb(s, TopCallback(s, t)).completed
    case RemDropRef => AtRemove(s, t, RemDrop)
  }

  ghost predicate EnabledRequest(s: State, t: nat, e: RequestEvent) {
    if e.StartRequest? then CanCall(s, t) && e.h in s.sources
    else
      && AtRequest(s, t)
      && var at := Top(s, t).requestAt;
         match e
         case ReqAlready => at.TryCancel? && IsCancelled(s.word)
         case ReqCancel => at.TryCancel? && !IsCancelled(s.word) && !IsLocked(s.word)
         case ReqSetId => at.SetId?
         case ReqPop => at.Loop? && s.head.Some?
         case ReqEmpty => at.Loop? && s.head.None?
         case ReqUnlock => at.Popped?
         case ReqSetFlag => at.SetFlag?
         case ReqInvoke => at.Call?
         case ReqReturn => at.Invoking?
         case ReqClearFlag => at.ClearFlag?
         case ReqComplete => at.Complete?
         case ReqRelock => at.Relock? && !IsLocked(s.word)
         case ReqLast => at.Final?
         case StartRequest(_) => false
  }

  ghost predicate Enabled(s: State, e: Event) {
    match e
    case Ref(r) => EnabledRef(s, r)
    case Add(t, a) => EnabledAdd(s, t, a)
    case Remove(t, m) => EnabledRemove(s, t, m)
    case Request(t, q) => EnabledRequest(s, t, q)
    case DestroyUnregistered(c) => c in s.callbacks && Cb(s, c).status.Alive? && !Cb(s, c).registered
  }

  /** `delete this` is reached exactly when the old word is below the bound. */
  function Deleted(s: State, bound: int): nat {
    s.deletions + if s.word < bound then 1 else 0
  }

  // References

  function ApplyRef(s: State, e: RefEvent): State {
    match e
    case CopyToken(h) => s.(word := FetchAdd(s.word, TOKEN_INCREMENT), tokens := s.tokens + {Handle(h)})
    case DropToken(h) =>
      s.(word := FetchSub(s.word, TOKEN_INCREMENT), tokens := s.tokens - {Handle(h)},
         deletions := Deleted(s, 2 * TOKEN_INCREMENT))
    case CopySource(h) => s.(word := FetchAdd(s.word, SOURCE_INCREMENT), sources := s.sources + {h})
    case DropSource(h) =>
      s.(word := FetchSub(s.word, SOURCE_INCREMENT), sources := s.sources - {h},
         deletions := Deleted(s, SOURCE_INCREMENT + TOKEN_INCREMENT))
  }

  // CancellationCallback's constructor and tryAddCallback

  function ToAdd(s: State, t: nat, at: AddAt): map<nat, seq<Frame>>
    requires Stack(s, t) != [] && Top(s, t).Adding?
  {
    SetTop(s, t, Top(s, t).(addAt := at))
  }

  function ApplyStartAdd(s: State, t: nat, c: nat, h: nat, copy: bool): State {
    s.(stacks := Push(s, t, Adding(c, h, copy, TryAdd)),
       callbacks := s.callbacks[c := Callback(Constructing(t, |Stack(s, t)|), Fresh, 0, false, None, Null, None, false)])
  }

  function ApplyAddInline(s: State, t: nat): State
    requires AtAdd(s, t, TryAdd)
  {
    var c := TopCallback(s, t);
    s.(stacks := ToAdd(s, t, InvokeInline),
       callbacks := s.callbacks[c := Cb(s, c).(fate := Inline, runs := Cb(s, c).runs + 1)])
  }

  function ApplyAddInlineDone(s: State, t: nat): State
    requires AtAdd(s, t, InvokeInline)
  {
    var c := TopCallback(s, t);
    s.(stacks := Pop(s, t), callbacks := s.callbacks[c := Cb(s, c).(status := Alive)])
  }

  function ApplyAddGiveUp(s: State, t: nat): State
    requires AtAdd(s, t, TryAdd)
  {
    var c := TopCallback(s, t);
    s.(stacks := Pop(s, t), callbacks := s.callbacks[c := Cb(s, c).(status := Alive, fate := Skipped)])
  }

  function ApplyAddLock(s: State, t: nat): State
    requires AtAdd(s, t, TryAdd)
  {
    s.(word := OrLocked(s.word), holder := Some(t), stacks := ToAdd(s, t, AddLocked))
  }

  function ApplyAddLink(s: State, t: nat): State
    requires AtAdd(s, t, AddLocked)
  {
    var c := TopCallback(s, t);
    var relinked :=
      if s.head.Some? then s.callbacks[s.head.value := Cb(s, s.head.value).(prevNext := NextField(c))] else s.callbacks;
    s.(stacks := ToAdd(s, t, AddLinked), head := Some(c), list := [c] + s.list,
       callbacks := relinked[c := Cb(s, c).(next := s.head, prevNext := HeadField, fate := Linked)])
  }

  function ApplyAddUnlock(s: State, t: nat): State
    requires AtAdd(s, t, AddLinked)
  {
    var c, h, copy := TopCallback(s, t), Top(s, t).token, Top(s, t).copy;
    s.(word := FetchSub(s.word, if copy then LOCKED_FLAG - TOKEN_INCREMENT else LOCKED_FLAG),
       holder := None, stacks := Pop(s, t),
       tokens := (if copy then s.tokens else s.tokens - {Handle(h)}) + {Registered(c)},
       callbacks := s.callbacks[c := Cb(s, c).(status := Alive, registered := true)])
  }

  // CancellationCallback's destructor and removeCallback

  function ToRemove(s: State, t: nat, at: RemoveAt): map<nat, seq<Frame>>
    requires Stack(s, t) != [] && Top(s, t).Removing?
  {
    SetTop(s, t, Top(s, t).(removeAt := at))
  }

  function ApplyDestroyUnregistered(s: State, c: nat): State {
    s.(callbacks := s.callbacks[c := Cb(s, c).(status := Dead)])
  }

  function ApplyStartRemove(s: State, t: nat, c: nat): State {
    s.(stacks := Push(s, t, Removing(c, RemLock)),
       callbacks := s.callbacks[c := Cb(s, c).(status := Destroying(t, |Stack(s, t)|))])
  }

  function ApplyRemAcquire(s: State, t: nat): State
    requires AtRemove(s, t, RemLock)
  {
    s.(word := OrLocked(s.word), holder := Some(t), stacks := ToRemove(s, t, RemLocked))
  }

  function Index(list: seq<nat>, c: nat): (k: nat)
    ensures k <= |list| && (c in list ==> k < |list| && list[k] == c)
  {
    if list == [] || list[0] == c then 0 else 1 + Index(list[1..], c)
  }

  function Without(list: seq<nat>, c: nat): seq<nat> {
    if c in list then list[..Index(list, c)] + list[Index(list, c) + 1..] else list
  }

  function ApplyRemUnlink(s: State, t: nat): State
    requires AtRemove(s, t, RemLocked)
  {
    var c := TopCallback(s, t);
    var next, prevNext := Cb(s, c).next, Cb(s, c).prevNext;
    var head := if prevNext.HeadField? then next else s.head;
    var forward :=
      if prevNext.NextField? then s.callbacks[prevNext.callback := Cb(s, prevNext.callback).(next := next)] else s.callbacks;
    var backward :=
      if next.Some? then forward[next.value := Cb(s.(callbacks := forward), next.value).(prevNext := prevNext)] else forward;
    s.(stacks := ToRemove(s, t, RemUnlinked), head := head, list := Without(s.list, c),
       callbacks := backward[c := Cb(s.(callbacks := backward), c).(fate := Unlinked)])
  }

  function ApplyRemUnlockDrop(s: State, t: nat): State
    requires AtRemove(s, t, RemUnlinked)
  {
    var c := TopCallback(s, t);
    s.(word := FetchSub(s.word, LOCKED_FLAG + TOKEN_INCREMENT), holder := None, stacks := Pop(s, t),
       tokens := s.tokens - {Registered(c)}, deletions := Deleted(s, LOCKED_FLAG + 2 * TOKEN_INCREMENT),
       callbacks := s.callbacks[c := Cb(s, c).(status := Dead)])
  }

  function ApplyRemRelease(s: State, t: nat): State
    requires AtRemove(s, t, RemUnlock)
  {
    s.(word := FetchSub(s.word, LOCKED_FLAG), holder := None, stacks := ToRemove(s, t, RemCheck))
  }

  /** The write through destructorHasRunInsideCallback_. */
  function MarkDestroyed(stack: seq<Frame>, i: nat): (marked: seq<Frame>)
    ensures |marked| == |stack|
    ensures forall j: nat :: j < |stack| && !stack[j].Requesting? ==> marked[j] == stack[j]
  {
    if i < |stack| && stack[i].Requesting? && stack[i].requestAt.Invoking?
    then stack[i := stack[i].(requestAt := stack[i].requestAt.(destroyed := true))]
    else stack
  }

  function ApplyRemSelf(s: State, t: nat): State
    requires AtRemove(s, t, RemCheck)
  {
    var c := TopCallback(s, t);
    if Cb(s, c).flagAt.Some? then
      var marked := s.(stacks := s.stacks[t := MarkDestroyed(Stack(s, t), Cb(s, c).flagAt.value)]);
      s.(stacks := ToRemove(marked, t, RemDrop), touching := None,
         callbacks := s.callbacks[c := Cb(s, c).(fate := Inside)])
    else s.(stacks := ToRemove(s, t, RemDrop))
  }

  function ApplyRemDropRef(s: State, t: nat): State
    requires AtRemove(s, t, RemDrop)
  {
    var c := TopCallback(s, t);
    s.(word := FetchSub(s.word, TOKEN_INCREMENT), stacks := Pop(s, t),
       tokens := s.tokens - {Registered(c)}, deletions := Deleted(s, 2 * TOKEN_INCREMENT),
       callbacks := s.callbacks[c := Cb(s, c).(status := Dead)])
  }

  // requestCancellation

  function ToRequest(s: State, t: nat, at: RequestAt): map<nat, seq<Frame>>
    requires AtRequest(s, t)
  {
    SetTop(s, t, Top(s, t).(requestAt := at))
  }

  function ApplyReqCancel(s: State, t: nat): State
    requires AtRequest(s, t)
  {
    s.(word := OrCancelled(OrLocked(s.word)), holder := Some(t), signal := Active(t, Depth(s, t)),
       stacks := ToRequest(s, t, SetId))
  }

  function ApplyReqPop(s: State, t: nat): State
    requires AtRequest(s, t) && s.head.Some?
  {
    var c := s.head.value;
    var head := Cb(s, c).next;
    var relinked :=
      if head.Some? then s.callbacks[head.value := Cb(s, head.value).(prevNext := HeadField)] else s.callbacks;
    s.(head := head, list := Without(s.list, c), touching := Some(c), stacks := ToRequest(s, t, Popped(c, head.Some?)),
       callbacks := relinked[c := Cb(s.(callbacks := relinked), c).(prevNext := Null, fate := Taken)])
  }

  function ApplyReqUnlock(s: State, t: nat): State
    requires AtRequest(s, t) && Top(s, t).requestAt.Popped?
  {
    var at := Top(s, t).requestAt;
    s.(word := FetchSub(s.word, LOCKED_FLAG), holder := None, stacks := ToRequest(s, t, SetFlag(at.c, at.more)))
  }

  function ApplyReqSetFlag(s: State, t: nat): State
    requires AtRequest(s, t) && Top(s, t).requestAt.SetFlag?
  {
    var at := Top(s, t).requestAt;
    s.(stacks := ToRequest(s, t, Call(at.c, at.more)),
       callbacks := s.callbacks[at.c := Cb(s, at.c).(flagAt := Some(Depth(s, t)))])
  }

  function ApplyReqInvoke(s: State, t: nat): State
    requires AtRequest(s, t) && Top(s, t).requestAt.Call?
  {
    var at := Top(s, t).requestAt;
    s.(stacks := ToRequest(s, t, Invoking(at.c, at.more, false)),
       callbacks := s.callbacks[at.c := Cb(s, at.c).(runs := Cb(s, at.c).runs + 1)])
  }

  /** After a callback: back for the next one, or return. */
  function AfterCallback(s: State, t: nat, more: bool): State
    requires AtRequest(s, t)
  {
    if more then s.(stacks := ToRequest(s, t, Relock)) else s.(stacks := Pop(s, t), signal := Finished)
  }

  function ApplyReqReturn(s: State, t: nat): State
    requires AtRequest(s, t) && Top(s, t).requestAt.Invoking?
  {
    var at := Top(s, t).requestAt;
    if at.destroyed then AfterCallback(s, t, at.more) else s.(stacks := ToRequest(s, t, ClearFlag(at.c, at.more)))
  }

  function ApplyReqClearFlag(s: State, t: nat): State
    requires AtRequest(s, t) && Top(s, t).requestAt.ClearFlag?
  {
    var at := Top(s, t).requestAt;
    s.(stacks := ToRequest(s, t, Complete(at.c, at.more)),
       callbacks := s.callbacks[at.c := Cb(s, at.c).(flagAt := None)])
  }

  function ApplyReqComplete(s: State, t: nat): State
    requires AtRequest(s, t) && Top(s, t).requestAt.Complete?
  {
    var at := Top(s, t).requestAt;
    AfterCallback(s, t, at.more).(touching := None,
      callbacks := s.callbacks[at.c := Cb(s, at.c).(completed := true)])
  }

  function ApplyAdd(s: State, t: nat, e: AddEvent): State
    requires EnabledAdd(s, t, e)
  {
    match e
    case StartAdd(c, h, copy) => ApplyStartAdd(s, t, c, h, copy)
    case AddInline => ApplyAddInline(s, t)
    case AddInlineDone => ApplyAddInlineDone(s, t)
    case AddGiveUp => ApplyAddGiveUp(s, t)
    case AddLock => ApplyAddLock(s, t)
    case AddLink => ApplyAddLink(s, t)
    case AddUnlock => ApplyAddUnlock(s, t)
  }

  function ApplyRemove(s: State, t: nat, e: RemoveEvent): State
    requires EnabledRemove(s, t, e)
  {
    match e
    case StartRemove(c) => ApplyStartRemove(s, t, c)
    case RemAcquire => ApplyRemAcquire(s, t)
    case RemUnlink => ApplyRemUnlink(s, t)
    case RemUnlockDrop => ApplyRemUnlockDrop(s, t)
    case RemFound => s.(stacks := ToRemove(s, t, RemUnlock))
    case RemRelease => ApplyRemRelease(s, t)
    case RemSelf => ApplyRemSelf(s, t)
    case RemOther => s.(stacks := ToRemove(s, t, RemWait))
    case RemWaited => s.(stacks := ToRemove(s, t, RemDrop))
    case RemDropRef => ApplyRemDropRef(s, t)
  }

  function ApplyRequest(s: State, t: nat, e: RequestEvent): State
    requires EnabledRequest(s, t, e)
  {
    match e
    case StartRequest(h) => s.(stacks := Push(s, t, Requesting(h, TryCancel)))
    case ReqAlready => s.(stacks := Pop(s, t))
    case ReqCancel => ApplyReqCancel(s, t)
    case ReqSetId => s.(signallingThread := Some(t), stacks := ToRequest(s, t, Loop))
    case ReqPop => ApplyReqPop(s, t)
    case ReqEmpty => s.(stacks := ToRequest(s, t, Final))
    case ReqUnlock => ApplyReqUnlock(s, t)
    case ReqSetFlag => ApplyReqSetFlag(s, t)
    case ReqInvoke => ApplyReqInvoke(s, t)
    case ReqReturn => ApplyReqReturn(s, t)
    case ReqClearFlag => ApplyReqClearFlag(s, t)
    case ReqComplete => ApplyReqComplete(s, t)
    case ReqRelock => s.(word := OrLocked(s.word), holder := Some(t), stacks := ToRequest(s, t, Loop))
    case ReqLast => s.(word := FetchSub(s.word, LOCKED_FLAG), holder := None, stacks := Pop(s, t), signal := Finished)
  }

  ghost function Apply(s: State, e: Event): State
    requires Enabled(s, e)
  {
    match e
    case Ref(r) => ApplyRef(s, r)
    case Add(t, a) => ApplyAdd(s, t, a)
    case Remove(t, m) => ApplyRemove(s, t, m)
    case Request(t, q) => ApplyRequest(s, t, q)
    case DestroyUnregistered(c) => ApplyDestroyUnregistered(s, c)
  }

  /** CancellationState::create(): one source, nothing else. */
  function Init(): State {
    State(SOURCE_INCREMENT, None, None, map[], map[], {}, {0}, [], None, Quiet, None, 0)
  }
}
