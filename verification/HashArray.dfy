/** AtomicHashArray with linear probing as a transition system: any number of insert, find and erase
    calls, one step per access to a shared variable, any interleaving. */
module HashArray {
  import opened Words

  /** A cell's key word is one of three reserved keys or a key, whose value was written before it. */
  datatype Cell = Empty | Locked | Key(key: nat, value: nat) | Erased

  const NO_NEW_INSERTS: nat := 1
  const NO_PENDING_INSERTS: nat := 2

  datatype Step =
    // insertInternal
    | Probe | IncPending | CheckFull | DecFull | WaitFull | WaitPending | Seal | Recheck
    | TryLock | DecRetry | Fill | DecDone | IncEntries | CheckMax | SetFull | DecThrow
    // CheckKey is the debug check that the cell is no longer empty
    | CheckKey | LoadLocked | Compare
    // findInternal, erase
    | FindProbe | EraseProbe | EraseSwap | CountErase
    // results: an index (the capacity if there is none) and success; or the value's constructor threw
    | Done(result: nat, success: bool) | Threw

  datatype Kind = Insert | Find | Erase

  /** idx and probes are the position in the probe sequence; target is the cell that held the key when
      the call began, if any did. */
  datatype Call = Call(kind: Kind, key: nat, value: nat, idx: nat, probes: nat, at: Step, target: int)

  /** cells, pending (numPendingEntries_), entries (numEntries_), erases (numErases_), isFull and the calls
      are the program's state; the rest is history: the calls counted in pending, the calls whose entry or
      whose erasure is not counted yet, the cells that were ever filled and those erased, and who locked a
      cell. */
  datatype State = State(
    cells: seq<Cell>, pending: nat, entries: nat, erases: nat, isFull: nat, calls: map<nat, Call>, anchor: nat -> nat,
    pendingCalls: set<nat>, uncounted: set<nat>, uncountedErases: set<nat>, filled: set<nat>, erased: set<nat>,
    locker: map<nat, nat>)

  /** keyToAnchorIdx: the masked hash if that is an index, otherwise the remainder. */
  function KeyToAnchorIdx(hash: nat, anchorMask: nat, capacity: nat): (idx: nat)
    requires capacity > 0
    ensures idx < capacity
    ensures hash < capacity <= anchorMask + 1 ==> idx == hash
  {
    var probe := hash % (anchorMask + 1);
    if probe < capacity then probe else hash % capacity
  }

  /** The linear probe function. */
  function NextProbe(idx: nat, capacity: nat): (next: nat)
    requires idx < capacity
    ensures next < capacity && next == (idx + 1) % capacity
  {
    if idx + 1 < capacity then idx + 1 else idx + 1 - capacity
  }

  /** The cell a key's probe sequence reaches after n steps, and the step at which it reaches a cell. */
  ghost function Position(s: State, key: nat, n: nat): (p: nat)
    requires WellFormed(s)
    ensures p < |s.cells|
  {
    (s.anchor(key) + n) % |s.cells|
  }

  ghost function Distance(s: State, key: nat, p: nat): (n: nat)
    requires WellFormed(s) && p < |s.cells|
    ensures n < |s.cells|
  {
    if p >= s.anchor(key) then p - s.anchor(key) else p + |s.cells| - s.anchor(key)
  }

  ghost predicate WellFormed(s: State) {
    |s.cells| > 0 && Anchored(s)
  }

  ghost predicate Anchored(s: State) {
    forall k: nat :: s.anchor(k) < |s.cells|
  }

  lemma PositionDistance(s: State, key: nat, n: nat, p: nat)
    requires WellFormed(s) && n < |s.cells| && p < |s.cells|
    ensures Distance(s, key, Position(s, key, n)) == n
    ensures Position(s, key, Distance(s, key, p)) == p
    ensures n + 1 < |s.cells| ==> Position(s, key, n + 1) == NextProbe(Position(s, key, n), |s.cells|)
  {
    Around(s.anchor(key) + n, |s.cells|);
    Around(s.anchor(key) + n + 1, |s.cells|);
    Around(s.anchor(key) + Distance(s, key, p), |s.cells|);
  }

  lemma Around(x: nat, n: nat)
    requires n > 0 && x < 2 * n
    ensures x % n == if x < n then x else x - n
  {
    if x < n { DivModUnique(x, n, 0, x); } else { DivModUnique(x, n, 1, x - n); }
  }

  // ----- steps -----

  datatype Event =
    | Start(id: nat, kind: Kind, key: nat, value: nat) | Move(id: nat) | Throw(id: nat) | StopCounting(id: nat)

  /** Move is the call's next step; where the program can go two ways for reasons the model does not
      see, Throw is a value constructor that throws and StopCounting a fast count still below the
      maximum. */
  ghost predicate Enabled(s: State, e: Event) {
    && WellFormed(s)
    && match e
       case Start(id, _, _, _) => id !in s.calls
       case Throw(id) => id in s.calls && s.calls[id].at.Fill? && s.calls[id].idx < |s.cells|
       case StopCounting(id) => id in s.calls && s.calls[id].at.CheckMax?
       case Move(id) =>
         && id in s.calls && s.calls[id].idx < |s.cells| && !s.calls[id].at.Done? && !s.calls[id].at.Threw?
         && (Decrements(s.calls[id].at) ==> s.pending > 0)
  }

  predicate Decrements(at: Step) {
    at.DecFull? || at.DecRetry? || at.DecDone? || at.DecThrow?
  }

  function To(s: State, id: nat, c: Call): State {
    s.(calls := s.calls[id := c])
  }

  /** After a cell that is not the key's: the next one, or failure when all have been probed. */
  function Advance(s: State, c: Call, again: Step): Call
    requires c.idx < |s.cells|
  {
    if c.probes + 1 >= |s.cells| then c.(probes := c.probes + 1, at := Done(|s.cells|, false))
    else c.(probes := c.probes + 1, idx := NextProbe(c.idx, |s.cells|), at := again)
  }

  ghost function Target(s: State, key: nat): int {
    if exists p: nat :: p < |s.cells| && HasKey(s.cells[p], key) then
      var p: nat :| p < |s.cells| && HasKey(s.cells[p], key); p
    else -1
  }

  predicate HasKey(cell: Cell, key: nat) {
    cell.Key? && cell.key == key
  }

  function FirstStep(kind: Kind): Step {
    match kind case Insert => Probe case Find => FindProbe case Erase => EraseProbe
  }

  /** Where a step on the counters and the full flag leads. */
  function AfterPending(s: State, c: Call): Step {
    match c.at
    case IncPending => CheckFull
    case CheckFull => if s.isFull != 0 then DecFull else TryLock
    case DecFull => WaitFull
    case WaitFull => if s.isFull == NO_PENDING_INSERTS then Seal else WaitPending
    case WaitPending => if s.pending == 0 then Seal else WaitFull
    case Seal => Recheck
    case DecRetry => CheckKey
    case DecDone => IncEntries
    case IncEntries => CheckMax
    case CheckMax => SetFull
    case SetFull => Done(c.idx, true)
    case DecThrow => Threw
    case CountErase => Done(c.idx, true)
    case _ => c.at
  }

  function MovePending(s: State, id: nat, c: Call): State
    requires id in s.calls && (Decrements(c.at) ==> s.pending > 0)
  {
    s.(calls := s.calls[id := c.(at := AfterPending(s, c))],
       pending := if c.at.IncPending? then s.pending + 1 else if Decrements(c.at) then s.pending - 1 else s.pending,
       pendingCalls :=
         if c.at.IncPending? then s.pendingCalls + {id}
         else if Decrements(c.at) then s.pendingCalls - {id} else s.pendingCalls,
       entries := if c.at.IncEntries? then s.entries + 1 else s.entries,
       uncounted := if c.at.IncEntries? then s.uncounted - {id} else s.uncounted,
       erases := if c.at.CountErase? then s.erases + 1 else s.erases,
       uncountedErases := if c.at.CountErase? then s.uncountedErases - {id} else s.uncountedErases,
       isFull := if c.at.Seal? then NO_PENDING_INSERTS else if c.at.SetFull? then NO_NEW_INSERTS else s.isFull)
  }

  /** Where a step on the call's cell leads. */
  function AfterCell(s: State, c: Call): Call
    requires c.idx < |s.cells|
  {
    var cell := s.cells[c.idx];
    match c.at
    case Probe => c.(at := if cell.Empty? then IncPending else CheckKey)
    case Recheck => c.(at := if cell.Empty? then Done(|s.cells|, false) else CheckKey)
    case TryLock => c.(at := if cell.Empty? then Fill else DecRetry)
    case Fill => c.(at := DecDone)
    case CheckKey => c.(at := LoadLocked)
    case LoadLocked => if cell.Locked? then c else c.(at := Compare)
    case Compare =>
      if HasKey(cell, c.key) then c.(at := Done(c.idx, false))
      else if cell.Empty? || cell.Locked? then c.(at := Probe)
      else Advance(s, c, Probe)
    case FindProbe =>
      if HasKey(cell, c.key) then c.(at := Done(c.idx, true))
      else if cell.Empty? then c.(at := Done(|s.cells|, false))
      else Advance(s, c, FindProbe)
    case EraseProbe =>
      if cell.Empty? || cell.Locked? then c.(at := Done(|s.cells|, false))
      else if HasKey(cell, c.key) then c.(at := EraseSwap)
      else Advance(s, c, EraseProbe)
    case EraseSwap => c.(at := if HasKey(cell, c.key) then CountErase else Done(|s.cells|, false))
    case _ => c
  }

  /** The lock, the write that releases it, and the erasure; other steps leave the cell alone. */
  function NewCell(c: Call, cell: Cell): Cell {
    if c.at.TryLock? && cell.Empty? then Locked
    else if c.at.Fill? then Key(c.key, c.value)
    else if c.at.EraseSwap? && HasKey(cell, c.key) then Erased
    else cell
  }

  function MoveCell(s: State, id: nat, c: Call): State
    requires id in s.calls && c.idx < |s.cells|
  {
    var cell := s.cells[c.idx];
    var erases := c.at.EraseSwap? && HasKey(cell, c.key);
    s.(calls := s.calls[id := AfterCell(s, c)], cells := s.cells[c.idx := NewCell(c, cell)],
       locker := if c.at.TryLock? && cell.Empty? then s.locker[c.idx := id]
                 else if c.at.Fill? then s.locker - {c.idx} else s.locker,
       filled := if c.at.Fill? then s.filled + {c.idx} else s.filled,
       uncounted := if c.at.Fill? then s.uncounted + {id} else s.uncounted,
       uncountedErases := if erases then s.uncountedErases + {id} else s.uncountedErases,
       erased := if erases then s.erased + {c.idx} else s.erased)
  }

  predicate OnCells(at: Step) {
    || at.Probe? || at.Recheck? || at.TryLock? || at.Fill? || at.CheckKey? || at.LoadLocked? || at.Compare?
    || at.FindProbe? || at.EraseProbe? || at.EraseSwap?
  }

  ghost function Apply(s: State, e: Event): State
    requires Enabled(s, e)
  {
    match e
    case Start(id, kind, key, value) =>
      To(s, id, Call(kind, key, value, s.anchor(key), 0, FirstStep(kind), Target(s, key)))
    case Throw(id) =>
      var c := s.calls[id];
      To(s, id, c.(at := DecThrow)).(cells := s.cells[c.idx := Empty], locker := s.locker - {c.idx})
    case StopCounting(id) => To(s, id, s.calls[id].(at := Done(s.calls[id].idx, true)))
    case Move(id) => if OnCells(s.calls[id].at) then MoveCell(s, id, s.calls[id]) else MovePending(s, id, s.calls[id])
  }

  ghost predicate AnchoredBy(s: State, hash: nat -> nat, anchorMask: nat) {
    |s.cells| > 0 && forall key: nat :: s.anchor(key) == KeyToAnchorIdx(hash(key), anchorMask, |s.cells|)
  }

  /** An array of empty cells; a key's search starts where its hash leads. */
  ghost predicate IsInit(s: State) {
    && WellFormed(s) && (exists hash: nat -> nat, anchorMask: nat :: AnchoredBy(s, hash, anchorMask))
    && (forall p: nat :: p < |s.cells| ==> s.cells[p].Empty?)
    && s.pending == 0 && s.entries == 0 && s.erases == 0 && s.isFull == 0 && s.calls == map[]
    && s.pendingCalls == {} && s.uncounted == {} && s.uncountedErases == {}
    && s.filled == {} && s.erased == {} && s.locker == map[]
  }

  // ----- the invariant -----

  /** A cell that a search for the key passes, now and for ever. */
  predicate Blocked(cell: Cell, key: nat) {
    cell.Erased? || (cell.Key? && cell.key != key)
  }

  ghost predicate Passed(s: State, key: nat, n: nat)
    requires WellFormed(s)
  {
    forall m: nat :: m < n ==> Blocked(s.cells[Position(s, key, m)], key)
  }

  /** Between its check of isFull_ and the end of its write a call may add an entry. */
  predicate MayAdd(at: Step) {
    at.TryLock? || at.Fill?
  }

  predicate CountsPending(at: Step) {
    at.CheckFull? || at.DecFull? || at.TryLock? || at.DecRetry? || at.Fill? || at.DecDone? || at.DecThrow?
  }

  ghost predicate SawFull(at: Step) {
    at.DecFull? || at.WaitFull? || at.WaitPending? || at.Seal? || at.Recheck?
  }

  /** No entry can be added any more. */
  ghost predicate Sealed(s: State) {
    s.isFull != 0 && forall id: nat :: id in s.calls ==> !MayAdd(s.calls[id].at)
  }

  ghost predicate CellOk(s: State, p: nat)
    requires WellFormed(s) && p < |s.cells|
  {
    && (s.cells[p].Key? ==> Passed(s, s.cells[p].key, Distance(s, s.cells[p].key, p)))
    && (s.cells[p].Locked? <==> p in s.locker)
    && (p in s.locker ==> s.locker[p] in s.calls && s.calls[s.locker[p]].at.Fill? && s.calls[s.locker[p]].idx == p)
    && (p in s.filled <==> s.cells[p].Key? || s.cells[p].Erased?)
    && (p in s.erased <==> s.cells[p].Erased?)
  }

  ghost predicate CallOk(s: State, id: nat)
    requires WellFormed(s) && id in s.calls
  {
    var c := s.calls[id];
    && c.idx < |s.cells|
    && (c.kind.Find? ==> c.at.FindProbe? || c.at.Done?)
    && (c.kind.Erase? ==> c.at.EraseProbe? || c.at.EraseSwap? || c.at.CountErase? || c.at.Done?)
    && (c.kind.Insert? ==> !c.at.FindProbe? && !c.at.EraseProbe? && !c.at.EraseSwap? && !c.at.CountErase?)
    && (!c.at.Done? ==> c.probes < |s.cells| && c.idx == Position(s, c.key, c.probes))
    && (c.kind.Insert? && !c.at.Done? ==> Passed(s, c.key, c.probes))
    && (c.at.Fill? ==> s.cells[c.idx].Locked? && c.idx in s.locker && s.locker[c.idx] == id)
    && (CountsPending(c.at) <==> id in s.pendingCalls)
    && (c.at.DecDone? || c.at.IncEntries? <==> id in s.uncounted) && (c.at.CountErase? <==> id in s.uncountedErases)
    && (SawFull(c.at) ==> s.isFull != 0)
    && (c.at.Seal? || c.at.Recheck? ==> Sealed(s))
    && (c.target >= 0 ==> c.target < |s.cells| && TargetOk(s, c))
  }

  /** The key was in the target cell when the call began: if it still is, the search has not passed it,
      and if the search has ended, it ended there. */
  ghost predicate TargetOk(s: State, c: Call)
    requires WellFormed(s) && 0 <= c.target < |s.cells|
  {
    && (HasKey(s.cells[c.target], c.key) || s.cells[c.target].Erased?)
    && (HasKey(s.cells[c.target], c.key) ==>
          if c.at.Done? then c.at.result == c.target && (c.at.success <==> !c.kind.Insert?)
          else Searching(c.at) && c.probes <= Distance(s, c.key, c.target) && (c.at.EraseSwap? ==> c.idx == c.target))
  }

  /** The call has not seen an empty cell since it last looked. */
  predicate Searching(at: Step) {
    at.Probe? || at.CheckKey? || at.LoadLocked? || at.Compare? || at.FindProbe? || at.EraseProbe? || at.EraseSwap?
  }

  ghost predicate Inv(s: State) {
    && WellFormed(s)
    && (forall p: nat :: p < |s.cells| ==> CellOk(s, p))
    && (forall id: nat :: id in s.calls ==> CallOk(s, id))
    && (forall p: nat :: p in s.locker || p in s.filled || p in s.erased ==> p < |s.cells|)
    && (forall id: nat :: id in s.pendingCalls || id in s.uncounted || id in s.uncountedErases ==> id in s.calls)
    && s.pending == |s.pendingCalls| && s.entries + |s.uncounted| == |s.filled| && s.erases + |s.uncountedErases| == |s.erased|
    && (s.isFull == NO_PENDING_INSERTS ==> Sealed(s))
  }

  lemma InitInv(s: State)
    requires IsInit(s)
    ensures Inv(s)
  {}

  // ----- what a step leaves alone -----

  /** Empty to Locked, Locked to a key or back to Empty, a key to Erased. */
  predicate Evolves(a: Cell, b: Cell) {
    a == b || (a.Empty? && b.Locked?) || (a.Locked? && (b.Key? || b.Empty?)) || (a.Key? && b.Erased?)
  }

  ghost predicate AllEvolve(s: State, z: State) {
    && WellFormed(s) && WellFormed(z) && z.anchor == s.anchor && |z.cells| == |s.cells|
    && forall p: nat :: p < |s.cells| ==> Evolves(s.cells[p], z.cells[p])
  }

  lemma PassedStays(s: State, z: State, key: nat, n: nat)
    requires AllEvolve(s, z) && Passed(s, key, n)
    ensures Passed(z, key, n)
  {
    forall m: nat | m < n ensures Blocked(z.cells[Position(z, key, m)], key) {
      assert Blocked(s.cells[Position(s, key, m)], key);
    }
  }

  /** A step of one call on at most one cell. */
  ghost predicate OneStep(s: State, z: State, id: nat, p: nat) {
    && AllEvolve(s, z) && id in z.calls && p < |s.cells|
    && z.calls == s.calls[id := z.calls[id]] && z.cells == s.cells[p := z.cells[p]]
    && (forall i: nat :: i != p ==> (i in z.locker <==> i in s.locker) && (i in s.locker ==> z.locker[i] == s.locker[i]))
    && (forall i: nat :: i != p ==> (i in z.filled <==> i in s.filled) && (i in z.erased <==> i in s.erased))
    && (forall i: nat :: i != id ==> (i in z.pendingCalls <==> i in s.pendingCalls) && (i in z.uncounted <==> i in s.uncounted))
    && (forall i: nat :: i != id ==> (i in z.uncountedErases <==> i in s.uncountedErases))
    && (s.isFull != 0 ==> z.isFull != 0)
    && (z.isFull != 0 && MayAdd(z.calls[id].at) ==> id in s.calls && (s.isFull == 0 || MayAdd(s.calls[id].at)))
  }

  lemma SealedStays(s: State, z: State, id: nat, p: nat)
    requires OneStep(s, z, id, p) && Sealed(s)
    ensures Sealed(z)
  {}

  lemma OtherCall(s: State, z: State, id: nat, p: nat, id2: nat)
    requires OneStep(s, z, id, p) && id2 in s.calls && id2 != id && CallOk(s, id2)
    requires s.calls[id2].at.Fill? && s.calls[id2].idx == p ==> z.cells[p] == s.cells[p] && z.locker == s.locker
    ensures CallOk(z, id2)
  {
    hide Sealed;
    var c := s.calls[id2];
    if c.kind.Insert? && !c.at.Done? { PassedStays(s, z, c.key, c.probes); }
    if c.at.Seal? || c.at.Recheck? { SealedStays(s, z, id, p); }
  }

  lemma OtherCell(s: State, z: State, id: nat, p: nat, i: nat)
    requires OneStep(s, z, id, p) && i < |s.cells| && i != p && CellOk(s, i)
    requires id in s.calls && s.calls[id].at.Fill? ==> s.calls[id].idx == p
    ensures CellOk(z, i)
  {
    if s.cells[i].Key? { PassedStays(s, z, s.cells[i].key, Distance(s, s.cells[i].key, i)); }
  }

  lemma StepKeeps(s: State, z: State, id: nat, p: nat)
    requires Inv(s) && OneStep(s, z, id, p) && CallOk(z, id) && CellOk(z, p)
    requires id in s.calls && s.calls[id].at.Fill? ==> s.calls[id].idx == p
    requires (z.cells[p] == s.cells[p] && z.locker == s.locker) || p !in s.locker || s.locker[p] == id
    requires z.pending == |z.pendingCalls| && z.entries + |z.uncounted| == |z.filled| && z.erases + |z.uncountedErases| == |z.erased|
    requires z.isFull == NO_PENDING_INSERTS ==> Sealed(s)
    ensures Inv(z)
  {
    hide CellOk, CallOk, Sealed, Evolves;
    forall i: nat | i < |z.cells| ensures CellOk(z, i) {
      if i != p { OtherCell(s, z, id, p, i); }
    }
    forall id2: nat | id2 in z.calls ensures CallOk(z, id2) {
      if id2 != id {
        FillsOwn(s, id2);
        OtherCall(s, z, id, p, id2);
      }
    }
    if z.isFull == NO_PENDING_INSERTS { SealedStays(s, z, id, p); }
    BoundsStay(s, z, id, p);
  }

  lemma FillsOwn(s: State, id: nat)
    requires WellFormed(s) && id in s.calls && CallOk(s, id)
    ensures s.calls[id].at.Fill? ==> s.calls[id].idx in s.locker && s.locker[s.calls[id].idx] == id
  {}

  lemma BoundsStay(s: State, z: State, id: nat, p: nat)
    requires Inv(s) && OneStep(s, z, id, p)
    ensures forall i: nat :: i in z.locker || i in z.filled || i in z.erased ==> i < |z.cells|
    ensures forall i: nat :: i in z.pendingCalls || i in z.uncounted || i in z.uncountedErases ==> i in z.calls
  {
    hide CellOk, CallOk, Sealed;
  }

  // ----- the counters and the full flag -----

  /** With the flag set and nothing pending no call can be on its way to a cell. */
  lemma NothingPending(s: State)
    requires Inv(s) && s.isFull != 0 && s.pending == 0
    ensures Sealed(s)
  {
    hide CellOk;
    forall id: nat | id in s.calls ensures !MayAdd(s.calls[id].at) {
      assert CallOk(s, id);
    }
  }

  lemma CellSame(s: State, z: State, id: nat, p: nat)
    requires OneStep(s, z, id, p) && CellOk(s, p) && z.cells == s.cells && z.locker == s.locker
    requires z.filled == s.filled && z.erased == s.erased
    requires id in s.calls && s.calls[id].at.Fill? ==> z.calls[id] == s.calls[id]
    ensures CellOk(z, p)
  {
    if s.cells[p].Key? { PassedStays(s, z, s.cells[p].key, Distance(s, s.cells[p].key, p)); }
  }

  lemma PendingKeeps(s: State, id: nat)
    requires Inv(s) && Enabled(s, Move(id)) && !OnCells(s.calls[id].at)
    ensures Inv(Apply(s, Move(id)))
  {
    hide CellOk, CallOk, Sealed, MovePending, OneStep;
    var z, c := Apply(s, Move(id)), s.calls[id];
    assert CallOk(s, id) && CellOk(s, c.idx);
    if c.at.WaitPending? && s.pending == 0 && s.isFull != 0 { NothingPending(s); }
    PendingStep(s, id);
    PendingCall(s, id);
    CellSame(s, z, id, c.idx);
    PendingCounts(s, id);
    StepKeeps(s, z, id, c.idx);
  }

  ghost predicate Counted(s: State) {
    s.pending == |s.pendingCalls| && s.entries + |s.uncounted| == |s.filled| && s.erases + |s.uncountedErases| == |s.erased|
  }

  lemma PendingCounts(s: State, id: nat)
    requires Inv(s) && Enabled(s, Move(id)) && !OnCells(s.calls[id].at)
    ensures
      var z := Apply(s, Move(id));
      && z.pending == |z.pendingCalls| && z.entries + |z.uncounted| == |z.filled| && z.erases + |z.uncountedErases| == |z.erased|
      && (z.isFull == NO_PENDING_INSERTS ==> Sealed(s))
  {
    hide CellOk, Sealed, Passed, TargetOk, WellFormed, MovePending;
    assert CallOk(s, id);
    CountsAfter(s, id, s.calls[id]);
  }

  lemma CountsAfter(s: State, id: nat, c: Call)
    requires Counted(s) && id in s.calls && c == s.calls[id] && (Decrements(c.at) ==> s.pending > 0)
    requires CountsPending(c.at) <==> id in s.pendingCalls
    requires c.at.DecDone? || c.at.IncEntries? <==> id in s.uncounted
    requires c.at.CountErase? <==> id in s.uncountedErases
    ensures Counted(MovePending(s, id, c))
    ensures MovePending(s, id, c).isFull == NO_PENDING_INSERTS ==> s.isFull == NO_PENDING_INSERTS || c.at.Seal?
  {
    assert id !in s.pendingCalls ==> |s.pendingCalls + {id}| == |s.pendingCalls| + 1;
    assert id in s.pendingCalls ==> |s.pendingCalls - {id}| == |s.pendingCalls| - 1;
    assert id in s.uncounted ==> |s.uncounted - {id}| == |s.uncounted| - 1;
    assert id in s.uncountedErases ==> |s.uncountedErases - {id}| == |s.uncountedErases| - 1;
  }

  lemma PendingStep(s: State, id: nat)
    requires Enabled(s, Move(id)) && !OnCells(s.calls[id].at)
    ensures OneStep(s, Apply(s, Move(id)), id, s.calls[id].idx)
    ensures
      var z := Apply(s, Move(id));
      && z.cells == s.cells && z.locker == s.locker && z.filled == s.filled && z.erased == s.erased
      && z.calls[id] == s.calls[id].(at := z.calls[id].at) && !s.calls[id].at.Fill?
  {}

  lemma PendingCall(s: State, id: nat)
    requires Enabled(s, Move(id)) && !OnCells(s.calls[id].at) && CallOk(s, id)
    requires s.isFull == NO_PENDING_INSERTS ==> Sealed(s)
    requires s.calls[id].at.WaitPending? && s.pending == 0 && s.isFull != 0 ==> Sealed(s)
    ensures CallOk(Apply(s, Move(id)), id)
  {
    hide Sealed, Passed, TargetOk;
    var z := Apply(s, Move(id));
    PendingStep(s, id);
    SamePassed(s, z, s.calls[id].key, s.calls[id].probes);
    if s.calls[id].target >= 0 { SameTarget(s, z, id); }
    if Sealed(s) { SealedStays(s, z, id, s.calls[id].idx); }
  }

  lemma SamePassed(s: State, z: State, key: nat, n: nat)
    requires WellFormed(s) && z.cells == s.cells && z.anchor == s.anchor
    ensures WellFormed(z) && (Passed(z, key, n) <==> Passed(s, key, n))
  {
    assert forall m: nat :: Position(z, key, m) == Position(s, key, m);
  }

  /** A call that is not searching has seen its cell empty, so the target no longer has the key. */
  lemma SameTarget(s: State, z: State, id: nat)
    requires WellFormed(s) && WellFormed(z) && z.cells == s.cells && id in s.calls && id in z.calls
    requires 0 <= s.calls[id].target < |s.cells| && TargetOk(s, s.calls[id]) && !Searching(s.calls[id].at) && !s.calls[id].at.Done?
    requires z.calls[id] == s.calls[id].(at := z.calls[id].at)
    ensures TargetOk(z, z.calls[id])
  {}

  lemma StopCountingKeeps(s: State, id: nat)
    requires Inv(s) && Enabled(s, StopCounting(id))
    ensures Inv(Apply(s, StopCounting(id)))
  {
    hide CellOk, CallOk, Sealed, Passed, TargetOk;
    assert CallOk(s, id);
    StoppedCall(s, id);
    LookKeeps(s, id, Apply(s, StopCounting(id)).calls[id]);
  }

  lemma StoppedCall(s: State, id: nat)
    requires WellFormed(s) && id in s.calls && s.calls[id].at.CheckMax? && CallOk(s, id)
    ensures CallOk(Apply(s, StopCounting(id)), id) && s.calls[id].idx < |s.cells|
  {
    hide Sealed, Passed, TargetOk;
    if s.calls[id].target >= 0 { SameTarget(s, Apply(s, StopCounting(id)), id); }
  }

  lemma StartKeeps(s: State, id: nat, kind: Kind, key: nat, value: nat)
    requires Inv(s) && Enabled(s, Start(id, kind, key, value))
    ensures Inv(Apply(s, Start(id, kind, key, value)))
  {
    hide CellOk, CallOk, Sealed;
    var z := Apply(s, Start(id, kind, key, value));
    var p := s.anchor(key);
    assert CellOk(s, p);
    StartedCall(s, id, kind, key, value);
    CellSame(s, z, id, p);
    StepKeeps(s, z, id, p);
  }

  lemma StartedCall(s: State, id: nat, kind: Kind, key: nat, value: nat)
    requires WellFormed(s) && id !in s.calls && id !in s.pendingCalls && id !in s.uncounted && id !in s.uncountedErases
    ensures CallOk(Apply(s, Start(id, kind, key, value)), id)
  {
    hide Sealed;
    PositionDistance(s, key, 0, s.anchor(key));
  }

  // ----- steps that look at a cell -----

  lemma LookKeeps(s: State, id: nat, c: Call)
    requires Inv(s) && id in s.calls && s.calls[id].idx < |s.cells| && !s.calls[id].at.Fill? && CallOk(To(s, id, c), id)
    requires s.isFull != 0 && MayAdd(c.at) ==> MayAdd(s.calls[id].at)
    ensures Inv(To(s, id, c))
  {
    hide CellOk, CallOk, Sealed;
    var p := s.calls[id].idx;
    assert CellOk(s, p);
    CellSame(s, To(s, id, c), id, p);
    StepKeeps(s, To(s, id, c), id, p);
  }

  /** Until it has reached the target, a search only meets cells it passes. */
  lemma TargetAhead(s: State, c: Call)
    requires Inv(s) && 0 <= c.target < |s.cells| && HasKey(s.cells[c.target], c.key) && TargetOk(s, c) && !c.at.Done?
    requires c.probes < |s.cells| && c.idx == Position(s, c.key, c.probes)
    ensures c.idx == c.target || Blocked(s.cells[c.idx], c.key)
    ensures c.idx == c.target <==> c.probes == Distance(s, c.key, c.target)
  {
    hide Passed, CallOk, CellOk;
    assert CellOk(s, c.target);
    PositionDistance(s, c.key, c.probes, c.target);
    KeyPassed(s, c.key, c.target);
    if c.probes < Distance(s, c.key, c.target) { PassedAt(s, c.key, Distance(s, c.key, c.target), c.probes); }
  }

  lemma PassedAt(s: State, key: nat, n: nat, m: nat)
    requires WellFormed(s) && Passed(s, key, n) && m < n
    ensures Blocked(s.cells[Position(s, key, m)], key)
  {}

  lemma KeyPassed(s: State, key: nat, p: nat)
    requires WellFormed(s) && p < |s.cells| && HasKey(s.cells[p], key) && CellOk(s, p)
    ensures Passed(s, key, Distance(s, key, p))
  {}

  lemma PassedOneMore(s: State, key: nat, n: nat)
    requires WellFormed(s) && Passed(s, key, n) && Blocked(s.cells[Position(s, key, n)], key)
    ensures Passed(s, key, n + 1)
  {}

  /** The call after a look at its cell that changes nothing else. */
  lemma LookedKeeps(s: State, id: nat)
    requires Inv(s) && Enabled(s, Move(id)) && OnlyLooks(s, id)
    ensures Inv(Apply(s, Move(id)))
  {
    hide CellOk, CallOk, Sealed, TargetOk, Passed;
    var c := s.calls[id];
    assert CallOk(s, id);
    CallTarget(s, id);
    if c.target >= 0 && HasKey(s.cells[c.target], c.key) { TargetAhead(s, c); }
    LookedCall(s, id);
    LookKeeps(s, id, Apply(s, Move(id)).calls[id]);
  }

  lemma CallTarget(s: State, id: nat)
    requires WellFormed(s) && id in s.calls && CallOk(s, id) && !s.calls[id].at.Done?
    ensures s.calls[id].probes < |s.cells| && s.calls[id].idx == Position(s, s.calls[id].key, s.calls[id].probes)
    ensures s.calls[id].target >= 0 ==> s.calls[id].target < |s.cells| && TargetOk(s, s.calls[id])
  {}

  /** The conditions under which a step on a cell changes nothing but the call. */
  ghost predicate OnlyLooks(s: State, id: nat)
    requires WellFormed(s) && id in s.calls && s.calls[id].idx < |s.cells|
  {
    var c, cell := s.calls[id], s.cells[s.calls[id].idx];
    && OnCells(c.at) && !c.at.Fill? && !(c.at.TryLock? && cell.Empty?)
    && !(c.at.EraseSwap? && HasKey(cell, c.key))
  }

  ghost predicate Reaching(s: State, c: Call)
    requires WellFormed(s)
  {
    0 <= c.target < |s.cells| && c.idx < |s.cells| && HasKey(s.cells[c.target], c.key) ==>
      && (c.idx == c.target || Blocked(s.cells[c.idx], c.key))
      && (c.idx == c.target <==> c.probes == Distance(s, c.key, c.target))
  }

  lemma LookedCall(s: State, id: nat)
    requires Enabled(s, Move(id)) && CallOk(s, id) && OnlyLooks(s, id) && Reaching(s, s.calls[id])
    ensures Apply(s, Move(id)) == To(s, id, Apply(s, Move(id)).calls[id])
    ensures CallOk(To(s, id, Apply(s, Move(id)).calls[id]), id)
    ensures MayAdd(Apply(s, Move(id)).calls[id].at) ==> MayAdd(s.calls[id].at)
  {
    hide Sealed, Passed, TargetOk;
    var c, z := s.calls[id], To(s, id, Apply(s, Move(id)).calls[id]);
    PositionDistance(s, c.key, c.probes, c.idx);
    if c.at.Compare? && Blocked(s.cells[c.idx], c.key) { PassedOneMore(s, c.key, c.probes); }
    SamePassed(s, z, c.key, c.probes);
    SamePassed(s, z, c.key, c.probes + 1);
    assert forall k: nat, n: nat :: Position(z, k, n) == Position(s, k, n);
    if c.target >= 0 { LookedTarget(s, id); }
  }

  lemma LookedTarget(s: State, id: nat)
    requires Enabled(s, Move(id)) && CallOk(s, id) && OnlyLooks(s, id) && Reaching(s, s.calls[id]) && s.calls[id].target >= 0
    ensures var c := Apply(s, Move(id)).calls[id];
            c.target == s.calls[id].target && TargetOk(To(s, id, c), c)
  {
    hide Sealed, Passed;
  }

  // ----- steps that change a cell -----

  /** The step changes the call's cell. */
  ghost predicate ChangesCell(s: State, e: Event)
    requires Enabled(s, e)
  {
    match e
    case Throw(_) => true
    case Move(id) =>
      var c := s.calls[id];
      c.at.Fill? || (c.at.TryLock? && s.cells[c.idx].Empty?) || (c.at.EraseSwap? && HasKey(s.cells[c.idx], c.key))
    case _ => false
  }

  lemma CellStep(s: State, e: Event)
    requires Enabled(s, e) && ChangesCell(s, e) && CallOk(s, e.id)
    ensures OneStep(s, Apply(s, e), e.id, s.calls[e.id].idx)
  {
    hide Sealed, Passed, TargetOk, Position;
    CellEvolves(s, e);
  }

  lemma CellEvolves(s: State, e: Event)
    requires Enabled(s, e) && ChangesCell(s, e) && CallOk(s, e.id)
    ensures AllEvolve(s, Apply(s, e))
    ensures
      var z, c := Apply(s, e), s.calls[e.id];
      && z.calls[e.id] == c.(at := z.calls[e.id].at) && z.cells == s.cells[c.idx := z.cells[c.idx]]
      && z.cells[c.idx] == (match c.at case TryLock => Locked case EraseSwap => Erased
                            case _ => if e.Throw? then Empty else Key(c.key, c.value))
      && z.calls[e.id].at == (if c.at.TryLock? then Fill else if c.at.EraseSwap? then CountErase
                              else if e.Throw? then DecThrow else DecDone)
      && (c.at.Fill? || c.at.TryLock? || c.at.EraseSwap?)
      && z.locker == (match c.at case TryLock => s.locker[c.idx := e.id] case EraseSwap => s.locker case _ => s.locker - {c.idx})
      && z.filled == (if c.at.Fill? && !e.Throw? then s.filled + {c.idx} else s.filled)
      && z.erased == (if c.at.EraseSwap? then s.erased + {c.idx} else s.erased)
      && z.uncounted == (if c.at.Fill? && !e.Throw? then s.uncounted + {e.id} else s.uncounted)
      && z.uncountedErases == (if c.at.EraseSwap? then s.uncountedErases + {e.id} else s.uncountedErases)
      && z.pendingCalls == s.pendingCalls && z.isFull == s.isFull && z.calls == s.calls[e.id := z.calls[e.id]]
  {
    hide Sealed, Passed, TargetOk, Position;
  }

  lemma CellCounts(s: State, e: Event)
    requires Inv(s) && Enabled(s, e) && ChangesCell(s, e)
    ensures
      var z := Apply(s, e);
      && z.pending == |z.pendingCalls| && z.entries + |z.uncounted| == |z.filled| && z.erases + |z.uncountedErases| == |z.erased|
      && z.isFull == s.isFull
  {
    hide Sealed, CallOk, CellOk, Apply;
    NotYetCounted(s, e);
    CellEvolves(s, e);
    CountersStay(s, e);
    var c := s.calls[e.id];
    OneMore(s.filled, c.idx);
    OneMore(s.erased, c.idx);
    OneMore(s.uncounted, e.id);
    OneMore(s.uncountedErases, e.id);
  }

  lemma OneMore(a: set<nat>, x: nat)
    ensures x !in a ==> |a + {x}| == |a| + 1
  {}

  /** A cell that is filled or erased was not before, and the call does it once. */
  lemma NotYetCounted(s: State, e: Event)
    requires Inv(s) && Enabled(s, e) && ChangesCell(s, e)
    ensures CallOk(s, e.id)
    ensures
      var c := s.calls[e.id];
      && (c.at.Fill? ==> c.idx !in s.filled && e.id !in s.uncounted)
      && (c.at.EraseSwap? ==> c.idx !in s.erased && e.id !in s.uncountedErases)
  {
    hide Sealed, Passed, TargetOk, Anchored;
    assert CallOk(s, e.id) && CellOk(s, s.calls[e.id].idx);
  }

  lemma CountersStay(s: State, e: Event)
    requires Enabled(s, e) && ChangesCell(s, e)
    ensures var z := Apply(s, e); z.pending == s.pending && z.entries == s.entries && z.erases == s.erases
  {
    hide Anchored, AfterCell;
  }

  lemma CellAfter(s: State, e: Event)
    requires Inv(s) && Enabled(s, e) && ChangesCell(s, e)
    ensures CellOk(Apply(s, e), s.calls[e.id].idx)
  {
    hide Sealed, TargetOk, Passed, Anchored;
    var z, c := Apply(s, e), s.calls[e.id];
    assert CallOk(s, e.id) && CellOk(s, c.idx);
    CellEvolves(s, e);
    PositionDistance(s, c.key, c.probes, c.idx);
    if c.at.Fill? { PassedStays(s, z, c.key, c.probes); }
    CellAfterChange(s, z, e, c);
  }

  lemma CellAfterChange(s: State, z: State, e: Event, c: Call)
    requires Enabled(s, e) && ChangesCell(s, e) && CallOk(s, e.id) && z == Apply(s, e) && c == s.calls[e.id] && CellOk(s, c.idx)
    requires WellFormed(z) && |z.cells| == |s.cells| && z.anchor == s.anchor
    requires c.at.Fill? ==> Passed(z, c.key, c.probes) && Distance(s, c.key, c.idx) == c.probes
    ensures CellOk(z, c.idx)
  {
    hide Sealed, TargetOk, Passed, Apply, Position, Anchored, ChangesCell;
    CellEvolves(s, e);
  }

  lemma CallAfter(s: State, e: Event)
    requires Inv(s) && Enabled(s, e) && ChangesCell(s, e)
    ensures CallOk(Apply(s, e), e.id)
  {
    hide Sealed, Passed, CellOk, TargetOk;
    var z, c := Apply(s, e), s.calls[e.id];
    assert CallOk(s, e.id);
    CellEvolves(s, e);
    if c.kind.Insert? { PassedStays(s, z, c.key, c.probes); }
    if c.target >= 0 { TargetAfter(s, e); }
    CallAfterChange(s, z, e, c);
  }

  lemma CallAfterChange(s: State, z: State, e: Event, c: Call)
    requires Enabled(s, e) && ChangesCell(s, e) && CallOk(s, e.id) && z == Apply(s, e) && c == s.calls[e.id]
    requires WellFormed(z) && |z.cells| == |s.cells| && z.anchor == s.anchor
    requires c.kind.Insert? ==> Passed(z, c.key, c.probes)
    requires c.target >= 0 ==> z.calls[e.id].target == c.target < |s.cells| && TargetOk(z, z.calls[e.id])
    ensures CallOk(z, e.id)
  {
    hide Sealed, TargetOk, Passed, Apply, Anchored, ChangesCell;
    CellEvolves(s, e);
  }

  lemma TargetAfter(s: State, e: Event)
    requires Enabled(s, e) && ChangesCell(s, e) && CallOk(s, e.id) && s.calls[e.id].target >= 0
    ensures Apply(s, e).calls[e.id].target == s.calls[e.id].target < |s.cells|
    ensures WellFormed(Apply(s, e)) && TargetOk(Apply(s, e), Apply(s, e).calls[e.id])
  {
    hide Sealed, Passed, Apply, ChangesCell, Position, Anchored;
    CellEvolves(s, e);
  }

  lemma ChangeKeeps(s: State, e: Event)
    requires Inv(s) && Enabled(s, e) && ChangesCell(s, e)
    ensures Inv(Apply(s, e))
  {
    hide CellOk, CallOk, Sealed, OneStep;
    var p := s.calls[e.id].idx;
    assert CallOk(s, e.id);
    CellStep(s, e);
    CellCounts(s, e);
    CellAfter(s, e);
    CallAfter(s, e);
    LockerOf(s, e);
    StepKeeps(s, Apply(s, e), e.id, p);
  }

  lemma LockerOf(s: State, e: Event)
    requires Inv(s) && Enabled(s, e) && ChangesCell(s, e)
    ensures var p := s.calls[e.id].idx; p < |s.cells| && (p !in s.locker || s.locker[p] == e.id)
  {
    hide Passed, TargetOk, Sealed;
    assert CallOk(s, e.id) && CellOk(s, s.calls[e.id].idx);
  }

  lemma StepInv(s: State, e: Event)
    requires Inv(s) && Enabled(s, e)
    ensures Inv(Apply(s, e))
  {
    hide Inv, CallOk, CellOk, Sealed;
    match e
    case Start(id, kind, key, value) => StartKeeps(s, id, kind, key, value);
    case StopCounting(id) => StopCountingKeeps(s, id);
    case Throw(id) => ChangeKeeps(s, e);
    case Move(id) =>
      if !OnCells(s.calls[id].at) { PendingKeeps(s, id); }
      else if ChangesCell(s, e) { ChangeKeeps(s, e); }
      else { LookedKeeps(s, id); }
  }

  // ----- guarantees over runs -----

  ghost predicate IsStep(s: State, e: Event, z: State) {
    Enabled(s, e) && z == Apply(s, e)
  }

  ghost predicate IsRun(states: seq<State>, events: seq<Event>) {
    && |states| == |events| + 1 && IsInit(states[0])
    && forall k: nat :: k < |events| ==> IsStep(states[k], events[k], states[k + 1])
  }

  lemma {:induction false} RunInv(states: seq<State>, events: seq<Event>, k: nat)
    requires IsRun(states, events) && k < |states|
    ensures Inv(states[k])
    decreases k
  {
    hide Inv, Enabled, Apply, IsInit;
    if k == 0 {
      InitInv(states[0]);
    } else {
      RunInv(states, events, k - 1);
      assert IsStep(states[k - 1], events[k - 1], states[k - 1 + 1]);
      StepInv(states[k - 1], events[k - 1]);
    }
  }

  lemma StepEvolves(s: State, e: Event)
    requires Inv(s) && Enabled(s, e)
    ensures AllEvolve(s, Apply(s, e))
  {
    hide CellOk, CallOk, Sealed, Passed, TargetOk;
    if ChangesCell(s, e) { CellStep(s, e); }
  }

  /** A cell only ever moves from Empty to Locked, from Locked to a key or back, and from a key to
      Erased; it never changes its key. */
  lemma CellsEvolve(states: seq<State>, events: seq<Event>, k: nat)
    requires IsRun(states, events) && k < |events|
    ensures AllEvolve(states[k], states[k + 1])
  {
    hide Inv, Enabled, Apply, IsInit, AllEvolve;
    RunInv(states, events, k);
    assert IsStep(states[k], events[k], states[k + 1]);
    StepEvolves(states[k], events[k]);
  }

  /** A key is live in one cell at most, and no search for it meets an empty cell on the way. */
  lemma OneLiveCell(states: seq<State>, events: seq<Event>, k: nat, key: nat, p1: nat, p2: nat)
    requires IsRun(states, events) && k < |states| && p1 < |states[k].cells| && p2 < |states[k].cells|
    requires HasKey(states[k].cells[p1], key)
    ensures WellFormed(states[k]) && (HasKey(states[k].cells[p2], key) ==> p1 == p2)
    ensures forall m: nat :: m < Distance(states[k], key, p1) ==> !states[k].cells[Position(states[k], key, m)].Empty?
  {
    hide IsRun, Inv;
    RunInv(states, events, k);
    InvWellFormed(states[k]);
    LiveCell(states[k], key, p1, p2);
  }

  lemma InvWellFormed(s: State)
    requires Inv(s)
    ensures WellFormed(s)
  {}

  lemma LiveCell(s: State, key: nat, p1: nat, p2: nat)
    requires Inv(s) && p1 < |s.cells| && p2 < |s.cells| && HasKey(s.cells[p1], key)
    ensures HasKey(s.cells[p2], key) ==> p1 == p2
    ensures forall m: nat :: m < Distance(s, key, p1) ==> !s.cells[Position(s, key, m)].Empty?
  {
    hide CallOk, Sealed;
    assert CellOk(s, p1) && CellOk(s, p2);
    PositionDistance(s, key, 0, p1);
    PositionDistance(s, key, 0, p2);
    if HasKey(s.cells[p2], key) {
      if Distance(s, key, p2) < Distance(s, key, p1) { PassedAt(s, key, Distance(s, key, p1), Distance(s, key, p2)); }
      if Distance(s, key, p1) < Distance(s, key, p2) { PassedAt(s, key, Distance(s, key, p2), Distance(s, key, p1)); }
    }
  }

  /** A call on a key that was there when the call began, and still is, finds it: find succeeds, insert
      reports the collision, and neither fails for lack of room. */
  lemma PresentIsFound(states: seq<State>, events: seq<Event>, k: nat, id: nat)
    requires IsRun(states, events) && k < |states| && id in states[k].calls
    requires
      var s, c := states[k], states[k].calls[id];
      c.at.Done? && 0 <= c.target < |s.cells| && HasKey(s.cells[c.target], c.key)
    ensures var c := states[k].calls[id]; c.at.result == c.target && (c.at.success <==> !c.kind.Insert?)
  {
    hide IsRun, CellOk, Sealed, Passed;
    RunInv(states, events, k);
    assert CallOk(states[k], id);
  }

  /** The target recorded when a call begins is the cell of its key, if the key is anywhere. */
  lemma TargetIsTheCell(states: seq<State>, events: seq<Event>, k: nat, p: nat)
    requires IsRun(states, events) && k < |events| && events[k].Start?
    requires p < |states[k].cells| && HasKey(states[k].cells[p], events[k].key)
    ensures events[k].id in states[k + 1].calls && states[k + 1].calls[events[k].id].target == p
  {
    hide CellOk, CallOk, Sealed, Passed, IsInit, WellFormed;
    RunInv(states, events, k);
    assert IsStep(states[k], events[k], states[k + 1]);
    var s, key := states[k], events[k].key;
    var q: nat :| q < |s.cells| && HasKey(s.cells[q], key) && Target(s, key) == q;
    LiveCell(s, key, p, q);
  }

  lemma SealedStep(s: State, e: Event)
    requires Enabled(s, e) && Sealed(s) && Counted(s)
    ensures Sealed(Apply(s, e)) && EmptyStays(s, Apply(s, e))
  {
    hide Passed, TargetOk, CallOk, WellFormed;
    match e
    case Start(_, kind, _, _) => assert !MayAdd(FirstStep(kind));
    case Throw(id) =>
    case StopCounting(id) =>
    case Move(id) =>
      assert !MayAdd(s.calls[id].at);
      if OnCells(s.calls[id].at) { SealedLook(s, id, s.calls[id]); } else { SealedMove(s, id, s.calls[id]); }
  }

  ghost predicate EmptyStays(s: State, z: State) {
    |z.cells| == |s.cells| && forall p: nat :: p < |s.cells| && s.cells[p].Empty? ==> z.cells[p].Empty?
  }

  lemma SealedMove(s: State, id: nat, c: Call)
    requires id in s.calls && c.idx < |s.cells| && (Decrements(c.at) ==> s.pending > 0) && s.isFull != 0 && !MayAdd(c.at)
    ensures
      var z := MovePending(s, id, c);
      && z.isFull != 0 && id in z.calls && (MayAdd(z.calls[id].at) ==> z.calls == s.calls) && z.cells == s.cells
      && z.calls == s.calls[id := z.calls[id]]
  {}

  lemma SealedLook(s: State, id: nat, c: Call)
    requires id in s.calls && c.idx < |s.cells| && s.isFull != 0 && !MayAdd(c.at)
    ensures
      var z := MoveCell(s, id, c);
      && z.isFull != 0 && id in z.calls && (MayAdd(z.calls[id].at) ==> z.calls == s.calls) && EmptyStays(s, z)
      && z.calls == s.calls[id := z.calls[id]]
  {}

  /** In a later state the same keys block the same searches. */
  ghost predicate Later(s: State, z: State) {
    && WellFormed(s) && WellFormed(z) && z.anchor == s.anchor && |z.cells| == |s.cells|
    && forall p: nat, key: nat :: p < |s.cells| && Blocked(s.cells[p], key) ==> Blocked(z.cells[p], key)
  }

  lemma {:induction false} RunLater(states: seq<State>, events: seq<Event>, k: nat, m: nat)
    requires IsRun(states, events) && k <= m < |states|
    ensures Later(states[k], states[m])
    decreases m
  {
    hide Enabled, Apply, IsInit, CellOk, CallOk, Sealed;
    RunInv(states, events, k);
    if k < m {
      RunLater(states, events, k, m - 1);
      RunInv(states, events, m - 1);
      assert IsStep(states[m - 1], events[m - 1], states[m - 1 + 1]);
      StepEvolves(states[m - 1], events[m - 1]);
    }
  }

  lemma InvCounted(s: State)
    requires Inv(s)
    ensures Counted(s)
  {}

  lemma {:induction false} SealedStaysSealed(states: seq<State>, events: seq<Event>, k: nat, m: nat)
    requires IsRun(states, events) && k <= m < |states| && Sealed(states[k])
    ensures Sealed(states[m]) && EmptyStays(states[k], states[m])
    decreases m
  {
    hide Enabled, Apply, IsInit, CellOk, CallOk, Sealed;
    if k < m {
      SealedStaysSealed(states, events, k, m - 1);
      RunInv(states, events, m - 1);
      assert IsStep(states[m - 1], events[m - 1], states[m - 1 + 1]);
      InvCounted(states[m - 1]);
      SealedStep(states[m - 1], events[m - 1]);
      StepEvolves(states[m - 1], events[m - 1]);
    }
  }

  /** Once the full flag is set while nothing is pending, or says that nothing is pending, no empty
      cell is ever locked again. */
  lemma FullIsFinal(states: seq<State>, events: seq<Event>, k: nat, m: nat)
    requires IsRun(states, events) && k <= m < |states|
    requires states[k].isFull == NO_PENDING_INSERTS || (states[k].isFull != 0 && states[k].pending == 0)
    ensures EmptyStays(states[k], states[m])
  {
    hide IsRun, CellOk, CallOk, Sealed;
    RunInv(states, events, k);
    if states[k].isFull != NO_PENDING_INSERTS { NothingPending(states[k]); }
    SealedStaysSealed(states, events, k, m);
  }

  /** No cell holds the key, and none will. */
  ghost predicate AbsentFrom(states: seq<State>, k: nat, key: nat) {
    forall m: nat, p: nat :: k <= m < |states| && p < |states[m].cells| ==> !HasKey(states[m].cells[p], key)
  }

  /** An insert that returns without room is right for ever: its key is in no cell and never will be,
      whether it gave up because the array is full or after probing every cell. */
  lemma {:induction false} GivenUpIsAbsent(states: seq<State>, events: seq<Event>, k: nat, id: nat)
    requires IsRun(states, events) && k < |states| && id in states[k].calls && states[k].calls[id].kind.Insert?
    requires states[k].calls[id].at == Done(|states[k].cells|, false)
    ensures AbsentFrom(states, k, states[k].calls[id].key)
    decreases k
  {
    hide Inv, IsInit, AbsentFrom;
    assert k > 0 by { NoCallsAtStart(states[0]); }
    RunInv(states, events, k - 1);
    var s, e := states[k - 1], events[k - 1];
    assert IsStep(s, e, states[k - 1 + 1]);
    GivesUp(s, e, id);
    SameKeyLater(states, k, states[k].calls[id].key);
    if id in s.calls && s.calls[id] == states[k].calls[id] {
      GivenUpIsAbsent(states, events, k - 1, id);
    } else if s.calls[id].at.Recheck? {
      FullIsAbsent(states, events, k - 1, id);
    } else {
      ProbedIsAbsent(states, events, k - 1, id);
    }
  }

  lemma NoCallsAtStart(s: State)
    requires IsInit(s)
    ensures s.calls == map[]
  {}

  lemma SameKeyLater(states: seq<State>, k: nat, key: nat)
    requires k > 0
    ensures AbsentFrom(states, k - 1, key) ==> AbsentFrom(states, k, key)
  {}

  /** The two ways to return without room. */
  lemma GivesUp(s: State, e: Event, id: nat)
    requires Inv(s) && Enabled(s, e) && id in Apply(s, e).calls && Apply(s, e).calls[id].kind.Insert?
    requires Apply(s, e).calls[id].at == Done(|Apply(s, e).cells|, false)
    ensures id in s.calls && s.calls[id].key == Apply(s, e).calls[id].key && s.calls[id].kind.Insert?
    ensures |Apply(s, e).cells| == |s.cells|
    ensures
      var c := s.calls[id];
      || c == Apply(s, e).calls[id]
      || (c.idx < |s.cells| && c.at.Recheck? && s.cells[c.idx].Empty?)
      || (c.idx < |s.cells| && c.at.Compare? && c.probes + 1 >= |s.cells| && Blocked(s.cells[c.idx], c.key))
  {
    hide CellOk, CallOk, Sealed, Apply, Inv, AfterPending, AfterCell, MovePending;
    CallsAfter(s, e);
    if e.id == id && e.Move? {
      SameKey(s, s.calls[id]);
      if s.calls[id].kind.Insert? {
        InsertSteps(s, id);
        GivesUpAt(s, s.calls[id]);
      }
    }
  }

  /** What a step makes of the calls. */
  lemma CallsAfter(s: State, e: Event)
    requires Enabled(s, e)
    ensures
      var z := Apply(s, e);
      && |z.cells| == |s.cells| && z.calls == s.calls[e.id := z.calls[e.id]]
      && z.calls[e.id] ==
           (match e
            case Start(_, kind, key, value) => Call(kind, key, value, s.anchor(key), 0, FirstStep(kind), Target(s, key))
            case Throw(id) => s.calls[id].(at := DecThrow)
            case StopCounting(id) => s.calls[id].(at := Done(s.calls[id].idx, true))
            case Move(id) =>
              var c := s.calls[id];
              if OnCells(c.at) then AfterCell(s, c) else c.(at := AfterPending(s, c)))
  {
    hide AfterCell, AfterPending, Anchored;
  }

  lemma InsertSteps(s: State, id: nat)
    requires Inv(s) && Enabled(s, Move(id))
    ensures var c := s.calls[id];
            c.idx < |s.cells| && (c.kind.Insert? ==> !c.at.FindProbe? && !c.at.EraseProbe? && !c.at.EraseSwap? && !c.at.CountErase?)
  {
    hide CellOk, Sealed, Passed, TargetOk;
    assert CallOk(s, id);
  }

  lemma SameKey(s: State, c: Call)
    requires c.idx < |s.cells|
    ensures AfterCell(s, c).kind == c.kind && AfterCell(s, c).key == c.key
  {}

  lemma GivesUpAt(s: State, c: Call)
    requires c.idx < |s.cells| && !c.at.Done?
    requires !c.at.FindProbe? && !c.at.EraseProbe? && !c.at.EraseSwap? && !c.at.CountErase?
    ensures AfterPending(s, c) != Done(|s.cells|, false)
    ensures AfterCell(s, c).at == Done(|s.cells|, false) ==>
      || (c.at.Recheck? && s.cells[c.idx].Empty?)
      || (c.at.Compare? && c.probes + 1 >= |s.cells| && Blocked(s.cells[c.idx], c.key))
  {}

  /** Giving up at the recheck: an empty cell on the way will stay empty. */
  lemma FullIsAbsent(states: seq<State>, events: seq<Event>, k: nat, id: nat)
    requires IsRun(states, events) && k < |states| && id in states[k].calls && states[k].calls[id].at.Recheck?
    requires states[k].calls[id].idx < |states[k].cells| && states[k].calls[id].kind.Insert?
    requires states[k].cells[states[k].calls[id].idx].Empty?
    ensures AbsentFrom(states, k, states[k].calls[id].key)
  {
    hide IsRun, Sealed, CellOk, Passed;
    var s, c := states[k], states[k].calls[id];
    RunInv(states, events, k);
    assert CallOk(s, id);
    forall m: nat, p: nat | k <= m < |states| && p < |states[m].cells| ensures !HasKey(states[m].cells[p], c.key) {
      RunInv(states, events, m);
      SealedStaysSealed(states, events, k, m);
      RunLater(states, events, k, m);
      PassedLater(s, states[m], c.key, c.probes);
      EmptyOnTheWay(states[m], c.key, c.probes, p);
    }
  }

  /** Giving up after the last probe: every cell is taken by another key, or erased. */
  lemma ProbedIsAbsent(states: seq<State>, events: seq<Event>, k: nat, id: nat)
    requires IsRun(states, events) && k < |states| && id in states[k].calls && states[k].calls[id].at.Compare?
    requires var c, s := states[k].calls[id], states[k];
             c.idx < |s.cells| && c.kind.Insert? && c.probes + 1 >= |s.cells| && Blocked(s.cells[c.idx], c.key)
    ensures AbsentFrom(states, k, states[k].calls[id].key)
  {
    hide IsRun, Sealed, CellOk, Passed;
    var s, c := states[k], states[k].calls[id];
    RunInv(states, events, k);
    assert CallOk(s, id);
    PassedOneMore(s, c.key, c.probes);
    forall m: nat, p: nat | k <= m < |states| && p < |states[m].cells| ensures !HasKey(states[m].cells[p], c.key) {
      RunLater(states, events, k, m);
      PassedLater(s, states[m], c.key, |s.cells|);
      PositionDistance(states[m], c.key, 0, p);
      PassedAt(states[m], c.key, |s.cells|, Distance(states[m], c.key, p));
    }
  }

  lemma PassedLater(s: State, z: State, key: nat, n: nat)
    requires Later(s, z) && Passed(s, key, n)
    ensures Passed(z, key, n) && Position(z, key, n) == Position(s, key, n)
  {
    forall m: nat | m < n ensures Blocked(z.cells[Position(z, key, m)], key) {
      assert Blocked(s.cells[Position(s, key, m)], key);
    }
  }

  lemma EmptyOnTheWay(z: State, key: nat, n: nat, p: nat)
    requires Inv(z) && n < |z.cells| && p < |z.cells| && Passed(z, key, n) && z.cells[Position(z, key, n)].Empty?
    ensures !HasKey(z.cells[p], key)
  {
    hide CallOk, Sealed, Passed, CellOk;
    if HasKey(z.cells[p], key) {
      assert CellOk(z, p);
      PositionDistance(z, key, n, p);
      KeyPassed(z, key, p);
      if n < Distance(z, key, p) { PassedAt(z, key, Distance(z, key, p), n); }
      if Distance(z, key, p) < n { PassedAt(z, key, n, Distance(z, key, p)); }
    }
  }

  /** What size() computes when it reads both counters in a state: a 64-bit difference, which wraps when
      more erasures than entries have been counted. */
  function Size(s: State): uint64 {
    (s.entries - s.erases) % TWO64
  }

  function LiveKeys(s: State): set<nat> {
    set p: nat | p < |s.cells| && s.cells[p].Key?
  }

  /** The counters differ from the live keys by the calls that have filled or erased a cell and not
      counted it yet; pending counts the calls between their two updates of it. */
  lemma CountersAndKeys(states: seq<State>, events: seq<Event>, k: nat)
    requires IsRun(states, events) && k < |states|
    ensures
      var s := states[k];
      && s.entries + |s.uncounted| - s.erases - |s.uncountedErases| == |LiveKeys(s)|
      && s.pending == |set id | id in s.calls && CountsPending(s.calls[id].at)|
      && s.uncounted == (set id | id in s.calls && (s.calls[id].at.DecDone? || s.calls[id].at.IncEntries?))
      && s.uncountedErases == (set id | id in s.calls && s.calls[id].at.CountErase?)
  {
    hide IsRun, Sealed, Passed, TargetOk;
    RunInv(states, events, k);
    var s := states[k];
    LiveCells(s);
    assert forall id: nat :: id in s.calls ==> CallOk(s, id);
    assert s.pendingCalls == set id | id in s.calls && CountsPending(s.calls[id].at);
    assert s.uncounted == set id | id in s.calls && (s.calls[id].at.DecDone? || s.calls[id].at.IncEntries?);
    assert s.uncountedErases == set id | id in s.calls && s.calls[id].at.CountErase?;
    DifferenceSize(s.filled, s.erased);
  }

  /** size() is the number of live keys if and only if as many insertions as erasures are not counted
      yet; it is too large by 2^64 if and only if more erasures than entries are counted. */
  lemma SizeIsLiveKeys(states: seq<State>, events: seq<Event>, k: nat)
    requires IsRun(states, events) && k < |states| && |states[k].cells| < TWO64
    ensures
      var s := states[k];
      && (Size(s) == |LiveKeys(s)| <==> |s.uncounted| == |s.uncountedErases|)
      && Size(s) == s.entries - s.erases + (if s.erases > s.entries then TWO64 else 0)
  {
    hide IsRun, Sealed, Passed, TargetOk;
    RunInv(states, events, k);
    CountersAndKeys(states, events, k);
    CellsBound(states[k]);
    Wraps(states[k]);
  }

  lemma Wraps(s: State)
    requires s.entries < TWO64 && s.erases < TWO64
    ensures Size(s) == s.entries - s.erases + (if s.erases > s.entries then TWO64 else 0)
  {}

  /** No more cells are filled or erased than there are. */
  lemma CellsBound(s: State)
    requires Inv(s)
    ensures s.entries + |s.uncounted| <= |s.cells| && s.erases + |s.uncountedErases| <= |s.cells|
  {
    hide CellOk, CallOk, Sealed;
    IndicesBelow(s.filled, |s.cells|);
    IndicesBelow(s.erased, |s.cells|);
  }

  lemma {:induction false} IndicesBelow(a: set<nat>, n: nat)
    requires forall p :: p in a ==> p < n
    ensures |a| <= n
    decreases n
  {
    if n > 0 {
      IndicesBelow(a - {n - 1}, n - 1);
      assert |a| <= |a - {n - 1}| + 1 by {
        if n - 1 in a { assert a == (a - {n - 1}) + {n - 1}; } else { assert a == a - {n - 1}; }
      }
    } else {
      assert a == {};
    }
  }

  lemma LiveCells(s: State)
    requires Inv(s)
    ensures s.erased <= s.filled && LiveKeys(s) == s.filled - s.erased
  {
    hide CallOk, Sealed, Passed;
    forall p: nat | p < |s.cells|
      ensures (p in s.filled <==> s.cells[p].Key? || s.cells[p].Erased?) && (p in s.erased <==> s.cells[p].Erased?)
    {
      assert CellOk(s, p);
    }
  }

  lemma DifferenceSize(a: set<nat>, b: set<nat>)
    requires b <= a
    ensures |a - b| == |a| - |b|
  {
    assert a == (a - b) + b;
  }

  /** No call ever meets an index outside the array or takes a counter below zero. */
  lemma NeverStuck(states: seq<State>, events: seq<Event>, k: nat, id: nat)
    requires IsRun(states, events) && k < |states| && id in states[k].calls
    requires !states[k].calls[id].at.Done? && !states[k].calls[id].at.Threw?
    ensures Enabled(states[k], Move(id))
  {
    hide IsRun, CellOk, Sealed, Passed, TargetOk;
    RunInv(states, events, k);
    var s := states[k];
    assert CallOk(s, id);
    if s.pendingCalls != {} { assert |s.pendingCalls| > 0; }
  }

  // ----- the debug check and the full flag -----

  /** Only a value constructor that throws empties a cell. */
  lemma EmptiedByThrow(s: State, e: Event, p: nat)
    requires Enabled(s, e) && p < |s.cells| && !s.cells[p].Empty? && p < |Apply(s, e).cells| && Apply(s, e).cells[p].Empty?
    ensures e.Throw? && s.calls[e.id].idx == p
  {
    hide AfterCell, AfterPending, Anchored;
  }

  /** Since state i the call's constructor for cell p has thrown, and the cell has not been locked
      again up to state k. */
  ghost predicate Thrown(states: seq<State>, events: seq<Event>, i: nat, k: nat, j: nat, p: nat) {
    && i <= j < k <= |events| && k < |states| && events[j].Throw?
    && events[j].id in states[j].calls && states[j].calls[events[j].id].idx == p
    && forall m: nat :: j < m <= k ==> p < |states[m].cells| && states[m].cells[p].Empty?
  }

  /** The debug check that the cell is not empty comes after the call has seen a key or a lock in it.
      It fails if and only if that lock's owner has thrown in between, and nobody has locked the cell
      again. */
  lemma {:induction false} CheckFails(states: seq<State>, events: seq<Event>, i: nat, k: nat, p: nat)
    requires IsRun(states, events) && i <= k < |states| && p < |states[i].cells| && !states[i].cells[p].Empty?
    ensures p < |states[k].cells|
    ensures states[k].cells[p].Empty? <==> exists j: nat :: Thrown(states, events, i, k, j, p)
    decreases k
  {
    hide Inv, IsInit, Enabled, Apply;
    if i < k {
      CheckFails(states, events, i, k - 1, p);
      CellsEvolve(states, events, k - 1);
      var s, e := states[k - 1], events[k - 1];
      assert IsStep(s, e, states[k - 1 + 1]);
      if states[k].cells[p].Empty? {
        if s.cells[p].Empty? {
          var j: nat :| Thrown(states, events, i, k - 1, j, p);
          assert Thrown(states, events, i, k, j, p);
        } else {
          EmptiedByThrow(s, e, p);
          assert e.id in s.calls by { ThrowHasCall(s, e); }
          assert Thrown(states, events, i, k, k - 1, p);
        }
      }
    }
  }

  lemma ThrowHasCall(s: State, e: Event)
    requires Enabled(s, e) && e.Throw?
    ensures e.id in s.calls
  {}

  predicate BeforeCheck(at: Step) {
    at.CheckKey? || at.DecRetry?
  }

  /** A call on its way to the check saw its cell taken when it set out. */
  lemma {:induction false} SeenTaken(states: seq<State>, events: seq<Event>, k: nat, id: nat) returns (i: nat)
    requires IsRun(states, events) && k < |states| && id in states[k].calls && BeforeCheck(states[k].calls[id].at)
    ensures i < k && events[i] == Move(id)
    ensures var p := states[k].calls[id].idx; p < |states[i].cells| && !states[i].cells[p].Empty?
    ensures forall m: nat :: i < m <= k ==> id in states[m].calls && BeforeCheck(states[m].calls[id].at)
    decreases k
  {
    hide Inv, IsInit, Enabled, Apply;
    assert k > 0 by { NoCallsAtStart(states[0]); }
    var s, e := states[k - 1], events[k - 1];
    assert IsStep(s, e, states[k - 1 + 1]);
    CallsAfter(s, e);
    SeesKey(s, e);
    if id in s.calls && BeforeCheck(s.calls[id].at) {
      i := SeenTaken(states, events, k - 1, id);
    } else {
      OnlyMoves(s, e);
      i := k - 1;
    }
  }

  lemma OnlyMoves(s: State, e: Event)
    requires Enabled(s, e) && BeforeCheck(Apply(s, e).calls[e.id].at)
    ensures e == Move(e.id)
  {
    CallsAfter(s, e);
  }

  /** Where nothing throws the check holds. */
  lemma {:induction false} CheckHolds(states: seq<State>, events: seq<Event>, k: nat, id: nat)
    requires IsRun(states, events) && k < |states| && id in states[k].calls
    requires BeforeCheck(states[k].calls[id].at)
    requires forall j: nat :: j < k ==> !events[j].Throw?
    ensures states[k].calls[id].idx < |states[k].cells| && !states[k].cells[states[k].calls[id].idx].Empty?
    decreases k
  {
    hide Inv, IsInit, Enabled, Apply;
    assert k > 0 by { NoCallsAtStart(states[0]); }
    var s, e := states[k - 1], events[k - 1];
    assert IsStep(s, e, states[k - 1 + 1]);
    CallsAfter(s, e);
    SeesKey(s, e);
    if id in s.calls && BeforeCheck(s.calls[id].at) {
      CheckHolds(states, events, k - 1, id);
    }
    CellsEvolve(states, events, k - 1);
    var p := states[k].calls[id].idx;
    if p < |s.cells| && !s.cells[p].Empty? && states[k].cells[p].Empty? { EmptiedByThrow(s, e, p); }
  }

  /** What a call has seen when it goes to the check. */
  lemma SeesKey(s: State, e: Event)
    requires Enabled(s, e)
    ensures
      var c := Apply(s, e).calls[e.id];
      BeforeCheck(c.at) && !(e.id in s.calls && BeforeCheck(s.calls[e.id].at)) ==>
        c.idx < |s.cells| && !s.cells[c.idx].Empty?
    ensures
      e.id in s.calls && BeforeCheck(s.calls[e.id].at) ==> Apply(s, e).calls[e.id].idx == s.calls[e.id].idx
  {
    CallsAfter(s, e);
  }

  /** The full flag changes in two steps only; it goes from 2 to 1 exactly when a call that has found
      the array full stores its 1 after another has stored the 2. */
  lemma FlagSteps(states: seq<State>, events: seq<Event>, k: nat)
    requires IsRun(states, events) && k < |events|
    ensures
      var s, e, z := states[k], events[k], states[k + 1];
      && (z.isFull == NO_NEW_INSERTS && s.isFull != NO_NEW_INSERTS <==>
            e.Move? && s.calls[e.id].at.SetFull? && s.isFull != NO_NEW_INSERTS)
      && (z.isFull == NO_PENDING_INSERTS && s.isFull != NO_PENDING_INSERTS <==>
            e.Move? && s.calls[e.id].at.Seal? && s.isFull != NO_PENDING_INSERTS)
      && (s.isFull != 0 ==> z.isFull != 0)
  {
    hide IsInit, AfterCell, AfterPending, Anchored;
    assert IsStep(states[k], events[k], states[k + 1]);
  }
}
