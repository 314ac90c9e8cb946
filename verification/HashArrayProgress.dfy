/** AtomicHashArray makes progress: where all other calls are over, a call ends, and does what it is
    called for. */
module HashArrayProgress {
  import opened HashArray
  import opened HashArrayResults

  predicate Over(at: Step) {
    at.Done? || at.Threw?
  }

  /** All calls but this one are over. */
  ghost predicate OthersOver(s: State, id: nat) {
    forall i: nat :: i in s.calls && i != id ==> Over(s.calls[i].at)
  }

  /** A sequence of steps of one call, of which none throws. */
  ghost predicate Alone(states: seq<State>, events: seq<Event>, id: nat) {
    && |states| == |events| + 1
    && forall k: nat :: k < |events| ==> OwnStep(states[k], events[k], states[k + 1], id)
  }

  ghost predicate OwnStep(s: State, e: Event, z: State, id: nat) {
    e.id == id && !e.Throw? && IsStep(s, e, z)
  }

  lemma StepAndRest(s: State, e: Event, states: seq<State>, events: seq<Event>, id: nat)
    requires Alone(states, events, id) && Enabled(s, e) && e.id == id && !e.Throw? && states[0] == Apply(s, e)
    ensures Alone([s] + states, [e] + events, id)
  {
    hide Enabled, Apply;
    var more, all := [s] + states, [e] + events;
    forall k: nat | k < |all| ensures OwnStep(more[k], all[k], more[k + 1], id) {
      if k > 0 { assert OwnStep(states[k - 1], events[k - 1], states[k - 1 + 1], id); }
    }
  }

  // ----- how far a call is from its end -----

  /** Steps at one cell, in an order that depends on whether the cell is empty. */
  function Stage(at: Step, empty: bool): nat {
    match at
    case Probe => if empty then 40 else 23
    case IncPending => 30
    case CheckFull => 29
    case DecFull => 28
    case WaitFull => 27
    case WaitPending => 26
    case Seal => 25
    case Recheck => 24
    case TryLock => 20
    case DecRetry => if empty then 44 else 19
    case Fill => 5
    case DecDone => 4
    case IncEntries => 3
    case CheckMax => 2
    case SetFull => 1
    case DecThrow => 1
    case CheckKey => if empty then 43 else 18
    case LoadLocked => if empty then 42 else 17
    case Compare => if empty then 41 else 16
    case FindProbe => 3
    case EraseProbe => 3
    case EraseSwap => 2
    case CountErase => 1
    case Done(_, _) => 0
    case Threw => 0
  }

  ghost function StageOf(s: State, c: Call): nat {
    Stage(c.at, c.idx < |s.cells| && s.cells[c.idx].Empty?)
  }

  ghost function Unprobed(s: State, c: Call): nat {
    if c.probes < |s.cells| then |s.cells| - c.probes else 0
  }

  ghost predicate Nearer(s: State, c: Call, z: State, d: Call) {
    || Unprobed(z, d) < Unprobed(s, c)
    || (Unprobed(z, d) == Unprobed(s, c) && StageOf(z, d) < StageOf(s, c))
  }

  /** Nobody else is in the way. */
  ghost predicate Free(s: State, id: nat)
    requires id in s.calls
  {
    var c := s.calls[id];
    && c.idx < |s.cells| && (!Over(c.at) ==> c.probes < |s.cells|)
    && (s.cells[c.idx].Locked? ==> c.at.Fill?)
    && (c.at.WaitPending? ==> s.pending == 0)
    && (c.at.Fill? ==> s.cells[c.idx].Locked?)
  }

  lemma NobodyInTheWay(s: State, id: nat)
    requires Inv(s) && id in s.calls && OthersOver(s, id)
    ensures Free(s, id)
  {
    hide Sealed, Passed, TargetOk;
    assert CallOk(s, id);
    var c := s.calls[id];
    assert CellOk(s, c.idx);
    if c.at.WaitPending? {
      assert forall i: nat :: i in s.calls ==> CallOk(s, i);
      assert s.pendingCalls == {};
    }
  }

  /** The key is in no cell, some cell is free, and the array does not count as full. */
  ghost predicate RoomFor(s: State, key: nat) {
    && s.isFull == 0 && (forall p: nat :: p < |s.cells| ==> !HasKey(s.cells[p], key))
    && (exists p: nat :: p < |s.cells| && s.cells[p].Empty?)
  }

  /** An insert that will write its key, or has. */
  ghost predicate WillWrite(s: State, c: Call) {
    Written(c.at) || c.at.Fill? || (RoomFor(s, c.key) && !Over(c.at) && !c.at.DecThrow?)
  }

  /** What the steps of a call do to the cells, from where it stands as c to where it stands as d: a find
      changes none, an erase only the one it takes its key out of, an insert only the one it locks and
      writes; and that is the cell it returns. */
  ghost predicate Effect(s: State, c: Call, z: State, d: Call) {
    && |z.cells| == |s.cells|
    && (c.kind.Find? ==> z.cells == s.cells)
    && (c.kind.Erase? ==>
          if TakenOut(c.at) then TakenOut(d.at) && d.idx == c.idx && z.cells == s.cells
          else if TakenOut(d.at) then
            d.idx < |s.cells| && HasKey(s.cells[d.idx], c.key) && z.cells == s.cells[d.idx := Erased]
          else z.cells == s.cells)
    && (c.kind.Insert? ==>
          if Written(c.at) then Written(d.at) && d.idx == c.idx && z.cells == s.cells
          else if c.at.Fill? && d.at.Fill? then d.idx == c.idx && z.cells == s.cells
          else if c.at.Fill? || Written(d.at) then
            && Written(d.at) && d.idx < |s.cells| && z.cells == s.cells[d.idx := Key(c.key, c.value)]
            && (if c.at.Fill? then d.idx == c.idx else s.cells[d.idx].Empty?)
          else if d.at.Fill? then d.idx < |s.cells| && s.cells[d.idx].Empty? && z.cells == s.cells[d.idx := Locked]
          else z.cells == s.cells)
    && (!Over(c.at) && d.at.Done? ==>
          if d.at.success then
            if c.kind.Find? then d.at.result < |s.cells| && HasKey(s.cells[d.at.result], c.key) else d.at.result == d.idx
          else
            || d.at.result == |s.cells|
            || (c.kind.Insert? && d.at.result < |s.cells| && HasKey(s.cells[d.at.result], c.key)))
  }

  /** An insert that has not been let in before the array counts as full stays out. */
  ghost predicate StaysOut(s: State, c: Call, z: State, d: Call) {
    s.isFull != 0 && !MayAdd(c.at) && !Written(c.at) ==> z.isFull != 0 && !MayAdd(d.at) && !Written(d.at)
  }

  /** A step brings the call nearer to its end and does not change what it is about. */
  ghost predicate GoesOn(s: State, z: State, id: nat) {
    && id in s.calls && id in z.calls && z.anchor == s.anchor
    && z.calls == s.calls[id := z.calls[id]]
    && var c, d := s.calls[id], z.calls[id];
       && d.kind == c.kind && d.key == c.key && d.value == c.value && d.target == c.target
       && Nearer(s, c, z, d) && (!c.at.DecThrow? ==> !d.at.Threw? && !d.at.DecThrow?) && Effect(s, c, z, d)
       && (c.kind.Insert? ==> (WillWrite(s, c) ==> WillWrite(z, d)) && StaysOut(s, c, z, d))
  }

  lemma MoveGoesOn(s: State, id: nat)
    requires Inv(s) && id in s.calls && !Over(s.calls[id].at) && OthersOver(s, id) && Enabled(s, Move(id))
    ensures GoesOn(s, Apply(s, Move(id)), id)
  {
    hide Inv, Apply, Enabled, WellFormed, GoesOn, WillWrite, Free, Nearer, OthersOver, Unprobed, Effect, StaysOut;
    var c := s.calls[id];
    NobodyInTheWay(s, id);
    MoveIsNearer(s, id);
    MoveKeeps(s, id);
    MoveEffect(s, id);
    if c.kind.Insert? && WillWrite(s, c) { StillWrites(s, id); }
    if c.kind.Insert? { KeptOut(s, id); }
    MakesGoesOn(s, Apply(s, Move(id)), id);
  }

  lemma MakesGoesOn(s: State, z: State, id: nat)
    requires id in s.calls && id in z.calls && z.anchor == s.anchor
    requires z.calls == s.calls[id := z.calls[id]]
    requires
      var c, d := s.calls[id], z.calls[id];
      && d.kind == c.kind && d.key == c.key && d.value == c.value && d.target == c.target
      && Nearer(s, c, z, d) && (!c.at.DecThrow? ==> !d.at.Threw? && !d.at.DecThrow?) && Effect(s, c, z, d)
      && (c.kind.Insert? ==> (WillWrite(s, c) ==> WillWrite(z, d)) && StaysOut(s, c, z, d))
    ensures GoesOn(s, z, id)
  {}

  lemma MoveIsNearer(s: State, id: nat)
    requires Enabled(s, Move(id)) && Free(s, id)
    ensures id in Apply(s, Move(id)).calls && Nearer(s, s.calls[id], Apply(s, Move(id)), Apply(s, Move(id)).calls[id])
  {
    hide Apply, Anchored;
    CallsAfter(s, Move(id));
    CellsAfter(s, Move(id));
  }

  lemma MoveKeeps(s: State, id: nat)
    requires Inv(s) && Enabled(s, Move(id))
    ensures
      var z := Apply(s, Move(id));
      && id in z.calls && z.anchor == s.anchor && z.calls == s.calls[id := z.calls[id]]
      && var c, d := s.calls[id], z.calls[id];
         && d.kind == c.kind && d.key == c.key && d.value == c.value && d.target == c.target
         && (!c.at.DecThrow? ==> !d.at.Threw? && !d.at.DecThrow?)
  {
    hide Apply, Inv, Anchored;
    KindSteps(s, id);
    CallsAfter(s, Move(id));
    CellsAfter(s, Move(id));
    SameAnchor(s, Move(id));
  }

  lemma SameAnchor(s: State, e: Event)
    requires Enabled(s, e)
    ensures Apply(s, e).anchor == s.anchor
  {
    hide AfterCell, AfterPending, Anchored;
  }

  lemma MoveEffect(s: State, id: nat)
    requires Inv(s) && Enabled(s, Move(id)) && Free(s, id)
    ensures id in Apply(s, Move(id)).calls && Effect(s, s.calls[id], Apply(s, Move(id)), Apply(s, Move(id)).calls[id])
  {
    hide Apply, Inv, Anchored;
    KindSteps(s, id);
    CallsAfter(s, Move(id));
    CellsAfter(s, Move(id));
  }

  lemma EffectOfBoth(s: State, c: Call, z: State, d: Call, y: State, f: Call)
    requires Effect(s, c, z, d) && Effect(z, d, y, f) && d.kind == c.kind && d.key == c.key && d.value == c.value
    requires Over(d.at) ==> f == d
    ensures Effect(s, c, y, f)
  {}

  /** What keeps an insert from giving up. */
  lemma StillWrites(s: State, id: nat)
    requires Inv(s) && Enabled(s, Move(id)) && s.calls[id].kind.Insert? && WillWrite(s, s.calls[id]) && !Over(s.calls[id].at)
    ensures id in Apply(s, Move(id)).calls && WillWrite(Apply(s, Move(id)), Apply(s, Move(id)).calls[id])
  {
    hide Inv, Anchored, Apply, AfterCell, AfterPending, RoomFor;
    var c := s.calls[id];
    KindSteps(s, id);
    CallsAfter(s, Move(id));
    CellsAfter(s, Move(id));
    SameFlag(s, id);
    NotFullWhere(s, id);
    if !Written(c.at) && !c.at.Fill? {
      if c.at.Compare? { NotTheLastProbe(s, id); }
      RoomIsNotFull(s, c.key);
      StaysReady(s, c, Apply(s, Move(id)));
    } else {
      WritesOn(s, c);
    }
  }

  lemma RoomIsNotFull(s: State, key: nat)
    requires RoomFor(s, key)
    ensures s.isFull == 0
  {}

  lemma StaysReady(s: State, c: Call, z: State)
    requires c.idx < |s.cells| && c.kind.Insert? && RoomFor(s, c.key) && !Over(c.at) && !c.at.DecThrow? && !Written(c.at) && !c.at.Fill?
    requires !SawFull(c.at) && !c.at.FindProbe? && !c.at.EraseProbe? && !c.at.EraseSwap? && !c.at.CountErase?
    requires c.at.Compare? ==> s.cells[c.idx].Empty? || s.cells[c.idx].Locked? || c.probes + 1 < |s.cells|
    requires z.isFull == s.isFull
    requires z.cells == if OnCells(c.at) then s.cells[c.idx := NewCell(c, s.cells[c.idx])] else s.cells
    ensures
      var d := if OnCells(c.at) then AfterCell(s, c) else c.(at := AfterPending(s, c));
      d.key == c.key && (d.at.Fill? || (RoomFor(z, d.key) && !Over(d.at) && !d.at.DecThrow?))
  {
    var d := if OnCells(c.at) then AfterCell(s, c) else c.(at := AfterPending(s, c));
    if !d.at.Fill? { assert z.cells == s.cells; }
  }

  lemma WritesOn(s: State, c: Call)
    requires c.idx < |s.cells| && !Over(c.at) && (Written(c.at) || c.at.Fill?)
    ensures Written(if OnCells(c.at) then AfterCell(s, c).at else AfterPending(s, c))
  {}

  lemma KeptOut(s: State, id: nat)
    requires Inv(s) && Enabled(s, Move(id)) && s.calls[id].kind.Insert?
    ensures id in Apply(s, Move(id)).calls && StaysOut(s, s.calls[id], Apply(s, Move(id)), Apply(s, Move(id)).calls[id])
  {
    hide Inv, Anchored, Apply;
    KindSteps(s, id);
    CallsAfter(s, Move(id));
    FlagKept(s, id);
  }

  lemma FlagKept(s: State, id: nat)
    requires Enabled(s, Move(id))
    ensures s.isFull != 0 ==> Apply(s, Move(id)).isFull != 0
  {
    hide AfterCell, AfterPending, Anchored;
  }

  lemma SameFlag(s: State, id: nat)
    requires Enabled(s, Move(id))
    ensures s.calls[id].at.Seal? || s.calls[id].at.SetFull? || Apply(s, Move(id)).isFull == s.isFull
  {
    hide AfterCell, AfterPending, Anchored;
  }

  lemma NotFullWhere(s: State, id: nat)
    requires Inv(s) && id in s.calls
    ensures SawFull(s.calls[id].at) ==> s.isFull != 0
  {
    hide CellOk, Sealed, Passed, TargetOk;
    assert CallOk(s, id);
  }

  lemma NotTheLastProbe(s: State, id: nat)
    requires Inv(s) && id in s.calls && s.calls[id].kind.Insert? && s.calls[id].at.Compare? && RoomFor(s, s.calls[id].key)
    ensures
      var c := s.calls[id];
      c.idx < |s.cells| && (s.cells[c.idx].Empty? || s.cells[c.idx].Locked? || c.probes + 1 < |s.cells|)
  {
    hide CellOk, Sealed, Passed, TargetOk;
    var c := s.calls[id];
    assert CallOk(s, id);
    if !s.cells[c.idx].Empty? && !s.cells[c.idx].Locked? && c.probes + 1 >= |s.cells| {
      var p: nat :| p < |s.cells| && s.cells[p].Empty?;
      assert Blocked(s.cells[c.idx], c.key);
      PassedOneMore(s, c.key, c.probes);
      PositionDistance(s, c.key, 0, p);
      PassedAt(s, c.key, |s.cells|, Distance(s, c.key, p));
    }
  }

  // ----- alone to the end -----

  lemma {:induction false} Completes(s: State, id: nat) returns (states: seq<State>, events: seq<Event>)
    requires Inv(s) && id in s.calls && OthersOver(s, id)
    ensures Alone(states, events, id) && states[0] == s && Inv(states[|events|])
    ensures Over(s.calls[id].at) ==> events == []
    ensures
      var z := states[|events|];
      && id in z.calls && Over(z.calls[id].at)
      && var c, d := s.calls[id], z.calls[id];
         && d.kind == c.kind && d.key == c.key && d.value == c.value && d.target == c.target
         && (!c.at.DecThrow? && !c.at.Threw? ==> d.at.Done?) && Effect(s, c, z, d)
         && (c.kind.Insert? ==> (WillWrite(s, c) ==> Written(d.at)) && StaysOut(s, c, z, d))
    decreases Unprobed(s, s.calls[id]), StageOf(s, s.calls[id])
  {
    hide Inv, Enabled, Apply, OthersOver, StageOf, Unprobed, RoomFor, Effect;
    if Over(s.calls[id].at) {
      NoEffect(s, s.calls[id]);
      return [s], [];
    }
    MoveEnabled(s, id);
    MoveGoesOn(s, id);
    StepInv(s, Move(id));
    var z := Apply(s, Move(id));
    StillOver(s, z, id);
    states, events := Completes(z, id);
    EffectOfBoth(s, s.calls[id], z, z.calls[id], states[|events|], states[|events|].calls[id]);
    StepAndRest(s, Move(id), states, events, id);
    states, events := [s] + states, [Move(id)] + events;
  }

  lemma NoEffect(s: State, c: Call)
    requires Over(c.at)
    ensures Effect(s, c, s, c)
  {}

  lemma StillOver(s: State, z: State, id: nat)
    requires id in s.calls && id in z.calls && OthersOver(s, id) && z.calls == s.calls[id := z.calls[id]]
    ensures OthersOver(z, id)
  {}

  lemma MoveEnabled(s: State, id: nat)
    requires Inv(s) && id in s.calls && !Over(s.calls[id].at)
    ensures Enabled(s, Move(id))
  {
    hide CellOk, Sealed, Passed, TargetOk;
    assert CallOk(s, id);
    if s.pendingCalls != {} { assert |s.pendingCalls| > 0; }
  }

  // ----- from every reachable state where nothing is under way -----

  ghost predicate AllOver(s: State) {
    forall i: nat :: i in s.calls ==> Over(s.calls[i].at)
  }

  ghost predicate IsLive(s: State, key: nat, p: nat) {
    p < |s.cells| && HasKey(s.cells[p], key)
  }

  /** Where a call that began in s and ended in z says the key was. */
  ghost predicate Finds(s: State, z: State, id: nat, success: bool)
    requires id in z.calls
  {
    z.calls[id].at.Done? && z.calls[id].at.success == success && IsLive(s, z.calls[id].key, z.calls[id].at.result)
  }

  /** Nothing found, nothing done. */
  ghost predicate FindsNone(s: State, z: State, id: nat)
    requires id in z.calls
  {
    z.calls[id].at == Done(|s.cells|, false) && z.cells == s.cells
  }

  /** A new call that runs alone, and where it ends. */
  lemma RunsAlone(runStates: seq<State>, runEvents: seq<Event>, k: nat, id: nat, kind: Kind, key: nat, value: nat)
      returns (states: seq<State>, events: seq<Event>)
    requires IsRun(runStates, runEvents) && k < |runStates| && AllOver(runStates[k]) && id !in runStates[k].calls
    ensures Alone(states, events, id) && |events| > 0 && states[0] == runStates[k] && events[0] == Start(id, kind, key, value)
    ensures
      var s, z := runStates[k], states[|events|];
      && Inv(z) && id in z.calls && z.calls[id].at.Done?
      && z.calls[id].kind == kind && z.calls[id].key == key && z.calls[id].value == value
      && (forall p :: IsLive(s, key, p) ==> z.calls[id].target == p)
      && (kind.Insert? && RoomFor(s, key) ==> Written(z.calls[id].at))
      && (kind.Insert? && s.isFull != 0 ==> !Written(z.calls[id].at))
      && EndEffect(s, z, z.calls[id])
  {
    hide IsRun, Inv, Enabled, Apply, OthersOver, AllOver, RoomFor;
    var s := runStates[k];
    RunInv(runStates, runEvents, k);
    var z := Begins(s, id, kind, key, value);
    states, events := Completes(z, id);
    EndsWith(s, z, z.calls[id], states[|events|], states[|events|].calls[id]);
    StepAndRest(s, Start(id, kind, key, value), states, events, id);
    states, events := [s] + states, [Start(id, kind, key, value)] + events;
  }

  /** What a whole call does to the cells. */
  ghost predicate EndEffect(s: State, z: State, d: Call) {
    if d.kind.Insert? && Written(d.at) then
      d.idx < |s.cells| && s.cells[d.idx].Empty? && d.at == Done(d.idx, true) && z.cells == s.cells[d.idx := Key(d.key, d.value)]
    else if d.kind.Erase? && TakenOut(d.at) then
      d.at == Done(d.idx, true) && IsLive(s, d.key, d.idx) && z.cells == s.cells[d.idx := Erased]
    else
      && z.cells == s.cells && d.at.Done?
      && if d.at.success then d.kind.Find? && IsLive(s, d.key, d.at.result)
         else d.at.result == |s.cells| || (d.kind.Insert? && IsLive(s, d.key, d.at.result))
  }

  lemma EndsWith(s: State, z: State, c: Call, y: State, d: Call)
    requires z.cells == s.cells && Effect(z, c, y, d) && c.at == FirstStep(c.kind) && d.at.Done?
    requires d.kind == c.kind && d.key == c.key && d.value == c.value
    ensures EndEffect(s, y, d)
  {}

  lemma Begins(s: State, id: nat, kind: Kind, key: nat, value: nat) returns (z: State)
    requires Inv(s) && AllOver(s) && id !in s.calls
    ensures Enabled(s, Start(id, kind, key, value)) && z == Apply(s, Start(id, kind, key, value)) && Inv(z)
    ensures OthersOver(z, id) && z.cells == s.cells && z.isFull == s.isFull && id in z.calls
    ensures
      var c := z.calls[id];
      && c.kind == kind && c.key == key && c.value == value && c.at == FirstStep(kind)
      && (forall p :: IsLive(s, key, p) ==> c.target == p)
      && (kind.Insert? && RoomFor(s, key) ==> WillWrite(z, c))
  {
    hide Inv;
    InvWellFormed(s);
    StepInv(s, Start(id, kind, key, value));
    z := Apply(s, Start(id, kind, key, value));
    forall p | IsLive(s, key, p) ensures z.calls[id].target == p {
      var q: nat :| q < |s.cells| && HasKey(s.cells[q], key) && Target(s, key) == q;
      LiveCell(s, key, p, q);
    }
  }

  /** At the end, a live target has been found. */
  lemma TargetFound(z: State, id: nat)
    requires Inv(z) && id in z.calls && z.calls[id].at.Done? && 0 <= z.calls[id].target < |z.cells|
    requires HasKey(z.cells[z.calls[id].target], z.calls[id].key)
    ensures z.calls[id].at.result == z.calls[id].target && (z.calls[id].at.success <==> !z.calls[id].kind.Insert?)
  {
    hide CellOk, Sealed, Passed;
    assert CallOk(z, id);
  }

  /** Where no other call is under way, a find returns the cell of the key if it has one, and nothing
      otherwise. */
  lemma FindsAlone(runStates: seq<State>, runEvents: seq<Event>, k: nat, id: nat, key: nat)
      returns (states: seq<State>, events: seq<Event>)
    requires IsRun(runStates, runEvents) && k < |runStates| && AllOver(runStates[k]) && id !in runStates[k].calls
    ensures Alone(states, events, id) && |events| > 0 && states[0] == runStates[k] && events[0] == Start(id, Find, key, 0)
    ensures
      var s, z := runStates[k], states[|events|];
      && id in z.calls && z.cells == s.cells
      && if exists p :: IsLive(s, key, p) then Finds(s, z, id, true) else FindsNone(s, z, id)
  {
    hide IsRun, Inv, AllOver, RoomFor;
    states, events := RunsAlone(runStates, runEvents, k, id, Find, key, 0);
    var s, z := runStates[k], states[|events|];
    if p: nat :| IsLive(s, key, p) { TargetFound(z, id); }
  }

  /** An erase takes the key out of its cell if it has one, and does nothing otherwise. */
  lemma ErasesAlone(runStates: seq<State>, runEvents: seq<Event>, k: nat, id: nat, key: nat)
      returns (states: seq<State>, events: seq<Event>)
    requires IsRun(runStates, runEvents) && k < |runStates| && AllOver(runStates[k]) && id !in runStates[k].calls
    ensures Alone(states, events, id) && |events| > 0 && states[0] == runStates[k] && events[0] == Start(id, Kind.Erase, key, 0)
    ensures
      var s, z := runStates[k], states[|events|];
      && id in z.calls
      && if exists p :: IsLive(s, key, p) then
           Finds(s, z, id, true) && z.cells == s.cells[z.calls[id].at.result := Erased]
         else FindsNone(s, z, id)
  {
    hide IsRun, Inv, AllOver, RoomFor;
    states, events := RunsAlone(runStates, runEvents, k, id, Kind.Erase, key, 0);
    var s, z := runStates[k], states[|events|];
    if p: nat :| IsLive(s, key, p) {
      if !TakenOut(z.calls[id].at) { TargetFound(z, id); }
      OnlyLive(runStates, runEvents, k, key);
    }
  }

  lemma OnlyLive(runStates: seq<State>, runEvents: seq<Event>, k: nat, key: nat)
    requires IsRun(runStates, runEvents) && k < |runStates|
    ensures forall p: nat, q: nat :: IsLive(runStates[k], key, p) && IsLive(runStates[k], key, q) ==> p == q
  {
    hide IsRun, Inv;
    RunInv(runStates, runEvents, k);
    forall p: nat, q: nat | IsLive(runStates[k], key, p) && IsLive(runStates[k], key, q) ensures p == q {
      LiveCell(runStates[k], key, p, q);
    }
  }

  /** An insert reports the cell of the key if it has one; writes key and value into a free cell if there
      is one and the array does not count as full; and returns without room otherwise. */
  lemma InsertsAlone(runStates: seq<State>, runEvents: seq<Event>, k: nat, id: nat, key: nat, value: nat)
      returns (states: seq<State>, events: seq<Event>)
    requires IsRun(runStates, runEvents) && k < |runStates| && AllOver(runStates[k]) && id !in runStates[k].calls
    ensures Alone(states, events, id) && |events| > 0 && states[0] == runStates[k] && events[0] == Start(id, Insert, key, value)
    ensures
      var s, z := runStates[k], states[|events|];
      && id in z.calls
      && if exists p :: IsLive(s, key, p) then Finds(s, z, id, false) && z.cells == s.cells
         else if RoomFor(s, key) then Inserted(s, z, id, key, value)
         else FindsNone(s, z, id)
  {
    hide IsRun, Inv, AllOver;
    states, events := RunsAlone(runStates, runEvents, k, id, Insert, key, value);
    var s, z := runStates[k], states[|events|];
    if p: nat :| IsLive(s, key, p) {
      OnlyLive(runStates, runEvents, k, key);
      if Written(z.calls[id].at) {
        LiveCell(z, key, p, z.calls[id].idx);
      } else {
        TargetFound(z, id);
      }
    } else {
      forall p: nat | p < |s.cells| ensures !HasKey(s.cells[p], key) { assert !IsLive(s, key, p); }
      assert z.calls[id].at.success ==> RoomFor(s, key);
    }
  }

  ghost predicate Inserted(s: State, z: State, id: nat, key: nat, value: nat)
    requires id in z.calls
  {
    var at := z.calls[id].at;
    at.Done? && at.success && at.result < |s.cells| && s.cells[at.result].Empty? && z.cells == s.cells[at.result := Key(key, value)]
  }
}
