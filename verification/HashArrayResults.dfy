/** What the results of AtomicHashArray's calls mean, over whole runs: who filled a cell, who erased
    one, and when the key was there or was not. */
module HashArrayResults {
  import opened HashArray

  // ----- what a step does to a cell -----

  /** The step writes a key into the cell. */
  ghost predicate Fills(states: seq<State>, events: seq<Event>, j: nat, id: nat, i: nat) {
    && j < |events| && j + 1 < |states| && events[j] == Move(id) && i < |states[j].cells| && i < |states[j + 1].cells|
    && !states[j].cells[i].Key? && states[j + 1].cells[i].Key?
  }

  /** The step takes a key out of the cell. */
  ghost predicate Erases(states: seq<State>, events: seq<Event>, j: nat, id: nat, i: nat) {
    && j < |events| && j + 1 < |states| && events[j] == Move(id) && i < |states[j].cells| && i < |states[j + 1].cells|
    && states[j].cells[i].Key? && !states[j + 1].cells[i].Key?
  }

  lemma CellsAfter(s: State, e: Event)
    requires Enabled(s, e)
    ensures
      Apply(s, e).cells ==
        (match e
         case Throw(id) => s.cells[s.calls[id].idx := Empty]
         case Move(id) =>
           var c := s.calls[id];
           if OnCells(c.at) then s.cells[c.idx := NewCell(c, s.cells[c.idx])] else s.cells
         case _ => s.cells)
  {
    hide AfterCell, AfterPending, Anchored, NewCell;
  }

  /** Which steps belong to which calls. */
  lemma KindSteps(s: State, id: nat)
    requires Inv(s) && id in s.calls
    ensures
      var c := s.calls[id];
      && c.idx < |s.cells|
      && (c.kind.Find? ==> c.at.FindProbe? || c.at.Done?)
      && (c.kind.Erase? ==> c.at.EraseProbe? || c.at.EraseSwap? || c.at.CountErase? || c.at.Done?)
      && (c.kind.Insert? ==> !c.at.FindProbe? && !c.at.EraseProbe? && !c.at.EraseSwap? && !c.at.CountErase?)
      && (c.at.Fill? ==> s.cells[c.idx].Locked?)
  {
    hide Sealed, Passed, TargetOk, CellOk;
    assert CallOk(s, id);
  }

  lemma FillStep(s: State, e: Event, p: nat)
    requires Enabled(s, e) && p < |s.cells| && p < |Apply(s, e).cells|
    requires !s.cells[p].Key? && Apply(s, e).cells[p].Key?
    ensures e.Move? && e.id in s.calls && s.calls[e.id].at.Fill? && s.calls[e.id].idx == p
    ensures Apply(s, e).cells[p] == Key(s.calls[e.id].key, s.calls[e.id].value)
  {
    hide Apply, WellFormed;
    CellsAfter(s, e);
  }

  lemma EraseStep(s: State, e: Event, p: nat)
    requires Inv(s) && Enabled(s, e) && p < |s.cells| && p < |Apply(s, e).cells|
    requires s.cells[p].Key? && !Apply(s, e).cells[p].Key?
    ensures e.Move? && e.id in s.calls && s.calls[e.id].at.EraseSwap? && s.calls[e.id].idx == p
    ensures HasKey(s.cells[p], s.calls[e.id].key) && Apply(s, e).cells[p].Erased?
  {
    hide Apply, Inv, WellFormed;
    CellsAfter(s, e);
    if !e.Start? { KindSteps(s, e.id); }
  }

  // ----- calls over a run -----

  /** The call has begun and not changed what it is about. */
  ghost predicate SameCall(s: State, c: Call, id: nat) {
    id in s.calls && s.calls[id].kind == c.kind && s.calls[id].key == c.key && s.calls[id].value == c.value
  }

  lemma SameCallStep(s: State, e: Event, id: nat)
    requires Enabled(s, e) && id in s.calls
    ensures SameCall(Apply(s, e), s.calls[id], id) && (e.id != id ==> Apply(s, e).calls[id] == s.calls[id])
  {
    hide AfterCell, AfterPending;
    CallsAfter(s, e);
    if !e.Start? && s.calls[id].idx < |s.cells| { SameRest(s, s.calls[id]); }
  }

  lemma SameRest(s: State, c: Call)
    requires c.idx < |s.cells|
    ensures
      var d := AfterCell(s, c);
      d.kind == c.kind && d.key == c.key && d.value == c.value
  {}

  lemma {:induction false} CallStays(states: seq<State>, events: seq<Event>, m: nat, k: nat, id: nat)
    requires IsRun(states, events) && m <= k < |states| && id in states[m].calls
    ensures SameCall(states[k], states[m].calls[id], id)
    decreases k
  {
    hide Enabled, Apply, IsInit;
    if m < k {
      CallStays(states, events, m, k - 1, id);
      assert IsStep(states[k - 1], events[k - 1], states[k - 1 + 1]);
      SameCallStep(states[k - 1], events[k - 1], id);
    }
  }

  /** When the call began. */
  lemma {:induction false} Began(states: seq<State>, events: seq<Event>, k: nat, id: nat) returns (b: nat)
    requires IsRun(states, events) && k < |states| && id in states[k].calls
    ensures b < k && events[b].Start? && events[b].id == id && events[b].key == states[k].calls[id].key
    ensures forall m: nat :: b < m <= k ==> id in states[m].calls
    decreases k
  {
    hide Enabled, Apply, IsInit;
    assert k > 0 by { NoCallsAtStart(states[0]); }
    var s, e := states[k - 1], events[k - 1];
    assert IsStep(s, e, states[k - 1 + 1]);
    CallsAfter(s, e);
    if id in s.calls {
      SameCallStep(s, e, id);
      b := Began(states, events, k - 1, id);
    } else {
      FirstIsStart(s, e, id);
      b := k - 1;
    }
  }

  lemma FirstIsStart(s: State, e: Event, id: nat)
    requires Enabled(s, e) && id !in s.calls && id in Apply(s, e).calls
    ensures e.Start? && e.id == id && Apply(s, e).calls[id].key == e.key
  {
    CallsAfter(s, e);
  }

  /** While the call was under way, the cell held its key. */
  ghost predicate WasThere(states: seq<State>, k: nat, id: nat, i: nat) {
    exists m: nat :: HadKey(states, k, m, id, i)
  }

  ghost predicate HadKey(states: seq<State>, k: nat, m: nat, id: nat, i: nat) {
    && m <= k < |states| && id in states[m].calls && i < |states[m].cells|
    && HasKey(states[m].cells[i], states[m].calls[id].key)
  }

  /** While the call was under way, its key was in no cell. */
  ghost predicate WasAbsent(states: seq<State>, k: nat, id: nat) {
    exists m: nat :: NoKey(states, k, m, id)
  }

  ghost predicate NoKey(states: seq<State>, k: nat, m: nat, id: nat) {
    && m <= k < |states| && id in states[m].calls
    && forall p: nat :: p < |states[m].cells| ==> !HasKey(states[m].cells[p], states[m].calls[id].key)
  }

  // ----- insert -----

  /** The insert has written its key. */
  predicate Written(at: Step) {
    at.DecDone? || at.IncEntries? || at.CheckMax? || at.SetFull? || (at.Done? && at.success)
  }

  lemma WrittenStep(s: State, e: Event, id: nat)
    requires Inv(s) && Enabled(s, e) && id in s.calls && s.calls[id].kind.Insert? && Written(s.calls[id].at)
    ensures id in Apply(s, e).calls && Written(Apply(s, e).calls[id].at) && Apply(s, e).calls[id].idx == s.calls[id].idx
    ensures s.calls[id].at.Done? ==> Apply(s, e).calls[id].at == s.calls[id].at
    ensures
      var at := Apply(s, e).calls[id].at;
      at.Done? ==> at == s.calls[id].at || at.result == s.calls[id].idx
  {
    hide Apply, Inv, WellFormed;
    CallsAfter(s, e);
    CellsAfter(s, e);
    KindSteps(s, id);
  }

  lemma BecomesWritten(s: State, e: Event, id: nat)
    requires Inv(s) && Enabled(s, e) && id in Apply(s, e).calls && Apply(s, e).calls[id].kind.Insert?
    requires Written(Apply(s, e).calls[id].at) && !(id in s.calls && Written(s.calls[id].at))
    ensures e == Move(id) && id in s.calls && s.calls[id].at.Fill? && Apply(s, e).calls[id].at == DecDone
    ensures
      var i := s.calls[id].idx;
      && Apply(s, e).calls[id].idx == i < |s.cells| == |Apply(s, e).cells|
      && !s.cells[i].Key? && Apply(s, e).cells[i] == Key(s.calls[id].key, s.calls[id].value)
  {
    hide Apply, Inv, WellFormed;
    CallsAfter(s, e);
    CellsAfter(s, e);
    if !e.Start? { KindSteps(s, e.id); }
  }

  /** An insert that has written its key did so in the cell where it stands. */
  lemma {:induction false} WroteIt(states: seq<State>, events: seq<Event>, k: nat, id: nat) returns (j: nat)
    requires IsRun(states, events) && k < |states| && id in states[k].calls
    requires states[k].calls[id].kind.Insert? && Written(states[k].calls[id].at)
    ensures j < k && Fills(states, events, j, id, states[k].calls[id].idx)
    ensures states[j + 1].cells[states[k].calls[id].idx] == Key(states[k].calls[id].key, states[k].calls[id].value)
    ensures states[k].calls[id].at.Done? ==> states[k].calls[id].at.result == states[k].calls[id].idx
    decreases k
  {
    hide Enabled, Apply, IsInit, Inv;
    assert k > 0 by { NoCallsAtStart(states[0]); }
    RunInv(states, events, k - 1);
    var s, e := states[k - 1], events[k - 1];
    assert IsStep(s, e, states[k - 1 + 1]);
    if id in s.calls { SameCallStep(s, e, id); }
    if id in s.calls && Written(s.calls[id].at) {
      WrittenStep(s, e, id);
      j := WroteIt(states, events, k - 1, id);
    } else {
      BecomesWritten(s, e, id);
      j := k - 1;
    }
  }

  /** A call that has filled a cell is an insert that has written its key, there, from then on. */
  lemma {:induction false} FilledForEver(states: seq<State>, events: seq<Event>, j: nat, k: nat, id: nat, i: nat)
    requires IsRun(states, events) && j < k < |states| && Fills(states, events, j, id, i)
    ensures id in states[k].calls && states[k].calls[id].kind.Insert? && Written(states[k].calls[id].at)
    ensures states[k].calls[id].idx == i
    decreases k
  {
    hide Enabled, Apply, IsInit, Inv;
    RunInv(states, events, k - 1);
    var s, e := states[k - 1], events[k - 1];
    assert IsStep(s, e, states[k - 1 + 1]);
    if j < k - 1 {
      FilledForEver(states, events, j, k - 1, id, i);
      SameCallStep(s, e, id);
      WrittenStep(s, e, id);
    } else {
      FillStep(s, e, i);
      AfterFill(s, id);
    }
  }

  lemma AfterFill(s: State, id: nat)
    requires Inv(s) && Enabled(s, Move(id)) && s.calls[id].at.Fill?
    ensures
      var z := Apply(s, Move(id));
      id in z.calls && z.calls[id].kind.Insert? && z.calls[id].at == DecDone && z.calls[id].idx == s.calls[id].idx
  {
    hide Apply, Inv, WellFormed;
    KindSteps(s, id);
    CallsAfter(s, Move(id));
  }

  /** The collision an insert reports was one. */
  lemma CollisionStep(s: State, e: Event, id: nat)
    requires Inv(s) && Enabled(s, e) && id in Apply(s, e).calls && Apply(s, e).calls[id].kind.Insert?
    requires Apply(s, e).calls[id].at.Done? && !Apply(s, e).calls[id].at.success
    requires Apply(s, e).calls[id].at.result != |Apply(s, e).cells|
    ensures id in s.calls
    ensures s.calls[id] == Apply(s, e).calls[id]
         || (Apply(s, e).calls[id].at.result < |s.cells| && HasKey(s.cells[Apply(s, e).calls[id].at.result], s.calls[id].key))
    ensures |Apply(s, e).cells| == |s.cells|
  {
    hide Apply, Inv, WellFormed;
    CallsAfter(s, e);
    CellsAfter(s, e);
    if !e.Start? { KindSteps(s, e.id); }
  }

  lemma {:induction false} Collided(states: seq<State>, events: seq<Event>, k: nat, id: nat)
    requires IsRun(states, events) && k < |states| && id in states[k].calls && states[k].calls[id].kind.Insert?
    requires states[k].calls[id].at.Done? && !states[k].calls[id].at.success
    requires states[k].calls[id].at.result != |states[k].cells|
    ensures WasThere(states, k, id, states[k].calls[id].at.result)
    decreases k
  {
    hide Enabled, Apply, IsInit, Inv;
    assert k > 0 by { NoCallsAtStart(states[0]); }
    RunInv(states, events, k - 1);
    var s, e, i := states[k - 1], events[k - 1], states[k].calls[id].at.result;
    assert IsStep(s, e, states[k - 1 + 1]);
    CollisionStep(s, e, id);
    if s.calls[id] == states[k].calls[id] {
      Collided(states, events, k - 1, id);
      var m: nat :| HadKey(states, k - 1, m, id, i);
      assert HadKey(states, k, m, id, i);
    } else {
      assert HadKey(states, k, k - 1, id, i);
    }
  }

  /** An insert succeeds if and only if it wrote its key and value into the cell it returns, and it
      wrote nowhere else; otherwise the key was in the cell it returns while the insert was under way,
      or there was no room. */
  lemma InsertResults(states: seq<State>, events: seq<Event>, k: nat, id: nat)
    requires IsRun(states, events) && k < |states| && id in states[k].calls
    requires states[k].calls[id].kind.Insert? && states[k].calls[id].at.Done?
    ensures
      var c := states[k].calls[id];
      && (c.at.success <==> exists j: nat :: j < k && Fills(states, events, j, id, c.at.result))
      && (c.at.success ==> exists j: nat :: j < k && WritesAt(states, events, j, id, c))
      && (forall j: nat, i: nat :: j < k && Fills(states, events, j, id, i) ==> c.at.success && i == c.at.result)
      && (!c.at.success ==> c.at.result == |states[k].cells| || WasThere(states, k, id, c.at.result))
  {
    hide IsRun, Inv;
    var c := states[k].calls[id];
    if c.at.success {
      var j := WroteIt(states, events, k, id);
      assert WritesAt(states, events, j, id, c);
    } else if c.at.result != |states[k].cells| {
      Collided(states, events, k, id);
    }
    forall j: nat, i: nat | j < k && Fills(states, events, j, id, i) ensures c.at.success && i == c.at.result {
      FilledForEver(states, events, j, k, id, i);
      var j2 := WroteIt(states, events, k, id);
    }
  }

  ghost predicate WritesAt(states: seq<State>, events: seq<Event>, j: nat, id: nat, c: Call) {
    && c.at.Done? && Fills(states, events, j, id, c.at.result)
    && states[j + 1].cells[c.at.result] == Key(c.key, c.value)
  }

  // ----- erase -----

  /** The erase has taken its key out. */
  predicate TakenOut(at: Step) {
    at.CountErase? || (at.Done? && at.success)
  }

  lemma EraseCallStep(s: State, e: Event, id: nat)
    requires Inv(s) && Enabled(s, e) && id in Apply(s, e).calls && Apply(s, e).calls[id].kind.Erase?
    ensures
      var z := Apply(s, e);
      if id in s.calls && TakenOut(s.calls[id].at) then
        && TakenOut(z.calls[id].at) && z.calls[id].idx == s.calls[id].idx
        && (z.calls[id].at.Done? ==> z.calls[id].at == s.calls[id].at || z.calls[id].at.result == s.calls[id].idx)
      else TakenOut(z.calls[id].at) ==>
        && e == Move(id) && id in s.calls && z.calls[id].idx == s.calls[id].idx < |s.cells| == |z.cells|
        && HasKey(s.cells[s.calls[id].idx], s.calls[id].key) && z.cells[s.calls[id].idx].Erased?
        && !z.calls[id].at.Done?
  {
    hide Apply, Inv, WellFormed;
    CallsAfter(s, e);
    CellsAfter(s, e);
    if !e.Start? { KindSteps(s, e.id); }
  }

  lemma {:induction false} TookIt(states: seq<State>, events: seq<Event>, k: nat, id: nat) returns (j: nat)
    requires IsRun(states, events) && k < |states| && id in states[k].calls
    requires states[k].calls[id].kind.Erase? && TakenOut(states[k].calls[id].at)
    ensures j < k && Erases(states, events, j, id, states[k].calls[id].idx)
    ensures HasKey(states[j].cells[states[k].calls[id].idx], states[k].calls[id].key)
    ensures states[k].calls[id].at.Done? ==> states[k].calls[id].at.result == states[k].calls[id].idx
    decreases k
  {
    hide Enabled, Apply, IsInit, Inv;
    assert k > 0 by { NoCallsAtStart(states[0]); }
    RunInv(states, events, k - 1);
    var s, e := states[k - 1], events[k - 1];
    assert IsStep(s, e, states[k - 1 + 1]);
    EraseCallStep(s, e, id);
    if id in s.calls { SameCallStep(s, e, id); }
    if id in s.calls && TakenOut(s.calls[id].at) {
      j := TookIt(states, events, k - 1, id);
    } else {
      j := k - 1;
    }
  }

  lemma {:induction false} TakenForEver(states: seq<State>, events: seq<Event>, j: nat, k: nat, id: nat, i: nat)
    requires IsRun(states, events) && j < k < |states| && Erases(states, events, j, id, i)
    ensures id in states[k].calls && states[k].calls[id].kind.Erase? && TakenOut(states[k].calls[id].at)
    ensures states[k].calls[id].idx == i
    decreases k
  {
    hide Enabled, Apply, IsInit, Inv;
    RunInv(states, events, k - 1);
    var s, e := states[k - 1], events[k - 1];
    assert IsStep(s, e, states[k - 1 + 1]);
    if j < k - 1 {
      TakenForEver(states, events, j, k - 1, id, i);
      SameCallStep(s, e, id);
      EraseCallStep(s, e, id);
    } else {
      EraseStep(s, e, i);
      AfterSwap(s, id);
    }
  }

  lemma AfterSwap(s: State, id: nat)
    requires Inv(s) && Enabled(s, Move(id)) && s.calls[id].at.EraseSwap?
    requires s.calls[id].idx < |s.cells| && HasKey(s.cells[s.calls[id].idx], s.calls[id].key)
    ensures
      var z := Apply(s, Move(id));
      id in z.calls && z.calls[id].kind.Erase? && z.calls[id].at == CountErase && z.calls[id].idx == s.calls[id].idx
  {
    hide Apply, Inv, WellFormed;
    KindSteps(s, id);
    CallsAfter(s, Move(id));
  }

  // ----- keys that were not there -----

  /** The key leaves its only cell, and is nowhere. */
  lemma LastOneLeaves(s: State, e: Event, key: nat, p: nat)
    requires Inv(s) && Enabled(s, e) && p < |s.cells| == |Apply(s, e).cells|
    requires HasKey(s.cells[p], key) && !HasKey(Apply(s, e).cells[p], key)
    ensures forall q: nat :: q < |Apply(s, e).cells| ==> !HasKey(Apply(s, e).cells[q], key)
  {
    hide CellOk, CallOk, Sealed, Apply, Inv;
    var z := Apply(s, e);
    StepEvolves(s, e);
    EraseStep(s, e, p);
    forall q: nat | q < |z.cells| ensures !HasKey(z.cells[q], key) {
      if HasKey(z.cells[q], key) {
        if s.cells[q].Key? {
          LiveCell(s, key, p, q);
        } else {
          FillStep(s, e, q);
        }
      }
    }
  }

  /** The key was in the cell, is not any more, and so was nowhere in between. */
  lemma {:induction false} LeftInBetween(states: seq<State>, events: seq<Event>, m: nat, k: nat, id: nat, p: nat)
    requires IsRun(states, events) && m <= k < |states| && id in states[m].calls && id in states[k].calls
    requires p < |states[m].cells| && HasKey(states[m].cells[p], states[m].calls[id].key)
    requires p < |states[k].cells| && !HasKey(states[k].cells[p], states[k].calls[id].key)
    ensures WasAbsent(states, k, id)
    decreases k
  {
    hide Enabled, Apply, IsInit, Inv;
    CallStays(states, events, m, k, id);
    assert m < k;
    CallStays(states, events, m, k - 1, id);
    RunInv(states, events, k - 1);
    var s, e := states[k - 1], events[k - 1];
    assert IsStep(s, e, states[k - 1 + 1]);
    CellsEvolve(states, events, k - 1);
    if HasKey(s.cells[p], s.calls[id].key) {
      LastOneLeaves(s, e, s.calls[id].key, p);
      assert NoKey(states, k, k, id);
    } else {
      LeftInBetween(states, events, m, k - 1, id, p);
      var n: nat :| NoKey(states, k - 1, n, id);
      assert NoKey(states, k, n, id);
    }
  }

  /** A find or an erase without success: there was a moment, while it was under way, when its key was
      in no cell. */
  lemma FailureIsRight(states: seq<State>, events: seq<Event>, k: nat, id: nat)
    requires IsRun(states, events) && k < |states| && id in states[k].calls
    requires !states[k].calls[id].kind.Insert? && states[k].calls[id].at.Done? && !states[k].calls[id].at.success
    ensures WasAbsent(states, k, id)
  {
    hide Enabled, Apply, IsInit, Inv;
    var b := Began(states, events, k, id);
    CallStays(states, events, b + 1, k, id);
    assert IsStep(states[b], events[b], states[b + 1]);
    RunInv(states, events, b);
    StartLooksOn(states[b], events[b]);
    var key := states[k].calls[id].key;
    if p: nat :| p < |states[b].cells| && HasKey(states[b].cells[p], key) {
      TargetIsTheCell(states, events, b, p);
      TargetStays(states, events, b + 1, k, id);
      SameLength(states, events, b + 1, k);
      if HasKey(states[k].cells[p], key) {
        PresentIsFound(states, events, k, id);
      } else {
        LeftInBetween(states, events, b + 1, k, id, p);
      }
    } else {
      assert NoKey(states, k, b + 1, id);
    }
  }

  lemma StartLooksOn(s: State, e: Event)
    requires Enabled(s, e) && e.Start?
    ensures Apply(s, e).cells == s.cells
  {}

  lemma {:induction false} TargetStays(states: seq<State>, events: seq<Event>, m: nat, k: nat, id: nat)
    requires IsRun(states, events) && m <= k < |states| && id in states[m].calls
    ensures id in states[k].calls && states[k].calls[id].target == states[m].calls[id].target
    decreases k
  {
    hide Enabled, Apply, IsInit;
    if m < k {
      TargetStays(states, events, m, k - 1, id);
      assert IsStep(states[k - 1], events[k - 1], states[k - 1 + 1]);
      SameTarget(states[k - 1], events[k - 1], id);
    }
  }

  lemma SameTarget(s: State, e: Event, id: nat)
    requires Enabled(s, e) && id in s.calls
    ensures id in Apply(s, e).calls && Apply(s, e).calls[id].target == s.calls[id].target
  {
    CallsAfter(s, e);
  }

  lemma {:induction false} SameLength(states: seq<State>, events: seq<Event>, m: nat, k: nat)
    requires IsRun(states, events) && m <= k < |states|
    ensures |states[k].cells| == |states[m].cells|
    decreases k
  {
    hide Enabled, Apply, IsInit, AllEvolve;
    if m < k {
      SameLength(states, events, m, k - 1);
      CellsEvolve(states, events, k - 1);
      EvolvesLength(states[k - 1], states[k]);
    }
  }

  lemma EvolvesLength(s: State, z: State)
    requires AllEvolve(s, z)
    ensures |z.cells| == |s.cells|
  {}

  /** An erase succeeds if and only if it took its key out of the cell it returns, and it took nothing
      else out; otherwise it returns the capacity, and the key was nowhere for a moment. */
  lemma EraseResults(states: seq<State>, events: seq<Event>, k: nat, id: nat)
    requires IsRun(states, events) && k < |states| && id in states[k].calls
    requires states[k].calls[id].kind.Erase? && states[k].calls[id].at.Done?
    ensures
      var c := states[k].calls[id];
      && (c.at.success <==> exists j: nat :: j < k && Erases(states, events, j, id, c.at.result))
      && (c.at.success ==> WasThere(states, k, id, c.at.result))
      && (forall j: nat, i: nat :: j < k && Erases(states, events, j, id, i) ==> c.at.success && i == c.at.result)
      && (!c.at.success ==> c.at.result == |states[k].cells| && WasAbsent(states, k, id))
  {
    hide IsRun, Inv;
    var c := states[k].calls[id];
    if c.at.success {
      var j := TookIt(states, events, k, id);
      TookWhileUnderWay(states, events, j, k, id);
      assert HadKey(states, k, j, id, c.at.result);
    } else {
      FailureIsRight(states, events, k, id);
      FailureResult(states, events, k, id);
    }
    forall j: nat, i: nat | j < k && Erases(states, events, j, id, i) ensures c.at.success && i == c.at.result {
      TakenForEver(states, events, j, k, id, i);
      var j2 := TookIt(states, events, k, id);
    }
  }

  lemma TookWhileUnderWay(states: seq<State>, events: seq<Event>, j: nat, k: nat, id: nat)
    requires IsRun(states, events) && j < k < |states| && events[j] == Move(id)
    ensures id in states[j].calls && SameCall(states[k], states[j].calls[id], id)
  {
    assert IsStep(states[j], events[j], states[j + 1]);
    CallStays(states, events, j, k, id);
  }

  // ----- find -----

  lemma FoundStep(s: State, e: Event, id: nat)
    requires Inv(s) && Enabled(s, e) && id in Apply(s, e).calls && !Apply(s, e).calls[id].kind.Insert?
    requires Apply(s, e).calls[id].at.Done?
    ensures id in s.calls && |Apply(s, e).cells| == |s.cells|
    ensures
      var at := Apply(s, e).calls[id].at;
      || s.calls[id] == Apply(s, e).calls[id]
      || if at.success then
           s.calls[id].at.CountErase? || (at.result < |s.cells| && HasKey(s.cells[at.result], s.calls[id].key))
         else at.result == |s.cells|
  {
    hide Apply, Inv, WellFormed;
    CallsAfter(s, e);
    CellsAfter(s, e);
    if !e.Start? { KindSteps(s, e.id); }
  }

  lemma {:induction false} FailureResult(states: seq<State>, events: seq<Event>, k: nat, id: nat)
    requires IsRun(states, events) && k < |states| && id in states[k].calls
    requires !states[k].calls[id].kind.Insert? && states[k].calls[id].at.Done? && !states[k].calls[id].at.success
    ensures states[k].calls[id].at.result == |states[k].cells|
    decreases k
  {
    hide Enabled, Apply, IsInit, Inv;
    assert k > 0 by { NoCallsAtStart(states[0]); }
    RunInv(states, events, k - 1);
    var s, e := states[k - 1], events[k - 1];
    assert IsStep(s, e, states[k - 1 + 1]);
    FoundStep(s, e, id);
    if s.calls[id] == states[k].calls[id] { FailureResult(states, events, k - 1, id); }
  }

  lemma {:induction false} FoundThere(states: seq<State>, events: seq<Event>, k: nat, id: nat)
    requires IsRun(states, events) && k < |states| && id in states[k].calls
    requires states[k].calls[id].kind.Find? && states[k].calls[id].at.Done? && states[k].calls[id].at.success
    ensures WasThere(states, k, id, states[k].calls[id].at.result)
    decreases k
  {
    hide Enabled, Apply, IsInit, Inv;
    assert k > 0 by { NoCallsAtStart(states[0]); }
    RunInv(states, events, k - 1);
    var s, e, i := states[k - 1], events[k - 1], states[k].calls[id].at.result;
    assert IsStep(s, e, states[k - 1 + 1]);
    FoundStep(s, e, id);
    SameCallStep(s, e, id);
    if s.calls[id] == states[k].calls[id] {
      FoundThere(states, events, k - 1, id);
      var m: nat :| HadKey(states, k - 1, m, id, i);
      assert HadKey(states, k, m, id, i);
    } else {
      FindsOnly(s, id);
      assert HadKey(states, k, k - 1, id, i);
    }
  }

  lemma FindsOnly(s: State, id: nat)
    requires Inv(s) && id in s.calls && s.calls[id].kind.Find?
    ensures !s.calls[id].at.CountErase?
  {
    hide Inv;
    KindSteps(s, id);
  }

  /** A find that succeeds returns a cell that held the key while the find was under way; otherwise it
      returns the capacity, and the key was nowhere for a moment. */
  lemma FindResults(states: seq<State>, events: seq<Event>, k: nat, id: nat)
    requires IsRun(states, events) && k < |states| && id in states[k].calls
    requires states[k].calls[id].kind.Find? && states[k].calls[id].at.Done?
    ensures
      var at := states[k].calls[id].at;
      if at.success then WasThere(states, k, id, at.result)
      else at.result == |states[k].cells| && WasAbsent(states, k, id)
  {
    hide IsRun, Inv;
    if states[k].calls[id].at.success {
      FoundThere(states, events, k, id);
    } else {
      FailureIsRight(states, events, k, id);
      FailureResult(states, events, k, id);
    }
  }

  // ----- once per cell -----

  lemma {:induction false} StaysUsed(states: seq<State>, events: seq<Event>, m: nat, k: nat, i: nat)
    requires IsRun(states, events) && m <= k < |states| && i < |states[m].cells|
    ensures i < |states[k].cells|
    ensures states[m].cells[i].Erased? ==> states[k].cells[i].Erased?
    ensures states[m].cells[i].Key? ==> states[k].cells[i].Erased? || states[k].cells[i] == states[m].cells[i]
    decreases k
  {
    hide Enabled, Apply, IsInit;
    if m < k {
      StaysUsed(states, events, m, k - 1, i);
      CellsEvolve(states, events, k - 1);
    }
  }

  /** Every cell is filled once at most and erased once at most: so there is one successful insert for
      every filled cell, and one successful erase for every erased one. */
  lemma OncePerCell(states: seq<State>, events: seq<Event>, j1: nat, id1: nat, j2: nat, id2: nat, i: nat)
    requires IsRun(states, events)
    ensures Fills(states, events, j1, id1, i) && Fills(states, events, j2, id2, i) ==> j1 == j2 && id1 == id2
    ensures Erases(states, events, j1, id1, i) && Erases(states, events, j2, id2, i) ==> j1 == j2 && id1 == id2
  {
    hide IsRun, Inv;
    OnceOrdered(states, events, j1, id1, j2, id2, i);
    OnceOrdered(states, events, j2, id2, j1, id1, i);
  }

  lemma OnceOrdered(states: seq<State>, events: seq<Event>, j1: nat, id1: nat, j2: nat, id2: nat, i: nat)
    requires IsRun(states, events)
    ensures j1 < j2 ==> !(Fills(states, events, j1, id1, i) && Fills(states, events, j2, id2, i))
    ensures j1 < j2 ==> !(Erases(states, events, j1, id1, i) && Erases(states, events, j2, id2, i))
  {
    if j1 < j2 < |states| && j1 + 1 < |states| && i < |states[j1 + 1].cells| {
      StaysUsed(states, events, j1 + 1, j2, i);
      if Erases(states, events, j1, id1, i) {
        RunInv(states, events, j1);
        assert IsStep(states[j1], events[j1], states[j1 + 1]);
        EraseStep(states[j1], events[j1], i);
      }
      if Fills(states, events, j2, id2, i) && Fills(states, events, j1, id1, i) {
        RunInv(states, events, j2);
        assert IsStep(states[j2], events[j2], states[j2 + 1]);
        FromLocked(states[j2], events[j2], i);
      }
    }
  }

  lemma FromLocked(s: State, e: Event, p: nat)
    requires Inv(s) && Enabled(s, e) && p < |s.cells| && p < |Apply(s, e).cells|
    requires !s.cells[p].Key? && Apply(s, e).cells[p].Key?
    ensures s.cells[p].Locked?
  {
    hide Apply, Inv, WellFormed;
    FillStep(s, e, p);
    KindSteps(s, e.id);
  }
}
