/** AtomicUnorderedInsertMap makes progress: a call that runs alone ends, from any state, and does what
    it is called for. */
module UnorderedMapProgress {
  import opened UnorderedMap

  /** A sequence of steps of one call. */
  ghost predicate Alone(states: seq<State>, events: seq<Event>, id: nat) {
    && |states| == |events| + 1
    && forall k: nat :: k < |events| ==> OwnStep(states[k], events[k], states[k + 1], id)
  }

  ghost predicate OwnStep(s: State, e: Event, z: State, id: nat) {
    e.id == id && IsStep(s, e, z)
  }

  lemma StepAndRest(s: State, e: Event, states: seq<State>, events: seq<Event>, id: nat)
    requires Alone(states, events, id) && Enabled(s, e) && e.id == id && states[0] == Apply(s, e)
    ensures Alone([s] + states, [e] + events, id)
  {
    hide Enabled, Apply;
    var more, all := [s] + states, [e] + events;
    forall k: nat | k < |all| ensures OwnStep(more[k], all[k], more[k + 1], id) {
      if k > 0 { assert OwnStep(states[k - 1], events[k - 1], states[k - 1 + 1], id); }
    }
  }

  // ----- how far a call is from its end -----

  predicate Over(at: Step) {
    at.Done? || at.Failed?
  }

  /** How often the exchange of the head can still fail: once because the call's own slot may be the
      head, and once because the word has changed since it was loaded. */
  ghost function Exchanges(s: State, c: Call): nat
    requires WellFormed(s)
  {
    if Over(c.at) || c.at.Publish? || c.at.Undo? then 0
    else if c.idx == 0 then 2
    else if s.slots[s.slotOf(c.key)].headAndState != c.prev then 1
    else 0
  }

  function Stage(at: Step): nat {
    match at
    case LoadPrev => 8
    case FindLoad => 7
    case FindAt(_) => 6
    case Allocate => 5
    case Construct => 4
    case WriteNext => 3
    case Swap => 2
    case Publish => 1
    case Undo(_) => 1
    case Done(_, _) => 0
    case Failed => 0
  }

  ghost predicate Nearer(s: State, c: Call, z: State, d: Call)
    requires WellFormed(s) && WellFormed(z)
  {
    || Exchanges(z, d) < Exchanges(s, c)
    || (Exchanges(z, d) == Exchanges(s, c)
        && (Stage(d.at) < Stage(c.at) || (Stage(d.at) == Stage(c.at) && d.left < c.left)))
  }

  /** A call that may need a slot, and a slot it could take. */
  ghost predicate HasRoom(s: State, c: Call, j: nat) {
    c.idx == 0 && !c.lookup && !c.present && !Over(c.at) ==> j < |s.slots| && StateOf(s.slots[j].headAndState) == EMPTY
  }

  /** The call's next step; if it allocates, it takes slot j. */
  function NextEvent(c: Call, id: nat, j: nat): Event {
    match c.at
    case LoadPrev => DoLoadPrev(id)
    case FindLoad => DoFindLoad(id)
    case FindAt(cur) => if cur == 0 then DoFindEnd(id) else DoFindNext(id)
    case Allocate => DoAllocate(id, j)
    case Construct => DoConstruct(id)
    case WriteNext => DoWriteNext(id)
    case Swap => DoSwap(id)
    case Publish => DoPublish(id)
    case Undo(_) => DoUndo(id)
    case Done(_, _) => DoFail(id)
    case Failed => DoFail(id)
  }

  lemma NextIsEnabled(s: State, id: nat, j: nat)
    requires Inv(s) && id in s.calls && !Over(s.calls[id].at) && HasRoom(s, s.calls[id], j)
    ensures Enabled(s, NextEvent(s.calls[id], id, j))
  {
    hide SlotOk, Distinct;
    var c := s.calls[id];
    assert CallOk(s, id);
    if c.at.FindAt? && c.at.cur != 0 {
      assert ChainOk(s, s.slotOf(c.key));
      NodeInRange(s, s.slotOf(c.key), c.left);
    }
    if c.at.Undo? { HeldIsConstructing(s, id); }
  }

  /** A step brings the call nearer to its end, and does not change what it is about; and as long as
      the key is not present, an insertion goes on to insert it. */
  ghost predicate GoesOn(s: State, z: State, id: nat, j: nat) {
    && WellFormed(s) && WellFormed(z) && id in s.calls && id in z.calls && z.slotOf == s.slotOf && |z.slots| == |s.slots|
    && var c, d := s.calls[id], z.calls[id];
       && d.key == c.key && d.value == c.value && d.lookup == c.lookup && d.present == c.present
       && Nearer(s, c, z, d) && HasRoom(z, d, j) && !d.at.Failed?
       && (HasLinked(c) ==> HasLinked(d))
       && (OnlyLooks(c) ==> OnlyLooks(d) && z.slots == s.slots && z.chains == s.chains)
       && (!HasLinked(c) && !c.lookup && !Present(s, c.key) ==> HasLinked(d) || (!Present(z, c.key) && !Over(d.at)))
  }

  /** A call that will not need a slot. */
  predicate OnlyLooks(c: Call) {
    c.idx == 0 && (c.lookup || c.present)
  }

  lemma NextGoesOn(s: State, id: nat, j: nat)
    requires Inv(s) && id in s.calls && !Over(s.calls[id].at) && HasRoom(s, s.calls[id], j)
    requires Enabled(s, NextEvent(s.calls[id], id, j))
    ensures GoesOn(s, Apply(s, NextEvent(s.calls[id], id, j)), id, j)
  {
    hide Inv, Enabled, Apply, GoesOn, HasRoom, Present;
    var c := s.calls[id];
    if c.at.LoadPrev? || c.at.FindLoad? || c.at.FindAt? { LooksOn(s, id, j); }
    if c.at.Allocate? { TakesSlot(s, id, j); }
    if c.at.Construct? || c.at.WriteNext? { WritesSlot(s, id, j); }
    if c.at.Swap? { SwapsHead(s, id, j); }
    if c.at.Publish? || c.at.Undo? { EndsCall(s, id, j); }
  }

  lemma LooksOn(s: State, id: nat, j: nat)
    requires Inv(s) && id in s.calls && HasRoom(s, s.calls[id], j)
    requires var at := s.calls[id].at; at.LoadPrev? || at.FindLoad? || at.FindAt?
    requires Enabled(s, NextEvent(s.calls[id], id, j))
    ensures GoesOn(s, Apply(s, NextEvent(s.calls[id], id, j)), id, j)
  {
    hide SlotOk, ChainOk, Inv;
    var c := s.calls[id];
    LookFacts(s, id);
    assert c.at.FindAt? && c.at.cur != 0 && s.slots[c.at.cur].key == c.key ==> Present(s, c.key);
  }

  /** What a call that looks for its key knows. */
  lemma LookFacts(s: State, id: nat)
    requires Inv(s) && id in s.calls
    ensures WellFormed(s)
    ensures
      var c := s.calls[id];
      var chain := s.chains[s.slotOf(c.key)];
      && c.idx < |s.slots| && (c.lookup ==> c.idx == 0) && (c.at.LoadPrev? ==> c.idx == 0 && !c.lookup)
      && (c.at.FindAt? ==> c.left <= |chain| && c.at.cur == Nth(chain, c.left))
  {
    hide SlotOk, ChainOk;
    assert CallOk(s, id);
  }

  lemma TakesSlot(s: State, id: nat, j: nat)
    requires Inv(s) && id in s.calls && HasRoom(s, s.calls[id], j) && s.calls[id].at.Allocate?
    requires Enabled(s, DoAllocate(id, j))
    ensures GoesOn(s, Apply(s, DoAllocate(id, j)), id, j)
  {
    hide ChainOk;
    assert CallOk(s, id) && SlotOk(s, 0);
  }

  lemma WritesSlot(s: State, id: nat, j: nat)
    requires Inv(s) && id in s.calls && (s.calls[id].at.Construct? || s.calls[id].at.WriteNext?)
    requires Enabled(s, NextEvent(s.calls[id], id, j))
    ensures GoesOn(s, Apply(s, NextEvent(s.calls[id], id, j)), id, j)
  {
    hide ChainOk, SlotOk, Inv;
    var c := s.calls[id];
    WriterHolds(s, id);
  }

  lemma WriterHolds(s: State, id: nat)
    requires Inv(s) && id in s.calls && (s.calls[id].at.Construct? || s.calls[id].at.WriteNext?)
    ensures WellFormed(s)
    ensures s.calls[id].idx != 0 && s.calls[id].idx !in s.chains[s.slotOf(s.calls[id].key)]
  {
    hide SlotOk, ChainOk;
    assert CallOk(s, id);
    HeldNotInChain(s, id);
  }

  lemma SwapsHead(s: State, id: nat, j: nat)
    requires Inv(s) && id in s.calls && s.calls[id].at.Swap? && Enabled(s, DoSwap(id))
    ensures GoesOn(s, Apply(s, DoSwap(id)), id, j)
  {
    hide ChainOk, SlotOk;
    assert CallOk(s, id);
  }

  lemma EndsCall(s: State, id: nat, j: nat)
    requires Inv(s) && id in s.calls && (s.calls[id].at.Publish? || s.calls[id].at.Undo?)
    requires Enabled(s, NextEvent(s.calls[id], id, j))
    ensures GoesOn(s, Apply(s, NextEvent(s.calls[id], id, j)), id, j)
  {
    hide ChainOk, SlotOk, Inv;
    var c := s.calls[id];
    EndFacts(s, id);
    assert c.at.Undo? ==> Present(s, c.key);
  }

  lemma EndFacts(s: State, id: nat)
    requires Inv(s) && id in s.calls && (s.calls[id].at.Publish? || s.calls[id].at.Undo?)
    ensures WellFormed(s) && 0 != s.calls[id].idx < |s.slots|
    ensures s.calls[id].at.Undo? ==> FoundAt(s, s.calls[id], s.calls[id].at.existing)
  {
    hide ChainOk;
    assert CallOk(s, id) && SlotOk(s, 0);
    if s.calls[id].at.Publish? { assert s.calls[id].idx > 0; }
  }

  // ----- alone to the end -----

  /** A call that runs alone ends. */
  lemma {:induction false} Completes(s: State, id: nat, j: nat) returns (states: seq<State>, events: seq<Event>)
    requires Inv(s) && id in s.calls && !s.calls[id].at.Failed? && HasRoom(s, s.calls[id], j)
    ensures Alone(states, events, id) && states[0] == s
    ensures
      var z := states[|events|];
      && Inv(z) && id in z.calls && z.calls[id].at.Done?
      && z.calls[id].key == s.calls[id].key && z.calls[id].value == s.calls[id].value
      && z.calls[id].lookup == s.calls[id].lookup && z.calls[id].present == s.calls[id].present
    ensures WellFormed(s)
    ensures !s.calls[id].lookup && !Over(s.calls[id].at) && !Present(s, s.calls[id].key) ==> states[|events|].calls[id].at.inserted
    ensures HasLinked(s.calls[id]) ==> HasLinked(states[|events|].calls[id])
    ensures OnlyLooks(s.calls[id]) ==> states[|events|].slots == s.slots && states[|events|].chains == s.chains
    ensures states[|events|].slotOf == s.slotOf
    decreases Exchanges(s, s.calls[id]), Stage(s.calls[id].at), s.calls[id].left
  {
    hide Inv, Enabled, Apply, Present, HasRoom, Exchanges;
    WellShaped(s);
    if s.calls[id].at.Done? {
      return [s], [];
    }
    var e := NextEvent(s.calls[id], id, j);
    NextIsEnabled(s, id, j);
    NextGoesOn(s, id, j);
    StepInv(s, e);
    states, events := Completes(Apply(s, e), id, j);
    StepAndRest(s, e, states, events, id);
    states, events := [s] + states, [e] + events;
  }

  lemma WellShaped(s: State)
    requires Inv(s)
    ensures WellFormed(s)
  {}

  // ----- from every reachable state -----

  /** The key is in the map. */
  ghost predicate Contains(s: State, key: nat) {
    WellFormed(s) && Present(s, key)
  }

  /** What a call that has ended says about the map. */
  ghost predicate Answers(z: State, id: nat, inserted: bool) {
    && WellFormed(z) && id in z.calls && z.calls[id].at.Done? && z.calls[id].at.inserted == inserted
    && FoundAt(z, z.calls[id], z.calls[id].at.result)
    && (inserted ==>
          && StateOf(z.slots[z.calls[id].at.result].headAndState) == LINKED
          && z.slots[z.calls[id].at.result].value == z.calls[id].value)
  }

  /** Wherever the other calls stand, a new findOrConstruct that runs alone ends.  If its key is in the
      map it returns the key's slot and changes nothing; if not, and slot j is free, it returns true and
      a linked slot that holds the key and the value. */
  lemma InsertsAlone(runStates: seq<State>, runEvents: seq<Event>, k: nat, id: nat, key: nat, value: nat, j: nat)
      returns (states: seq<State>, events: seq<Event>)
    requires IsRun(runStates, runEvents) && k < |runStates| && id !in runStates[k].calls
    requires Contains(runStates[k], key) || (j < |runStates[k].slots| && StateOf(runStates[k].slots[j].headAndState) == EMPTY)
    ensures Alone(states, events, id) && |events| > 0 && states[0] == runStates[k] && events[0] == Start(id, key, value, false)
    ensures
      var s, z := runStates[k], states[|events|];
      && Answers(z, id, !Contains(s, key)) && z.calls[id].key == key && z.calls[id].value == value
      && (Contains(s, key) ==> z.slots == s.slots && z.chains == s.chains)
  {
    hide IsRun, Inv, Enabled, Apply;
    var s := runStates[k];
    RunInv(runStates, runEvents, k);
    WellShaped(s);
    var z := Started(s, id, key, value, false);
    states, events := Completes(z, id, j);
    EndsRight(states[|events|], id);
    StepAndRest(s, Start(id, key, value, false), states, events, id);
    states, events := [s] + states, [Start(id, key, value, false)] + events;
  }

  /** So does a new find: it returns the key's slot or, if the key is not in the map, nothing. */
  lemma FindsAlone(runStates: seq<State>, runEvents: seq<Event>, k: nat, id: nat, key: nat)
      returns (states: seq<State>, events: seq<Event>)
    requires IsRun(runStates, runEvents) && k < |runStates| && id !in runStates[k].calls
    ensures Alone(states, events, id) && |events| > 0 && states[0] == runStates[k] && events[0] == Start(id, key, 0, true)
    ensures
      var s, z := runStates[k], states[|events|];
      && z.slots == s.slots && z.chains == s.chains
      && (if Contains(s, key) then Answers(z, id, false) else id in z.calls && z.calls[id].at == Done(0, false))
  {
    hide IsRun, Inv, Enabled, Apply;
    var s := runStates[k];
    RunInv(runStates, runEvents, k);
    WellShaped(s);
    var z := Started(s, id, key, 0, true);
    states, events := Completes(z, id, 0);
    EndsRight(states[|events|], id);
    StepAndRest(s, Start(id, key, 0, true), states, events, id);
    states, events := [s] + states, [Start(id, key, 0, true)] + events;
  }

  lemma Started(s: State, id: nat, key: nat, value: nat, lookup: bool) returns (z: State)
    requires Inv(s) && WellFormed(s) && id !in s.calls
    ensures Enabled(s, Start(id, key, value, lookup)) && z == Apply(s, Start(id, key, value, lookup)) && Inv(z)
    ensures z.slots == s.slots && z.chains == s.chains && z.slotOf == s.slotOf && id in z.calls && WellFormed(z)
    ensures
      var c := z.calls[id];
      && c.key == key && c.value == value && c.lookup == lookup && c.present == Present(s, key) && c.idx == 0
      && !Over(c.at) && !HasLinked(c) && Present(z, key) == Present(s, key)
  {
    hide Inv;
    StepInv(s, Start(id, key, value, lookup));
    z := Apply(s, Start(id, key, value, lookup));
  }

  lemma EndsRight(z: State, id: nat)
    requires Inv(z) && id in z.calls && z.calls[id].at.Done?
    ensures WellFormed(z)
    ensures
      var c := z.calls[id];
      if c.at.result == 0 then c.lookup && !c.present && !c.at.inserted
      else Answers(z, id, c.at.inserted) && Present(z, c.key) && (c.at.inserted ==> !c.present && !c.lookup)
  {
    hide ChainOk;
    var c := z.calls[id];
    assert CallOk(z, id);
    if c.at.inserted { assert SlotOk(z, c.idx); }
  }

  /** Any call that has begun and runs alone from here on ends, if there is a free slot for it. */
  lemma AnyCallAlone(runStates: seq<State>, runEvents: seq<Event>, k: nat, id: nat, j: nat)
      returns (states: seq<State>, events: seq<Event>)
    requires IsRun(runStates, runEvents) && k < |runStates| && id in runStates[k].calls && !runStates[k].calls[id].at.Failed?
    requires j < |runStates[k].slots| && StateOf(runStates[k].slots[j].headAndState) == EMPTY
    ensures Alone(states, events, id) && states[0] == runStates[k]
    ensures id in states[|events|].calls && states[|events|].calls[id].at.Done?
  {
    hide IsRun, Inv;
    RunInv(runStates, runEvents, k);
    states, events := Completes(runStates[k], id, j);
  }

  // ----- allocation -----

  /** A call fails only where it allocates; and there it can take any free slot instead. */
  lemma OnlyAllocationFails(states: seq<State>, events: seq<Event>, k: nat, id: nat)
    requires IsRun(states, events) && k < |events| && id in states[k + 1].calls && states[k + 1].calls[id].at.Failed?
    requires !(id in states[k].calls && states[k].calls[id].at.Failed?)
    ensures events[k] == DoFail(id) && id in states[k].calls && states[k].calls[id].at.Allocate? && !states[k].calls[id].lookup
    ensures forall j: nat :: j < |states[k].slots| && StateOf(states[k].slots[j].headAndState) == EMPTY
              ==> Enabled(states[k], DoAllocate(id, j))
  {
    hide IsInit, Inv, Enabled, Apply;
    RunInv(states, events, k);
    assert IsStep(states[k], events[k], states[k + 1]);
    FailStep(states[k], events[k], id);
    AllocatesAnywhere(states[k], id);
  }

  lemma FailStep(s: State, e: Event, id: nat)
    requires Enabled(s, e) && id in Apply(s, e).calls && Apply(s, e).calls[id].at.Failed?
    requires !(id in s.calls && s.calls[id].at.Failed?)
    ensures e == DoFail(id) && id in s.calls && s.calls[id].at.Allocate?
  {}

  lemma AllocatesAnywhere(s: State, id: nat)
    requires Inv(s) && id in s.calls && s.calls[id].at.Allocate?
    ensures !s.calls[id].lookup
    ensures forall j: nat :: j < |s.slots| && StateOf(s.slots[j].headAndState) == EMPTY ==> Enabled(s, DoAllocate(id, j))
  {
    hide ChainOk, SlotOk;
    assert CallOk(s, id);
  }
}
