/** AtomicUnorderedInsertMap as a transition system: any number of findOrConstruct and find calls,
    one step per atomic operation, any interleaving.  A slot's word holds both the head of the chain
    of the keys that hash to this slot and the state of the slot as storage. */
module UnorderedMap {
  import opened Words

  const EMPTY: nat := 0
  const CONSTRUCTING: nat := 1
  const LINKED: nat := 2

  /** The capacity leaves two bits of the 32-bit index type. */
  const MAX_SLOTS: int := 0x4000_0000

  datatype Slot = Slot(headAndState: nat, next: nat, key: nat, value: nat)

  datatype Step =
    | LoadPrev | FindLoad | FindAt(cur: nat) | Allocate | Construct | WriteNext | Swap | Publish
    | Undo(existing: nat) | Done(result: nat, inserted: bool) | Failed

  /** A call of find (lookup) or findOrConstruct.  seen, from and left are positions in the chain:
      its length when prev was loaded, its length when the search began, and what is left to search;
      present tells whether the key was there when the call began. */
  datatype Call = Call(
    key: nat, value: nat, lookup: bool, prev: nat, idx: nat, at: Step,
    seen: nat, from: nat, left: nat, present: bool)

  /** slots and calls are the program's state.  chains lists for every slot the slots of its chain,
      oldest first, and owner says which call took a slot into use. */
  datatype State = State(
    slots: seq<Slot>, calls: map<nat, Call>, slotOf: nat -> nat, chains: seq<seq<nat>>, owner: map<nat, nat>)

  /** The slot a hash leads to. */
  function SlotIdx(hash: nat, slotMask: nat, numSlots: nat): (h: nat)
    requires numSlots > 0
    ensures h < numSlots
  {
    hash % (slotMask + 1) % numSlots
  }

  /** keyToSlotIdx: the hash, masked and then reduced by repeated subtraction. */
  method KeyToSlotIdx(hash: nat, slotMask: nat, numSlots: nat) returns (h: nat)
    requires numSlots > 0
    ensures h == SlotIdx(hash, slotMask, numSlots)
  {
    h := hash % (slotMask + 1);
    ghost var h0, n := h, 0;
    while h >= numSlots
      invariant h0 == n * numSlots + h
    {
      h := h - numSlots;
      n := n + 1;
      MulDistribute(n - 1, 1, numSlots);
    }
    DivModUnique(h0, numSlots, n, h);
  }

  function StateOf(word: nat): nat { word % 4 }

  function HeadOf(word: nat): nat { word / 4 }

  /** The slot at the top of the first n of a chain, or 0. */
  function Nth(chain: seq<nat>, n: nat): nat
    requires n <= |chain|
  {
    if n == 0 then 0 else chain[n - 1]
  }

  /** One of the first n of the chain has the key. */
  ghost predicate Among(s: State, chain: seq<nat>, n: nat, key: nat) {
    exists k: nat :: k < n && k < |chain| && chain[k] < |s.slots| && s.slots[chain[k]].key == key
  }

  ghost predicate Present(s: State, key: nat)
    requires s.slotOf(key) < |s.chains|
  {
    Among(s, s.chains[s.slotOf(key)], |s.chains[s.slotOf(key)]|, key)
  }

  datatype Event =
    | Start(id: nat, key: nat, value: nat, lookup: bool) | DoLoadPrev(id: nat) | DoFindLoad(id: nat)
    | DoFindNext(id: nat) | DoFindEnd(id: nat) | DoAllocate(id: nat, j: nat) | DoFail(id: nat)
    | DoConstruct(id: nat) | DoWriteNext(id: nat) | DoSwap(id: nat) | DoPublish(id: nat) | DoUndo(id: nat)

  ghost predicate WellFormed(s: State) {
    && 0 < |s.slots| <= MAX_SLOTS && |s.chains| == |s.slots|
    && (forall k: nat :: s.slotOf(k) < |s.slots|)
  }

  /** Every index a call will use lies in the array. */
  ghost predicate Enabled(s: State, e: Event) {
    && WellFormed(s)
    && if e.Start? then e.id !in s.calls
       else
         && e.id in s.calls
         && var c := s.calls[e.id];
            && c.idx < |s.slots|
            && match e
               case DoLoadPrev(_) => c.at.LoadPrev?
               case DoFindLoad(_) => c.at.FindLoad?
               case DoFindNext(_) => c.at.FindAt? && 0 < c.at.cur < |s.slots|
               case DoFindEnd(_) => c.at.FindAt? && c.at.cur == 0
               case DoAllocate(_, j) => c.at.Allocate? && j < |s.slots| && StateOf(s.slots[j].headAndState) == EMPTY
               case DoFail(_) => c.at.Allocate?
               case DoConstruct(_) => c.at.Construct?
               case DoWriteNext(_) => c.at.WriteNext?
               case DoSwap(_) => c.at.Swap?
               case DoPublish(_) => c.at.Publish?
               case DoUndo(_) => c.at.Undo? && s.slots[c.idx].headAndState > 0
  }

  function To(s: State, id: nat, c: Call): State {
    s.(calls := s.calls[id := c])
  }

  function SetSlot(s: State, j: nat, slot: Slot): State
    requires j < |s.slots|
  {
    s.(slots := s.slots[j := slot])
  }

  /** prev >> 2 becomes the successor, and the head is swapped if nobody changed the word; when the
      slot is its own head the same swap marks it linked. */
  function After(c: Call, slot: nat): nat {
    c.idx * 4 + if slot == c.idx then LINKED else StateOf(c.prev)
  }

  ghost function ApplySwap(s: State, id: nat): State
    requires Enabled(s, DoSwap(id))
  {
    var c := s.calls[id];
    var b := s.slotOf(c.key);
    if s.slots[b].headAndState == c.prev then
      To(SetSlot(s, b, s.slots[b].(headAndState := After(c, b))), id,
         c.(at := if c.idx != b then Publish else Done(c.idx, true)))
      .(chains := s.chains[b := s.chains[b] + [c.idx]])
    else
      To(s, id, c.(prev := s.slots[b].headAndState, at := FindLoad, seen := |s.chains[b]|))
  }

  ghost function Apply(s: State, e: Event): State
    requires Enabled(s, e)
  {
    if e.Start? then
      To(s, e.id, Call(e.key, e.value, e.lookup, 0, 0, if e.lookup then FindLoad else LoadPrev, 0, 0, 0, Present(s, e.key)))
    else
      var c := s.calls[e.id];
      var b := s.slotOf(c.key);
      match e
      case DoLoadPrev(id) => To(s, id, c.(prev := s.slots[b].headAndState, at := FindLoad, seen := |s.chains[b]|))
      case DoFindLoad(id) =>
        To(s, id, c.(at := FindAt(HeadOf(s.slots[b].headAndState)), from := |s.chains[b]|, left := |s.chains[b]|))
      case DoFindNext(id) =>
        var cur := c.at.cur;
        if s.slots[cur].key == c.key then
          To(s, id, c.(at := if c.idx == 0 then Done(cur, false) else Undo(cur)))
        else
          To(s, id, c.(at := FindAt(s.slots[cur].next), left := if c.left > 0 then c.left - 1 else 0))
      case DoFindEnd(id) =>
        To(s, id, c.(at := if c.lookup then Done(0, false) else if c.idx == 0 then Allocate else WriteNext))
      case DoAllocate(id, j) =>
        To(SetSlot(s, j, s.slots[j].(headAndState := s.slots[j].headAndState + CONSTRUCTING - EMPTY)), id,
           c.(at := Construct, idx := j)).(owner := s.owner[j := id])
      case DoFail(id) => To(s, id, c.(at := Failed))
      case DoConstruct(id) =>
        To(SetSlot(s, c.idx, s.slots[c.idx].(key := c.key, value := c.value)), id, c.(at := WriteNext))
      case DoWriteNext(id) =>
        To(SetSlot(s, c.idx, s.slots[c.idx].(next := HeadOf(c.prev))), id, c.(at := Swap))
      case DoSwap(id) => ApplySwap(s, id)
      case DoPublish(id) =>
        To(SetSlot(s, c.idx, s.slots[c.idx].(headAndState := s.slots[c.idx].headAndState + LINKED - CONSTRUCTING)), id,
           c.(at := Done(c.idx, true)))
      case DoUndo(id) =>
        To(SetSlot(s, c.idx, s.slots[c.idx].(headAndState := s.slots[c.idx].headAndState - CONSTRUCTING)), id,
           c.(at := Done(c.at.existing, false), idx := 0)).(owner := s.owner - {c.idx})
  }

  ghost predicate HashesTo(s: State, hash: nat -> nat, slotMask: nat) {
    |s.slots| > 0 && forall key: nat :: s.slotOf(key) == SlotIdx(hash(key), slotMask, |s.slots|)
  }

  /** The constructor: zero-filled slots, of which slot 0 is marked in use for ever; a key's chain is
      the one its hash leads to. */
  ghost predicate IsInit(s: State) {
    && WellFormed(s) && s.calls == map[] && s.owner == map[]
    && (exists hash: nat -> nat, slotMask: nat :: HashesTo(s, hash, slotMask))
    && (forall j: nat :: j < |s.slots| ==>
          s.slots[j].headAndState == (if j == 0 then CONSTRUCTING else EMPTY) && s.chains[j] == [])
  }

  // ----- the invariant -----

  predicate HasLinked(c: Call) {
    c.at.Publish? || (c.at.Done? && c.at.inserted)
  }

  ghost predicate ChainOk(s: State, b: nat)
    requires WellFormed(s) && b < |s.slots|
  {
    && HeadOf(s.slots[b].headAndState) == Nth(s.chains[b], |s.chains[b]|)
    && (forall k: nat :: k < |s.chains[b]| ==> NodeOk(s, b, k))
    && Distinct(s, b)
  }

  /** The k-th slot of chain b was linked by its owner, in front of the one before it. */
  ghost predicate NodeOk(s: State, b: nat, k: nat)
    requires WellFormed(s) && b < |s.slots| && k < |s.chains[b]|
  {
    var j := s.chains[b][k];
    && 0 < j < |s.slots| && s.slotOf(s.slots[j].key) == b && s.slots[j].next == Nth(s.chains[b], k)
    && j in s.owner && s.owner[j] in s.calls && HasLinked(s.calls[s.owner[j]]) && s.calls[s.owner[j]].idx == j
  }

  /** No slot and no key is twice in the chain. */
  ghost predicate Distinct(s: State, b: nat)
    requires WellFormed(s) && b < |s.slots|
  {
    forall i: nat, k: nat :: i < k < |s.chains[b]| ==>
      s.chains[b][i] != s.chains[b][k]
      && (s.chains[b][i] < |s.slots| && s.chains[b][k] < |s.slots| ==>
            s.slots[s.chains[b][i]].key != s.slots[s.chains[b][k]].key)
  }

  /** The first n of the chain hold other keys. */
  ghost predicate Checked(s: State, c: Call, lo: nat, hi: nat)
    requires WellFormed(s)
  {
    var chain := s.chains[s.slotOf(c.key)];
    hi <= |chain| && forall k: nat :: lo <= k < hi ==> chain[k] < |s.slots| && s.slots[chain[k]].key != c.key
  }

  ghost predicate FoundAt(s: State, c: Call, j: nat)
    requires WellFormed(s)
  {
    j in s.chains[s.slotOf(c.key)] && 0 < j < |s.slots| && s.slots[j].key == c.key
  }

  ghost predicate CallOk(s: State, id: nat)
    requires WellFormed(s) && id in s.calls
  {
    var c := s.calls[id];
    var chain := s.chains[s.slotOf(c.key)];
    && c.idx < |s.slots| && (c.idx != 0 ==> c.idx in s.owner && s.owner[c.idx] == id)
    && (c.lookup ==> c.idx == 0)
    && c.seen <= |chain| && (!c.at.LoadPrev? && !c.lookup ==> HeadOf(c.prev) == Nth(chain, c.seen))
    && (c.present ==> Present(s, c.key))
    && match c.at
       case LoadPrev => c.idx == 0 && !c.lookup
       case FindLoad => c.idx != 0 ==> s.slots[c.idx].key == c.key && s.slots[c.idx].value == c.value
       case FindAt(cur) =>
         && c.seen <= c.from && c.left <= c.from <= |chain| && cur == Nth(chain, c.left) && Checked(s, c, c.left, c.from)
         && (c.present ==> Among(s, chain, c.from, c.key))
         && (c.idx != 0 ==> s.slots[c.idx].key == c.key && s.slots[c.idx].value == c.value)
       case Allocate => c.idx == 0 && !c.lookup && !c.present && Checked(s, c, 0, c.seen)
       case Failed => c.idx == 0 && !c.present
       case Construct => c.idx != 0 && !c.present && Checked(s, c, 0, c.seen)
       case WriteNext => c.idx != 0 && !c.present && Checked(s, c, 0, c.seen) && s.slots[c.idx].key == c.key && s.slots[c.idx].value == c.value
       case Swap =>
         && c.idx != 0 && !c.present && Checked(s, c, 0, c.seen) && s.slots[c.idx].key == c.key && s.slots[c.idx].value == c.value
         && s.slots[c.idx].next == HeadOf(c.prev)
       case Undo(existing) => c.idx != 0 && FoundAt(s, c, existing)
       case Publish => FoundAt(s, c, c.idx) && c.idx != s.slotOf(c.key) && s.slots[c.idx].value == c.value && !c.present
       case Done(result, inserted) =>
         if inserted then result == c.idx && FoundAt(s, c, c.idx) && s.slots[c.idx].value == c.value && !c.lookup && !c.present
         else c.idx == 0 && (if result == 0 then c.lookup && !c.present else FoundAt(s, c, result))
  }

  /** The state bits say who uses the slot. */
  ghost predicate SlotOk(s: State, j: nat)
    requires WellFormed(s) && j < |s.slots|
  {
    var state := StateOf(s.slots[j].headAndState);
    if j == 0 then state == CONSTRUCTING && j !in s.owner
    else if j !in s.owner then state == EMPTY
    else
      var id := s.owner[j];
      && id in s.calls && s.calls[id].idx == j
      && state == if s.calls[id].at.Done? then LINKED else CONSTRUCTING
  }

  ghost predicate Inv(s: State) {
    && WellFormed(s)
    && (forall b: nat :: b < |s.slots| ==> ChainOk(s, b))
    && (forall id: nat :: id in s.calls ==> CallOk(s, id))
    && (forall j: nat :: j < |s.slots| ==> SlotOk(s, j))
    && (forall j: nat :: j in s.owner ==> j < |s.slots|)
  }

  lemma InitInv(s: State)
    requires IsInit(s)
    ensures Inv(s)
  {}

  // ----- steps that only move one call -----

  /** The call moves on; no slot and no chain changes. */
  lemma MoveKeeps(s: State, id: nat, c: Call)
    requires Inv(s)
    requires id in s.calls ==> c.idx == s.calls[id].idx && !HasLinked(s.calls[id]) && (c.idx == 0 || !c.at.Done?)
    requires id !in s.calls ==> c.idx == 0
    requires CallOk(To(s, id, c), id)
    ensures Inv(To(s, id, c))
  {
    hide ChainOk, SlotOk, CallOk;
    var z := To(s, id, c);
    forall id2: nat | id2 in z.calls ensures CallOk(z, id2) {
      if id2 != id {
        assert CallOk(s, id2);
        OtherCall(s, id, c, id2);
      }
    }
    forall b: nat | b < |z.slots| ensures ChainOk(z, b) {
      assert ChainOk(s, b);
      SameChain(s, id, c, b);
    }
    forall j: nat | j < |z.slots| ensures SlotOk(z, j) {
      assert SlotOk(s, j);
      SameSlot(s, id, c, j);
    }
  }

  lemma OtherCall(s: State, id: nat, c: Call, id2: nat)
    requires WellFormed(s) && id2 in s.calls && id2 != id && CallOk(s, id2)
    ensures CallOk(To(s, id, c), id2)
  {}

  lemma SameChain(s: State, id: nat, c: Call, b: nat)
    requires WellFormed(s) && b < |s.slots| && ChainOk(s, b)
    requires id in s.calls ==> c.idx == s.calls[id].idx && !HasLinked(s.calls[id])
    ensures ChainOk(To(s, id, c), b)
  {
    var z := To(s, id, c);
    forall k: nat | k < |z.chains[b]| ensures NodeOk(z, b, k) {
      assert NodeOk(s, b, k);
    }
  }

  lemma SameSlot(s: State, id: nat, c: Call, j: nat)
    requires WellFormed(s) && j < |s.slots| && SlotOk(s, j)
    requires id in s.calls ==> c.idx == s.calls[id].idx && !HasLinked(s.calls[id]) && (c.idx == 0 || !c.at.Done?)
    requires if id in s.calls then CallOk(s, id) else c.idx == 0
    ensures SlotOk(To(s, id, c), j)
  {}

  lemma StartKeeps(s: State, id: nat, key: nat, value: nat, lookup: bool)
    requires Inv(s) && Enabled(s, Start(id, key, value, lookup))
    ensures Inv(Apply(s, Start(id, key, value, lookup)))
  {
    hide ChainOk, SlotOk;
    var z := Apply(s, Start(id, key, value, lookup));
    MoveKeeps(s, id, z.calls[id]);
  }

  lemma LoadPrevKeeps(s: State, id: nat)
    requires Inv(s) && Enabled(s, DoLoadPrev(id))
    ensures Inv(Apply(s, DoLoadPrev(id)))
  {
    hide SlotOk;
    var z := Apply(s, DoLoadPrev(id));
    assert CallOk(s, id) && ChainOk(s, s.slotOf(s.calls[id].key));
    MoveKeeps(s, id, z.calls[id]);
  }

  lemma FindLoadKeeps(s: State, id: nat)
    requires Inv(s) && Enabled(s, DoFindLoad(id))
    ensures Inv(Apply(s, DoFindLoad(id)))
  {
    hide SlotOk;
    var z := Apply(s, DoFindLoad(id));
    assert CallOk(s, id) && ChainOk(s, s.slotOf(s.calls[id].key));
    MoveKeeps(s, id, z.calls[id]);
  }

  lemma FindNextKeeps(s: State, id: nat)
    requires Inv(s) && Enabled(s, DoFindNext(id))
    ensures Inv(Apply(s, DoFindNext(id)))
  {
    hide SlotOk, CallOk, ChainOk;
    var c := s.calls[id];
    assert CallOk(s, id) && ChainOk(s, s.slotOf(c.key));
    if s.slots[c.at.cur].key == c.key { FindHit(s, id); } else { FindMiss(s, id); }
    FindNotLinked(s, id);
    MoveKeeps(s, id, Apply(s, DoFindNext(id)).calls[id]);
  }

  lemma FindNotLinked(s: State, id: nat)
    requires Enabled(s, DoFindNext(id))
    ensures !HasLinked(s.calls[id])
    ensures var c := Apply(s, DoFindNext(id)).calls[id]; c.idx == s.calls[id].idx && (c.idx == 0 || !c.at.Done?)
  {}

  lemma FindHit(s: State, id: nat)
    requires Enabled(s, DoFindNext(id)) && CallOk(s, id) && ChainOk(s, s.slotOf(s.calls[id].key))
    requires s.slots[s.calls[id].at.cur].key == s.calls[id].key
    ensures CallOk(Apply(s, DoFindNext(id)), id)
  {
    var c := s.calls[id];
    assert c.left > 0 && c.at.cur == s.chains[s.slotOf(c.key)][c.left - 1];
  }

  lemma FindMiss(s: State, id: nat)
    requires Enabled(s, DoFindNext(id)) && CallOk(s, id) && ChainOk(s, s.slotOf(s.calls[id].key))
    requires s.slots[s.calls[id].at.cur].key != s.calls[id].key
    ensures CallOk(Apply(s, DoFindNext(id)), id)
  {
    var c, z := s.calls[id], Apply(s, DoFindNext(id));
    var chain := s.chains[s.slotOf(c.key)];
    assert c.left > 0 && c.at.cur == chain[c.left - 1];
    assert NodeOk(s, s.slotOf(c.key), c.left - 1);
    assert z.calls[id].at.cur == Nth(chain, c.left - 1);
  }

  lemma NodesPositive(s: State, b: nat)
    requires WellFormed(s) && b < |s.slots| && ChainOk(s, b)
    ensures forall k: nat :: k < |s.chains[b]| ==> s.chains[b][k] > 0
  {
    forall k: nat | k < |s.chains[b]| ensures s.chains[b][k] > 0 { assert NodeOk(s, b, k); }
  }

  lemma FindEndKeeps(s: State, id: nat)
    requires Inv(s) && Enabled(s, DoFindEnd(id))
    ensures Inv(Apply(s, DoFindEnd(id)))
  {
    hide SlotOk;
    var z, c := Apply(s, DoFindEnd(id)), s.calls[id];
    assert CallOk(s, id) && ChainOk(s, s.slotOf(c.key));
    NodesPositive(s, s.slotOf(c.key));
    MoveKeeps(s, id, z.calls[id]);
  }

  lemma FailKeeps(s: State, id: nat)
    requires Inv(s) && Enabled(s, DoFail(id))
    ensures Inv(Apply(s, DoFail(id)))
  {
    hide SlotOk, ChainOk;
    var z := Apply(s, DoFail(id));
    assert CallOk(s, id);
    MoveKeeps(s, id, z.calls[id]);
  }

  // ----- steps on the call's own slot -----

  ghost predicate InChain(s: State, j: nat) {
    exists b: nat :: b < |s.chains| && j in s.chains[b]
  }

  /** Whatever is in a chain was put there by its owner. */
  lemma InChainOwned(s: State, j: nat)
    requires Inv(s) && InChain(s, j)
    ensures j in s.owner && s.owner[j] in s.calls && HasLinked(s.calls[s.owner[j]]) && s.calls[s.owner[j]].idx == j
  {
    var b: nat :| b < |s.chains| && j in s.chains[b];
    assert ChainOk(s, b);
    var k: nat :| k < |s.chains[b]| && s.chains[b][k] == j;
    assert NodeOk(s, b, k);
  }

  /** A call changes slot j, which it owns before or after the step, but not the head it holds; and if
      the slot is in a chain, no more than its state. */
  ghost predicate OwnSlotStep(s: State, z: State, id: nat, j: nat) {
    && WellFormed(s) && 0 < j < |s.slots| && id in s.calls && id in z.calls && |z.slots| == |s.slots|
    && z == s.(slots := s.slots[j := z.slots[j]], calls := s.calls[id := z.calls[id]], owner := z.owner)
    && HeadOf(z.slots[j].headAndState) == HeadOf(s.slots[j].headAndState)
    && (InChain(s, j) ==> z.slots[j] == s.slots[j].(headAndState := z.slots[j].headAndState) && z.owner == s.owner)
    && (s.calls[id].idx == j || (s.calls[id].idx == 0 && j !in s.owner))
    && (HasLinked(s.calls[id]) ==> HasLinked(z.calls[id]) && z.calls[id].idx == s.calls[id].idx)
    && (forall i: nat :: i != j ==> (i in z.owner <==> i in s.owner) && (i in s.owner ==> z.owner[i] == s.owner[i]))
    && (j in z.owner ==> z.owner[j] == id)
  }

  lemma OwnSlotKeeps(s: State, z: State, id: nat, j: nat)
    requires Inv(s) && OwnSlotStep(s, z, id, j) && CallOk(z, id) && SlotOk(z, j)
    ensures Inv(z)
  {
    hide CallOk, ChainOk, SlotOk;
    forall b: nat | b < |z.slots| ensures ChainOk(z, b) {
      assert ChainOk(s, b);
      OwnSlotChain(s, z, id, j, b);
    }
    forall id2: nat | id2 in z.calls ensures CallOk(z, id2) {
      if id2 != id { OwnSlotCall(s, z, id, j, id2); }
    }
    forall i: nat | i < |z.slots| ensures SlotOk(z, i) {
      if i != j { OwnSlotOther(s, z, id, j, i); }
    }
  }

  lemma OwnSlotChain(s: State, z: State, id: nat, j: nat, b: nat)
    requires OwnSlotStep(s, z, id, j) && b < |s.slots| && ChainOk(s, b)
    ensures ChainOk(z, b)
  {
    assert j in s.chains[b] ==> InChain(s, j);
    forall k: nat | k < |s.chains[b]| ensures NodeOk(z, b, k) && z.slots[s.chains[b][k]].key == s.slots[s.chains[b][k]].key {
      assert NodeOk(s, b, k) && s.chains[b][k] in s.chains[b];
    }
  }

  lemma OwnSlotCall(s: State, z: State, id: nat, j: nat, id2: nat)
    requires Inv(s) && OwnSlotStep(s, z, id, j) && id2 in s.calls && id2 != id
    ensures CallOk(z, id2)
  {
    hide ChainOk, SlotOk;
    assert CallOk(s, id2);
    var c := s.calls[id2];
    var b := s.slotOf(c.key);
    assert forall k: nat :: k < |s.chains[b]| && s.chains[b][k] == j ==> InChain(s, j);
    assert j in s.chains[b] ==> InChain(s, j);
  }

  lemma OwnSlotOther(s: State, z: State, id: nat, j: nat, i: nat)
    requires Inv(s) && OwnSlotStep(s, z, id, j) && i < |s.slots| && i != j
    ensures SlotOk(z, i)
  {
    assert SlotOk(s, i);
  }

  lemma ConstructKeeps(s: State, id: nat)
    requires Inv(s) && Enabled(s, DoConstruct(id))
    ensures Inv(Apply(s, DoConstruct(id)))
  {
    hide ChainOk, InChain;
    var z, c := Apply(s, DoConstruct(id)), s.calls[id];
    assert CallOk(s, id) && SlotOk(s, c.idx);
    HeldNotInChain(s, id);
    OwnSlotKeeps(s, z, id, c.idx);
  }

  lemma HeldNotInChain(s: State, id: nat)
    requires Inv(s) && id in s.calls && s.calls[id].idx != 0 && !HasLinked(s.calls[id])
    ensures !InChain(s, s.calls[id].idx) && s.calls[id].idx < |s.slots|
    ensures forall b: nat :: b < |s.slots| ==> s.calls[id].idx !in s.chains[b]
  {
    assert CallOk(s, id);
    if InChain(s, s.calls[id].idx) { InChainOwned(s, s.calls[id].idx); }
    assert forall b: nat :: b < |s.chains| && s.calls[id].idx in s.chains[b] ==> InChain(s, s.calls[id].idx);
  }

  lemma WriteNextKeeps(s: State, id: nat)
    requires Inv(s) && Enabled(s, DoWriteNext(id))
    ensures Inv(Apply(s, DoWriteNext(id)))
  {
    hide ChainOk, InChain;
    var z, c := Apply(s, DoWriteNext(id)), s.calls[id];
    assert CallOk(s, id) && SlotOk(s, c.idx);
    HeldNotInChain(s, id);
    OwnSlotKeeps(s, z, id, c.idx);
  }

  lemma AllocateKeeps(s: State, id: nat, j: nat)
    requires Inv(s) && Enabled(s, DoAllocate(id, j))
    ensures Inv(Apply(s, DoAllocate(id, j)))
  {
    hide ChainOk, InChain;
    var z, c := Apply(s, DoAllocate(id, j)), s.calls[id];
    assert CallOk(s, id) && SlotOk(s, j);
    FreeNotInChain(s, j);
    OwnSlotKeeps(s, z, id, j);
  }

  lemma FreeNotInChain(s: State, j: nat)
    requires Inv(s) && j < |s.slots| && StateOf(s.slots[j].headAndState) == EMPTY
    ensures !InChain(s, j) && j !in s.owner && j != 0
    ensures forall b: nat :: b < |s.slots| ==> j !in s.chains[b]
  {
    assert SlotOk(s, j);
    if InChain(s, j) { InChainOwned(s, j); }
    assert forall b: nat :: b < |s.chains| && j in s.chains[b] ==> InChain(s, j);
  }

  lemma PublishKeeps(s: State, id: nat)
    requires Inv(s) && Enabled(s, DoPublish(id))
    ensures Inv(Apply(s, DoPublish(id)))
  {
    hide ChainOk, InChain;
    var z, c := Apply(s, DoPublish(id)), s.calls[id];
    assert CallOk(s, id) && SlotOk(s, c.idx);
    OwnSlotKeeps(s, z, id, c.idx);
  }

  lemma UndoKeeps(s: State, id: nat)
    requires Inv(s) && Enabled(s, DoUndo(id))
    ensures Inv(Apply(s, DoUndo(id)))
  {
    hide ChainOk, InChain;
    var z, c := Apply(s, DoUndo(id)), s.calls[id];
    assert CallOk(s, id) && SlotOk(s, c.idx);
    HeldNotInChain(s, id);
    OwnSlotKeeps(s, z, id, c.idx);
  }

  // ----- the swap -----

  /** A successful swap means that nothing was pushed since the chain was searched. */
  lemma NothingPushed(s: State, id: nat)
    requires Inv(s) && Enabled(s, DoSwap(id)) && s.slots[s.slotOf(s.calls[id].key)].headAndState == s.calls[id].prev
    ensures s.calls[id].seen == |s.chains[s.slotOf(s.calls[id].key)]|
    ensures Checked(s, s.calls[id], 0, |s.chains[s.slotOf(s.calls[id].key)]|)
  {
    hide SlotOk;
    var c := s.calls[id];
    var b := s.slotOf(c.key);
    assert CallOk(s, id) && ChainOk(s, b);
    NodesPositive(s, b);
    NthUnique(s.chains[b], c.seen);
  }

  lemma NthUnique(chain: seq<nat>, n: nat)
    requires n <= |chain| && (forall k: nat :: k < |chain| ==> chain[k] > 0)
    requires forall i: nat, k: nat :: i < k < |chain| ==> chain[i] != chain[k]
    ensures Nth(chain, n) == Nth(chain, |chain|) ==> n == |chain|
  {}

  lemma SwapFails(s: State, id: nat)
    requires Inv(s) && Enabled(s, DoSwap(id)) && s.slots[s.slotOf(s.calls[id].key)].headAndState != s.calls[id].prev
    ensures Inv(Apply(s, DoSwap(id)))
  {
    hide SlotOk;
    var z := Apply(s, DoSwap(id));
    assert CallOk(s, id) && ChainOk(s, s.slotOf(s.calls[id].key));
    MoveKeeps(s, id, z.calls[id]);
  }

  /** The new state of a successful swap. */
  ghost predicate Pushed(s: State, z: State, id: nat, b: nat, i: nat) {
    && WellFormed(s) && id in s.calls && id in z.calls && b < |s.slots| && 0 < i < |s.slots| && |z.slots| == |s.slots|
    && s.calls[id].idx == i && b == s.slotOf(s.calls[id].key)
    && z == s.(slots := s.slots[b := z.slots[b]], calls := s.calls[id := z.calls[id]],
               chains := s.chains[b := s.chains[b] + [i]])
    && z.slots[b] == s.slots[b].(headAndState := z.slots[b].headAndState)
    && HeadOf(z.slots[b].headAndState) == i
    && (if i == b then StateOf(z.slots[b].headAndState) == LINKED
        else StateOf(z.slots[b].headAndState) == StateOf(s.slots[b].headAndState))
    && z.calls[id] == s.calls[id].(at := if i == b then Done(i, true) else Publish)
  }

  lemma SwapSucceeds(s: State, id: nat)
    requires Inv(s) && Enabled(s, DoSwap(id)) && s.slots[s.slotOf(s.calls[id].key)].headAndState == s.calls[id].prev
    ensures Inv(Apply(s, DoSwap(id)))
  {
    hide CallOk, ChainOk, SlotOk, Inv;
    var z, c := Apply(s, DoSwap(id)), s.calls[id];
    var b := s.slotOf(c.key);
    NothingPushed(s, id);
    SwapPushes(s, id);
    HeldNotInChainSwap(s, id);
    forall b2: nat | b2 < |z.slots| ensures ChainOk(z, b2) {
      PushedChain(s, z, id, b, c.idx, b2);
    }
    forall id2: nat | id2 in z.calls ensures CallOk(z, id2) {
      PushedCall(s, z, id, b, c.idx, id2);
    }
    forall i: nat | i < |z.slots| ensures SlotOk(z, i) {
      PushedSlot(s, z, id, b, c.idx, i);
    }
    PushedInv(s, z, id, b, c.idx);
  }

  lemma PushedInv(s: State, z: State, id: nat, b: nat, i: nat)
    requires Inv(s) && Pushed(s, z, id, b, i)
    requires forall b2: nat :: b2 < |z.slots| ==> ChainOk(z, b2)
    requires forall id2: nat :: id2 in z.calls ==> CallOk(z, id2)
    requires forall j: nat :: j < |z.slots| ==> SlotOk(z, j)
    ensures Inv(z)
  {}

  lemma SwapPushes(s: State, id: nat)
    requires Inv(s) && Enabled(s, DoSwap(id)) && s.slots[s.slotOf(s.calls[id].key)].headAndState == s.calls[id].prev
    ensures Pushed(s, Apply(s, DoSwap(id)), id, s.slotOf(s.calls[id].key), s.calls[id].idx)
  {
    assert CallOk(s, id);
  }

  /** What is about to be pushed: a slot in no chain, with a key that is not in its chain. */
  ghost predicate Ready(s: State, id: nat, b: nat, i: nat)
    requires WellFormed(s) && b < |s.slots| && i < |s.slots| && id in s.calls
  {
    && (forall b2: nat :: b2 < |s.slots| ==> i !in s.chains[b2])
    && Checked(s, s.calls[id], 0, |s.chains[b]|) && s.slots[i].key == s.calls[id].key
    && s.slots[i].value == s.calls[id].value && !s.calls[id].lookup && !s.calls[id].present
    && s.slots[i].next == Nth(s.chains[b], |s.chains[b]|)
    && i in s.owner && s.owner[i] == id
  }

  lemma HeldNotInChainSwap(s: State, id: nat)
    requires Inv(s) && Enabled(s, DoSwap(id)) && s.slots[s.slotOf(s.calls[id].key)].headAndState == s.calls[id].prev
    ensures 0 < s.calls[id].idx < |s.slots| && Ready(s, id, s.slotOf(s.calls[id].key), s.calls[id].idx)
  {
    hide SlotOk;
    NothingPushed(s, id);
    assert CallOk(s, id);
    HeldNotInChain(s, id);
  }

  lemma PushedChain(s: State, z: State, id: nat, b: nat, i: nat, b2: nat)
    requires Inv(s) && Pushed(s, z, id, b, i) && Ready(s, id, b, i) && b2 < |s.slots|
    ensures ChainOk(z, b2)
  {
    hide CallOk, SlotOk, ChainOk;
    assert ChainOk(s, b2);
    if b2 == b { PushedOwn(s, z, id, b, i); } else { PushedOther(s, z, id, b, i, b2); }
  }

  lemma PushedOther(s: State, z: State, id: nat, b: nat, i: nat, b2: nat)
    requires Pushed(s, z, id, b, i) && Ready(s, id, b, i) && b2 < |s.slots| && b2 != b && ChainOk(s, b2)
    ensures ChainOk(z, b2)
  {
    assert z.chains[b2] == s.chains[b2];
    forall k: nat | k < |s.chains[b2]| ensures NodeOk(z, b2, k) {
      assert NodeOk(s, b2, k) && s.chains[b2][k] in s.chains[b2];
    }
  }

  lemma PushedOwn(s: State, z: State, id: nat, b: nat, i: nat)
    requires Pushed(s, z, id, b, i) && Ready(s, id, b, i) && ChainOk(s, b)
    ensures ChainOk(z, b)
  {
    forall k: nat | k < |z.chains[b]| ensures NodeOk(z, b, k) {
      PushedNode(s, z, id, b, i, k);
    }
    PushedDistinct(s, z, id, b, i);
  }

  lemma PushedNode(s: State, z: State, id: nat, b: nat, i: nat, k: nat)
    requires Pushed(s, z, id, b, i) && Ready(s, id, b, i) && ChainOk(s, b) && k < |z.chains[b]|
    ensures NodeOk(z, b, k)
  {
    assert Nth(z.chains[b], k) == Nth(s.chains[b], k);
    if k < |s.chains[b]| { assert NodeOk(s, b, k) && s.chains[b][k] in s.chains[b]; }
  }

  lemma PushedDistinct(s: State, z: State, id: nat, b: nat, i: nat)
    requires Pushed(s, z, id, b, i) && Ready(s, id, b, i) && Distinct(s, b)
    ensures Distinct(z, b)
  {
    forall x: nat, y: nat | x < y < |z.chains[b]|
      ensures z.chains[b][x] != z.chains[b][y]
              && (z.chains[b][x] < |z.slots| && z.chains[b][y] < |z.slots| ==>
                    z.slots[z.chains[b][x]].key != z.slots[z.chains[b][y]].key)
    {
      assert s.chains[b][x] in s.chains[b];
    }
  }

  lemma PushedCall(s: State, z: State, id: nat, b: nat, i: nat, id2: nat)
    requires Inv(s) && Pushed(s, z, id, b, i) && Ready(s, id, b, i) && id2 in z.calls
    ensures CallOk(z, id2)
  {
    hide ChainOk, SlotOk, CallOk;
    assert CallOk(s, id2);
    if id2 == id { PushedWinner(s, z, id, b, i); } else { PushedBystander(s, z, id, b, i, id2); }
  }

  lemma PushedWinner(s: State, z: State, id: nat, b: nat, i: nat)
    requires Pushed(s, z, id, b, i) && Ready(s, id, b, i) && CallOk(s, id)
    ensures CallOk(z, id)
  {
    var chain := s.chains[b];
    assert z.chains[b][|chain|] == i;
    assert Nth(z.chains[b], s.calls[id].seen) == Nth(chain, s.calls[id].seen);
  }

  lemma PushedBystander(s: State, z: State, id: nat, b: nat, i: nat, id2: nat)
    requires Pushed(s, z, id, b, i) && Ready(s, id, b, i) && id2 in s.calls && id2 != id && CallOk(s, id2)
    ensures CallOk(z, id2)
  {
    var b2 := s.slotOf(s.calls[id2].key);
    assert s.chains[b2] <= z.chains[b2];
    assert forall k: nat :: k < |s.chains[b2]| ==> z.chains[b2][k] == s.chains[b2][k];
    assert forall n: nat :: n <= |s.chains[b2]| ==> Nth(z.chains[b2], n) == Nth(s.chains[b2], n);
  }

  lemma PushedSlot(s: State, z: State, id: nat, b: nat, i: nat, j: nat)
    requires Inv(s) && Pushed(s, z, id, b, i) && Ready(s, id, b, i) && j < |s.slots|
    ensures SlotOk(z, j)
  {
    assert SlotOk(s, j);
    if j in s.owner { assert CallOk(s, s.owner[j]); }
  }

  lemma StepInv(s: State, e: Event)
    requires Inv(s) && Enabled(s, e)
    ensures Inv(Apply(s, e))
  {
    hide Inv, Apply;
    match e
    case Start(id, key, value, lookup) => StartKeeps(s, id, key, value, lookup);
    case DoLoadPrev(id) => LoadPrevKeeps(s, id);
    case DoFindLoad(id) => FindLoadKeeps(s, id);
    case DoFindNext(id) => FindNextKeeps(s, id);
    case DoFindEnd(id) => FindEndKeeps(s, id);
    case DoAllocate(id, j) => AllocateKeeps(s, id, j);
    case DoFail(id) => FailKeeps(s, id);
    case DoConstruct(id) => ConstructKeeps(s, id);
    case DoWriteNext(id) => WriteNextKeeps(s, id);
    case DoSwap(id) =>
      if s.slots[s.slotOf(s.calls[id].key)].headAndState == s.calls[id].prev { SwapSucceeds(s, id); } else { SwapFails(s, id); }
    case DoPublish(id) => PublishKeeps(s, id);
    case DoUndo(id) => UndoKeeps(s, id);
  }

  // ----- guarantees over runs -----

  ghost predicate IsStep(s: State, e: Event, z: State) {
    Enabled(s, e) && z == Apply(s, e)
  }

  ghost predicate IsRun(states: seq<State>, events: seq<Event>) {
    && |states| == |events| + 1 && IsInit(states[0])
    && forall k: nat :: k < |events| ==> IsStep(states[k], events[k], states[k + 1])
  }

  lemma {:induction false} RunInv(states: seq<State>, events: seq<Event>, k: nat)
    requires IsRun(states, events) && k < |states|
    ensures Inv(states[k])
    decreases k
  {
    hide Inv, Enabled, Apply, IsInit;
    if k == 0 {
      InitInv(states[0]);
    } else {
      RunInv(states, events, k - 1);
      assert IsStep(states[k - 1], events[k - 1], states[k - 1 + 1]);
      StepInv(states[k - 1], events[k - 1]);
    }
  }

  /** Every chain ends in slot 0 without passing a slot twice, its slots are in no other chain, and
      their keys hash to it; a word never needs more than 32 bits. */
  lemma ChainsAreDisjointLists(states: seq<State>, events: seq<Event>, k: nat, b1: nat, k1: nat, b2: nat, k2: nat)
    requires IsRun(states, events) && k < |states| && b1 < |states[k].chains| && b2 < |states[k].chains|
    requires k1 < |states[k].chains[b1]| && k2 < |states[k].chains[b2]|
    ensures
      var s := states[k];
      && |s.chains| == |s.slots|
      && (s.chains[b1][k1] == s.chains[b2][k2] ==> b1 == b2 && k1 == k2)
      && 0 < s.chains[b1][k1] < |s.slots| && s.slots[s.chains[b1][k1]].next == Nth(s.chains[b1], k1)
      && s.slotOf(s.slots[s.chains[b1][k1]].key) == b1
      && HeadOf(s.slots[b1].headAndState) == Nth(s.chains[b1], |s.chains[b1]|) && s.slots[b1].headAndState < TWO32
  {
    hide IsRun, SlotOk, CallOk;
    RunInv(states, events, k);
    var s := states[k];
    assert ChainOk(s, b1) && ChainOk(s, b2);
    assert NodeOk(s, b1, k1) && NodeOk(s, b2, k2) && NodeOk(s, b1, |s.chains[b1]| - 1);
  }

  /** A key is in the map at most once. */
  lemma KeysAreUnique(states: seq<State>, events: seq<Event>, k: nat, j1: nat, j2: nat)
    requires IsRun(states, events) && k < |states| && j1 < |states[k].slots| && j2 < |states[k].slots|
    requires InChain(states[k], j1) && InChain(states[k], j2) && states[k].slots[j1].key == states[k].slots[j2].key
    ensures j1 == j2
  {
    hide IsRun, Inv;
    RunInv(states, events, k);
    SameKeySameSlot(states[k], j1, j2);
  }

  lemma SameKeySameSlot(s: State, j1: nat, j2: nat)
    requires Inv(s) && InChain(s, j1) && InChain(s, j2) && j1 < |s.slots| && j2 < |s.slots|
    requires s.slots[j1].key == s.slots[j2].key
    ensures j1 == j2
  {
    hide SlotOk, CallOk;
    var b1: nat :| b1 < |s.chains| && j1 in s.chains[b1];
    var b2: nat :| b2 < |s.chains| && j2 in s.chains[b2];
    var k1: nat :| k1 < |s.chains[b1]| && s.chains[b1][k1] == j1;
    var k2: nat :| k2 < |s.chains[b2]| && s.chains[b2][k2] == j2;
    assert ChainOk(s, b1) && ChainOk(s, b2) && NodeOk(s, b1, k1) && NodeOk(s, b2, k2);
  }

  /** A linked slot keeps its place, its key, its value and its successor. */
  ghost predicate StillLinked(s: State, z: State, b: nat, j: nat) {
    && b < |s.chains| == |z.chains| && |s.slots| == |z.slots| && s.chains[b] <= z.chains[b]
    && (j in s.chains[b] && j < |s.slots| ==>
          z.slots[j] == s.slots[j].(headAndState := z.slots[j].headAndState))
  }

  lemma StepKeepsLinks(s: State, e: Event, b: nat, j: nat)
    requires Inv(s) && Enabled(s, e) && b < |s.slots|
    ensures StillLinked(s, Apply(s, e), b, j)
  {
    hide ChainOk, SlotOk, CallOk;
    if !e.Start? && j in s.chains[b] {
      assert InChain(s, j);
      assert CallOk(s, e.id);
      if e.DoConstruct? || e.DoWriteNext? { ConstructingNotLinked(s, e.id); HeldNotInChain(s, e.id); }
    }
  }

  lemma ConstructingNotLinked(s: State, id: nat)
    requires WellFormed(s) && id in s.calls && CallOk(s, id) && (s.calls[id].at.Construct? || s.calls[id].at.WriteNext?)
    ensures s.calls[id].idx != 0 && !HasLinked(s.calls[id])
  {}

  lemma {:induction false} LinksArePermanent(states: seq<State>, events: seq<Event>, k: nat, m: nat, b: nat, j: nat)
    requires IsRun(states, events) && k <= m < |states| && b < |states[k].slots|
    ensures StillLinked(states[k], states[m], b, j)
    decreases m
  {
    hide Inv, Enabled, Apply, IsInit;
    RunInv(states, events, k);
    InvShape(states[k]);
    if k < m {
      LinksArePermanent(states, events, k, m - 1, b, j);
      RunInv(states, events, m - 1);
      InvShape(states[m - 1]);
      assert IsStep(states[m - 1], events[m - 1], states[m - 1 + 1]);
      StepKeepsLinks(states[m - 1], events[m - 1], b, j);
    }
  }

  lemma InvShape(s: State)
    requires Inv(s)
    ensures |s.chains| == |s.slots|
  {}

  /** Of all the calls that ever insert a key, one wins: the one that linked the slot. */
  lemma OneWinner(states: seq<State>, events: seq<Event>, k: nat, id1: nat, id2: nat)
    requires IsRun(states, events) && k < |states| && id1 in states[k].calls && id2 in states[k].calls
    requires states[k].calls[id1].key == states[k].calls[id2].key
    requires HasLinked(states[k].calls[id1]) && HasLinked(states[k].calls[id2])
    ensures id1 == id2
  {
    hide IsRun, ChainOk, SlotOk;
    RunInv(states, events, k);
    var s := states[k];
    var b := s.slotOf(s.calls[id1].key);
    assert CallOk(s, id1) && CallOk(s, id2);
    assert s.calls[id1].idx in s.chains[b] && s.calls[id2].idx in s.chains[b];
    SameKeySameSlot(s, s.calls[id1].idx, s.calls[id2].idx);
  }

  /** And every key in the map has its winner, whose value is there. */
  lemma EveryKeyHasAWinner(states: seq<State>, events: seq<Event>, k: nat, b: nat, n: nat)
    requires IsRun(states, events) && k < |states| && b < |states[k].chains| && n < |states[k].chains[b]|
    ensures
      var s, j := states[k], states[k].chains[b][n];
      && j < |s.slots| && j in s.owner && s.owner[j] in s.calls
      && var c := s.calls[s.owner[j]];
         HasLinked(c) && c.idx == j && s.slots[j].key == c.key && s.slots[j].value == c.value && !c.present
  {
    hide IsRun, SlotOk;
    RunInv(states, events, k);
    var s := states[k];
    assert ChainOk(s, b) && NodeOk(s, b, n);
    assert CallOk(s, s.owner[s.chains[b][n]]);
  }

  /** A call that has returned a slot returned the one slot that holds its key; two calls for one key
      return the same slot; and a call finds nothing only if the key was not there when it began. */
  lemma ResultsAgree(states: seq<State>, events: seq<Event>, k: nat, id1: nat, id2: nat)
    requires IsRun(states, events) && k < |states| && id1 in states[k].calls && id2 in states[k].calls
    requires states[k].calls[id1].at.Done? && states[k].calls[id2].at.Done?
    ensures
      var s, c1, c2 := states[k], states[k].calls[id1], states[k].calls[id2];
      && WellFormed(s)
      && (c1.at.result == 0 ==> c1.lookup && !c1.present)
      && (c1.at.result != 0 ==> FoundAt(s, c1, c1.at.result))
      && (c1.key == c2.key && c1.at.result != 0 && c2.at.result != 0 ==> c1.at.result == c2.at.result)
      && (c1.key == c2.key && c1.at.inserted && c2.at.inserted ==> id1 == id2)
  {
    hide IsRun, ChainOk, SlotOk;
    if states[k].calls[id1].key == states[k].calls[id2].key && states[k].calls[id1].at.inserted && states[k].calls[id2].at.inserted {
      OneWinner(states, events, k, id1, id2);
    }
    RunInv(states, events, k);
    var s := states[k];
    assert CallOk(s, id1) && CallOk(s, id2);
    var j1, j2 := s.calls[id1].at.result, s.calls[id2].at.result;
    if s.calls[id1].key == s.calls[id2].key && j1 != 0 && j2 != 0 {
      var b := s.slotOf(s.calls[id1].key);
      assert j1 in s.chains[b] && j2 in s.chains[b];
      SameKeySameSlot(s, j1, j2);
    }
  }

  /** No call ever meets an index outside the array or takes a state below zero: unless it has ended,
      it always has a next step. */
  lemma NeverStuck(states: seq<State>, events: seq<Event>, k: nat, id: nat) returns (e: Event)
    requires IsRun(states, events) && k < |states| && id in states[k].calls
    requires !states[k].calls[id].at.Done? && !states[k].calls[id].at.Failed?
    ensures Enabled(states[k], e) && !e.Start? && e.id == id
  {
    hide IsRun, ChainOk, SlotOk, Distinct;
    RunInv(states, events, k);
    var s := states[k];
    var c := s.calls[id];
    assert CallOk(s, id);
    match c.at
    case LoadPrev => e := DoLoadPrev(id);
    case FindLoad => e := DoFindLoad(id);
    case FindAt(cur) =>
      if cur == 0 { return DoFindEnd(id); }
      NodeInRange(s, s.slotOf(c.key), c.left);
      e := DoFindNext(id);
    case Allocate => e := DoFail(id);
    case Construct => e := DoConstruct(id);
    case WriteNext => e := DoWriteNext(id);
    case Swap => e := DoSwap(id);
    case Publish => e := DoPublish(id);
    case Undo(_) => HeldIsConstructing(s, id); e := DoUndo(id);
  }

  lemma NodeInRange(s: State, b: nat, n: nat)
    requires WellFormed(s) && b < |s.slots| && ChainOk(s, b) && n <= |s.chains[b]|
    ensures Nth(s.chains[b], n) < |s.slots|
  {
    if n > 0 { assert NodeOk(s, b, n - 1); }
  }

  lemma HeldIsConstructing(s: State, id: nat)
    requires Inv(s) && id in s.calls && s.calls[id].at.Undo?
    ensures StateOf(s.slots[s.calls[id].idx].headAndState) == CONSTRUCTING
  {
    hide ChainOk;
    assert CallOk(s, id) && SlotOk(s, s.calls[id].idx);
  }
}
