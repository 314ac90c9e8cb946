/** Runs of AtomicHashArray that reach what one might not expect: a size that is wrong or has wrapped,
    the debug check that fails, and the full flag that goes back. */
module HashArrayRuns {
  import opened Words
  import opened HashArray

  ghost predicate Reachable(s: State) {
    exists states: seq<State>, events: seq<Event> :: IsRun(states, events) && states[|states| - 1] == s
  }

  lemma StartReachable(s: State)
    requires IsInit(s)
    ensures Reachable(s)
  {
    assert IsRun([s], []);
  }

  lemma StepReachable(s: State, e: Event)
    requires Reachable(s) && Enabled(s, e)
    ensures Reachable(Apply(s, e))
  {
    hide IsInit, Enabled, Apply;
    var states: seq<State>, events: seq<Event> :| IsRun(states, events) && states[|states| - 1] == s;
    var longer, more := states + [Apply(s, e)], events + [e];
    forall k: nat | k < |more| ensures IsStep(longer[k], more[k], longer[k + 1]) {
      if k < |events| {
        assert IsStep(states[k], events[k], states[k + 1]);
      }
    }
    assert longer[0] == states[0];
    assert IsRun(longer, more);
  }

  /** Three empty cells; the keys 0, 1 and 2 start at theirs. */
  lemma Initial() returns (s: State)
    ensures Reachable(s) && WellFormed(s) && s.cells == [Empty, Empty, Empty]
    ensures s.calls == map[] && s.pending == 0 && s.entries == 0 && s.erases == 0 && s.isFull == 0
    ensures s.anchor(0) == 0 && s.anchor(1) == 1 && s.anchor(2) == 2
  {
    var hash := (key: nat) => key;
    var anchor := (key: nat) => KeyToAnchorIdx(hash(key), 3, 3);
    s := State([Empty, Empty, Empty], 0, 0, 0, 0, map[], anchor, {}, {}, {}, {}, {}, map[]);
    assert AnchoredBy(s, hash, 3);
    StartReachable(s);
  }

  /** What the next steps depend on. */
  ghost predicate At(s: State, id: nat, kind: Kind, key: nat, at: Step) {
    && id in s.calls && s.calls[id].kind == kind && s.calls[id].key == key && s.calls[id].at == at
    && s.calls[id].probes == 0 && s.calls[id].idx == s.anchor(key) < |s.cells|
  }

  ghost predicate SameElse(s: State, z: State, id: nat) {
    && Reachable(z) && WellFormed(z) && z.anchor == s.anchor && |z.cells| == |s.cells|
    && id in z.calls && z.calls == s.calls[id := z.calls[id]]
  }

  lemma Begin(s: State, id: nat, kind: Kind, key: nat) returns (z: State)
    requires Reachable(s) && WellFormed(s) && id !in s.calls
    ensures SameElse(s, z, id) && At(z, id, kind, key, FirstStep(kind)) && z.cells == s.cells && z.isFull == s.isFull
    ensures z.pending == s.pending && z.entries == s.entries && z.erases == s.erases
  {
    hide Reachable;
    StepReachable(s, Start(id, kind, key, key));
    z := Apply(s, Start(id, kind, key, key));
  }

  /** One step on the counters or the flag. */
  lemma Counting(s: State, id: nat, kind: Kind, key: nat, at: Step) returns (z: State)
    requires Reachable(s) && WellFormed(s) && At(s, id, kind, key, at) && !OnCells(at) && !at.Done? && !at.Threw?
    requires Decrements(at) ==> s.pending > 0
    ensures SameElse(s, z, id) && At(z, id, kind, key, AfterPending(s, s.calls[id])) && z.cells == s.cells
    ensures z.isFull == (if at.Seal? then NO_PENDING_INSERTS else if at.SetFull? then NO_NEW_INSERTS else s.isFull)
    ensures z.pending == (if at.IncPending? then s.pending + 1 else if Decrements(at) then s.pending - 1 else s.pending)
    ensures z.entries == (if at.IncEntries? then s.entries + 1 else s.entries)
    ensures z.erases == (if at.CountErase? then s.erases + 1 else s.erases)
  {
    hide Reachable;
    StepReachable(s, Move(id));
    z := Apply(s, Move(id));
  }

  /** One step on the call's cell. */
  lemma OnCell(s: State, id: nat, kind: Kind, key: nat, at: Step, next: Step) returns (z: State)
    requires Reachable(s) && WellFormed(s) && At(s, id, kind, key, at) && OnCells(at)
    requires AfterCell(s, s.calls[id]) == s.calls[id].(at := next)
    ensures SameElse(s, z, id) && At(z, id, kind, key, next) && z.isFull == s.isFull
    ensures z.cells == s.cells[s.anchor(key) := NewCell(s.calls[id], s.cells[s.anchor(key)])]
    ensures NewCell(s.calls[id], s.cells[s.anchor(key)]) == s.cells[s.anchor(key)] ==> z.cells == s.cells
    ensures z.pending == s.pending && z.entries == s.entries && z.erases == s.erases
  {
    hide Reachable;
    StepReachable(s, Move(id));
    z := Apply(s, Move(id));
  }

  /** An insert up to the lock. */
  lemma Locks(s: State, id: nat, key: nat) returns (z: State)
    requires Reachable(s) && WellFormed(s) && id !in s.calls && s.isFull == 0 && s.cells[s.anchor(key)].Empty?
    ensures SameElse(s, z, id) && At(z, id, Insert, key, Fill) && z.isFull == 0
    ensures z.cells == s.cells[s.anchor(key) := Locked]
    ensures z.pending == s.pending + 1 && z.entries == s.entries && z.erases == s.erases
  {
    hide Reachable, WellFormed;
    z := FindsRoom(s, id, key);
    z := OnCell(z, id, Insert, key, TryLock, Fill);
  }

  lemma FindsRoom(s: State, id: nat, key: nat) returns (z: State)
    requires Reachable(s) && WellFormed(s) && id !in s.calls && s.isFull == 0 && s.cells[s.anchor(key)].Empty?
    ensures SameElse(s, z, id) && At(z, id, Insert, key, TryLock) && z.isFull == 0 && z.cells == s.cells
    ensures z.pending == s.pending + 1 && z.entries == s.entries && z.erases == s.erases
  {
    hide Reachable, WellFormed;
    z := Begin(s, id, Insert, key);
    z := OnCell(z, id, Insert, key, Probe, IncPending);
    z := Counting(z, id, Insert, key, IncPending);
    z := Counting(z, id, Insert, key, CheckFull);
  }

  /** And on, until the entry can be found. */
  lemma Inserts(s: State, id: nat, key: nat) returns (z: State)
    requires Reachable(s) && WellFormed(s) && id !in s.calls && s.isFull == 0 && s.cells[s.anchor(key)].Empty?
    ensures SameElse(s, z, id) && At(z, id, Insert, key, DecDone) && z.isFull == 0
    ensures z.cells[s.anchor(key)].Key? && z.cells == s.cells[s.anchor(key) := z.cells[s.anchor(key)]]
    ensures HasKey(z.cells[s.anchor(key)], key)
    ensures z.pending == s.pending + 1 && z.entries == s.entries && z.erases == s.erases
  {
    hide Reachable, WellFormed;
    z := Locks(s, id, key);
    z := OnCell(z, id, Insert, key, Fill, DecDone);
  }

  /** And on, until it is counted and the maximum found to be reached. */
  lemma Counts(s: State, id: nat, key: nat) returns (z: State)
    requires Reachable(s) && WellFormed(s) && At(s, id, Insert, key, DecDone) && s.pending > 0
    ensures SameElse(s, z, id) && At(z, id, Insert, key, SetFull) && z.isFull == s.isFull && z.cells == s.cells
    ensures z.pending == s.pending - 1 && z.entries == s.entries + 1 && z.erases == s.erases
  {
    hide Reachable, WellFormed, AfterCell;
    z := Counting(s, id, Insert, key, DecDone);
    z := Counting(z, id, Insert, key, IncEntries);
    z := Counting(z, id, Insert, key, CheckMax);
  }

  /** An erase up to the exchange of the key. */
  lemma Erases(s: State, id: nat, key: nat) returns (z: State)
    requires Reachable(s) && WellFormed(s) && id !in s.calls && HasKey(s.cells[s.anchor(key)], key)
    ensures SameElse(s, z, id) && At(z, id, Kind.Erase, key, CountErase) && z.isFull == s.isFull
    ensures z.cells == s.cells[s.anchor(key) := Erased]
    ensures z.pending == s.pending && z.entries == s.entries && z.erases == s.erases
  {
    hide Reachable, WellFormed;
    z := Begin(s, id, Kind.Erase, key);
    z := OnCell(z, id, Kind.Erase, key, EraseProbe, EraseSwap);
    z := OnCell(z, id, Kind.Erase, key, EraseSwap, CountErase);
  }

  // ----- what runs can reach -----

  /** One key inserted and counted, then taken out but not counted: size() says 1, and there is none. */
  lemma SizeTooLarge() returns (s: State)
    ensures Reachable(s) && Size(s) == 1 && LiveKeys(s) == {}
  {
    hide Reachable, WellFormed;
    s := Initial();
    s := Inserts(s, 0, 0);
    s := Counts(s, 0, 0);
    s := Erases(s, 1, 0);
  }

  /** One key inserted but not counted, then taken out and counted: size() wraps. */
  lemma SizeWraps() returns (s: State)
    ensures Reachable(s) && Size(s) == TWO64 - 1 && LiveKeys(s) == {}
  {
    hide Reachable, WellFormed;
    s := Initial();
    s := Inserts(s, 0, 0);
    s := Erases(s, 1, 0);
    s := Counting(s, 1, Kind.Erase, 0, CountErase);
  }

  /** A call that has seen a lock stands at the debug check, and the cell is empty: the check fails. */
  lemma CheckCanFail() returns (s: State)
    ensures Reachable(s) && At(s, 1, Insert, 0, CheckKey) && s.calls[1].idx < |s.cells| && s.cells[s.calls[1].idx].Empty?
  {
    hide Reachable, WellFormed;
    s := Initial();
    s := Locks(s, 0, 0);
    s := Begin(s, 1, Insert, 0);
    s := OnCell(s, 1, Insert, 0, Probe, CheckKey);
    ThrowReachable(s);
    s := Apply(s, Throw(0));
  }

  lemma ThrowReachable(s: State)
    requires Reachable(s) && WellFormed(s) && At(s, 0, Insert, 0, Fill)
    ensures Enabled(s, Throw(0)) && Reachable(Apply(s, Throw(0)))
  {
    hide Reachable;
    StepReachable(s, Throw(0));
  }

  /** Two inserts find the maximum reached, and one of them sets the flag. */
  lemma TwoInserted() returns (s: State)
    ensures Reachable(s) && WellFormed(s) && s.anchor(2) == 2 && s.calls.Keys == {0, 1} && |s.cells| == 3 && s.cells[2].Empty?
    ensures At(s, 0, Insert, 0, SetFull) && s.isFull == NO_NEW_INSERTS && s.pending == 0
  {
    hide Reachable, WellFormed, AfterPending, Decrements, OnCells;
    s := Initial();
    s := Inserts(s, 0, 0);
    s := Counts(s, 0, 0);
    s := Inserts(s, 1, 1);
    s := Counts(s, 1, 1);
    s := SetsFlag(s, 1, 1);
  }

  /** An insert that finds the flag set and nothing pending. */
  lemma Seals(s: State, id: nat, key: nat) returns (z: State)
    requires Reachable(s) && WellFormed(s) && id !in s.calls && s.isFull == NO_NEW_INSERTS && s.pending == 0
    requires s.anchor(key) < |s.cells| && s.cells[s.anchor(key)].Empty?
    ensures SameElse(s, z, id) && z.isFull == NO_PENDING_INSERTS
  {
    hide Reachable, WellFormed, AfterPending, AfterCell;
    z := FindsFull(s, id, key);
    z := Waits(z, id, key);
  }

  lemma FindsFull(s: State, id: nat, key: nat) returns (z: State)
    requires Reachable(s) && WellFormed(s) && id !in s.calls && s.isFull == NO_NEW_INSERTS && s.pending == 0
    requires s.anchor(key) < |s.cells| && s.cells[s.anchor(key)].Empty?
    ensures SameElse(s, z, id) && At(z, id, Insert, key, DecFull) && z.isFull == NO_NEW_INSERTS && z.pending == 1
  {
    hide Reachable, WellFormed;
    z := Begin(s, id, Insert, key);
    z := OnCell(z, id, Insert, key, Probe, IncPending);
    z := Counting(z, id, Insert, key, IncPending);
    z := Counting(z, id, Insert, key, CheckFull);
  }

  lemma Waits(s: State, id: nat, key: nat) returns (z: State)
    requires Reachable(s) && WellFormed(s) && At(s, id, Insert, key, DecFull) && s.isFull == NO_NEW_INSERTS && s.pending == 1
    ensures SameElse(s, z, id) && z.isFull == NO_PENDING_INSERTS
  {
    hide Reachable, WellFormed;
    z := Counting(s, id, Insert, key, DecFull);
    z := Counting(z, id, Insert, key, WaitFull);
    z := Counting(z, id, Insert, key, WaitPending);
    z := Counting(z, id, Insert, key, Seal);
  }

  /** After that one has set the flag to 2 the other sets it to 1 again. */
  lemma FlagGoesBack() returns (s: State, z: State)
    ensures Reachable(s) && Enabled(s, Move(0)) && z == Apply(s, Move(0))
    ensures s.isFull == NO_PENDING_INSERTS && z.isFull == NO_NEW_INSERTS
  {
    hide Reachable, WellFormed;
    var s0 := TwoInserted();
    s := Seals(s0, 2, 2);
    assert At(s, 0, Insert, 0, SetFull);
    z := SetsFlag(s, 0, 0);
  }

  lemma SetsFlag(s: State, id: nat, key: nat) returns (z: State)
    requires Reachable(s) && WellFormed(s) && At(s, id, Insert, key, SetFull)
    ensures Enabled(s, Move(id)) && z == Apply(s, Move(id)) && z.isFull == NO_NEW_INSERTS
    ensures SameElse(s, z, id) && z.cells == s.cells && z.pending == s.pending
  {
    hide Reachable;
    StepReachable(s, Move(id));
    z := Apply(s, Move(id));
  }
}
