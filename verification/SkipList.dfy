/** ConcurrentSkipList (ConcurrentSkipList.h and ConcurrentSkipList-inl.h) run by one thread at a
    time: towers of links on the heap, refining a set of keys.  The random height of a new node is
    an arbitrary argument. */
module SkipList {

  // ----- the shape of the list -----

  class SkipListNode {
    const data: int
    const height: nat
    const isHead: bool
    var skip: seq<SkipListNode?>
    var markedForRemoval: bool
    var fullyLinked: bool

    constructor (height: nat, data: int, isHead: bool)
      requires height >= 1
      ensures this.height == height && this.data == data && this.isHead == isHead
      ensures !markedForRemoval && !fullyLinked
      ensures |skip| == height && forall k :: 0 <= k < height ==> skip[k] == null
    {
      this.height, this.data, this.isHead := height, data, isHead;
      markedForRemoval, fullyLinked := false, false;
      skip := seq(height, _ => null);
    }

    method SetSkip(h: nat, next: SkipListNode?)
      requires h < |skip|
      modifies this`skip
      ensures skip == old(skip)[h := next]
    {
      skip := skip[h := next];
    }

    /** Takes over the links of a lower head. */
    method CopyHead(node: SkipListNode)
      requires node != this && |node.skip| == node.height < height == |skip|
      modifies this`skip, this`markedForRemoval, this`fullyLinked
      ensures markedForRemoval == node.markedForRemoval && fullyLinked == node.fullyLinked
      ensures |skip| == height && forall k :: 0 <= k < height ==>
        skip[k] == if k < node.height then node.skip[k] else old(skip[k])
    {
      markedForRemoval, fullyLinked := node.markedForRemoval, node.fullyLinked;
      for i := 0 to node.height
        invariant markedForRemoval == node.markedForRemoval && fullyLinked == node.fullyLinked
        invariant |skip| == height && forall k :: 0 <= k < height ==>
          skip[k] == if k < i then node.skip[k] else old(skip[k])
      {
        SetSkip(i, node.skip[i]);
      }
    }
  }

  /** The first node from index i on that is taller than k. */
  ghost function Next(nodes: seq<SkipListNode>, i: nat, k: nat): (j: nat)
    ensures j <= |nodes| && (i <= |nodes| ==> i <= j)
    ensures j < |nodes| ==> nodes[j].height > k
    ensures forall m :: i <= m < j ==> nodes[m].height <= k
    decreases |nodes| - i
  {
    if i >= |nodes| then |nodes| else if nodes[i].height > k then i else Next(nodes, i + 1, k)
  }

  ghost function At(nodes: seq<SkipListNode>, i: nat): SkipListNode? {
    if i < |nodes| then nodes[i] else null
  }

  /** The first node after the head whose key is not below the given one. */
  ghost function Position(nodes: seq<SkipListNode>, i: nat, data: int): (j: nat)
    ensures j <= |nodes| && (i <= |nodes| ==> i <= j)
    ensures j < |nodes| ==> nodes[j].data >= data
    ensures forall m :: i <= m < j ==> nodes[m].data < data
    decreases |nodes| - i
  {
    if i >= |nodes| then |nodes| else if nodes[i].data >= data then i else Position(nodes, i + 1, data)
  }

  ghost predicate Sorted(nodes: seq<SkipListNode>) {
    forall i, j :: 1 <= i < j < |nodes| ==> nodes[i].data < nodes[j].data
  }

  ghost predicate Distinct(nodes: seq<SkipListNode>) {
    forall i, j :: 0 <= i < j < |nodes| ==> nodes[i] != nodes[j]
  }

  /** On layer k node i points to the next node that is taller than k. */
  ghost predicate LinkOk(nodes: seq<SkipListNode>, i: nat, k: nat)
    requires i < |nodes| && k < nodes[i].height
    reads nodes`skip
  {
    |nodes[i].skip| == nodes[i].height && nodes[i].skip[k] == At(nodes, Next(nodes, i + 1, k))
  }

  /** Layer k threads exactly the nodes taller than k. */
  ghost predicate Layer(nodes: seq<SkipListNode>, k: nat)
    reads nodes`skip
  {
    forall i :: 0 <= i < |nodes| && k < nodes[i].height ==> LinkOk(nodes, i, k)
  }

  ghost predicate Tall(nodes: seq<SkipListNode>) {
    && |nodes| > 0
    && forall i :: 0 <= i < |nodes| ==> 1 <= nodes[i].height <= nodes[0].height
  }

  /** No node is half linked or half removed. */
  ghost predicate Settled(nodes: seq<SkipListNode>)
    reads nodes`markedForRemoval, nodes`fullyLinked
  {
    forall i :: 0 <= i < |nodes| ==> !nodes[i].markedForRemoval && (nodes[i].isHead <==> i == 0) && (i > 0 ==> nodes[i].fullyLinked)
  }

  ghost function Keys(nodes: seq<SkipListNode>): set<int> {
    set i | 1 <= i < |nodes| :: nodes[i].data
  }

  // ----- inserting into and deleting from the sequence of nodes -----

  ghost function Insert(nodes: seq<SkipListNode>, p: nat, x: SkipListNode): seq<SkipListNode>
    requires p <= |nodes|
  {
    nodes[..p] + [x] + nodes[p..]
  }

  ghost function Delete(nodes: seq<SkipListNode>, p: nat): seq<SkipListNode>
    requires p < |nodes|
  {
    nodes[..p] + nodes[p + 1..]
  }

  lemma {:induction false} NextAfter(nodes: seq<SkipListNode>, p: nat, x: SkipListNode, i: nat, k: nat)
    requires p <= i <= |nodes|
    ensures Next(Insert(nodes, p, x), i + 1, k) == Next(nodes, i, k) + 1
    decreases |nodes| - i
  {
    if i < |nodes| {
      assert Insert(nodes, p, x)[i + 1] == nodes[i];
      NextAfter(nodes, p, x, i + 1, k);
    }
  }

  /** Before the insertion point only the node whose successor lay beyond it sees the new node. */
  lemma {:induction false} NextBefore(nodes: seq<SkipListNode>, p: nat, x: SkipListNode, i: nat, k: nat)
    requires i <= p <= |nodes|
    ensures
      var j := Next(nodes, i, k);
      Next(Insert(nodes, p, x), i, k) == if j < p then j else if x.height > k then p else j + 1
    decreases p - i
  {
    if i < p {
      assert Insert(nodes, p, x)[i] == nodes[i];
      NextBefore(nodes, p, x, i + 1, k);
    } else {
      NextAfter(nodes, p, x, p, k);
      assert Insert(nodes, p, x)[p] == x;
    }
  }

  lemma AtInsert(nodes: seq<SkipListNode>, p: nat, x: SkipListNode, i: nat)
    requires p <= |nodes|
    ensures At(Insert(nodes, p, x), i) == if i < p then At(nodes, i) else if i == p then x else At(nodes, i - 1)
  {}

  /** The key is smaller, or larger, than the node's; past the end everything is smaller. */
  predicate Greater(data: int, node: SkipListNode?) {
    node != null && node.data < data
  }

  predicate Less(data: int, node: SkipListNode?) {
    node == null || data < node.data
  }

  class ConcurrentSkipList {
    const MAX_HEIGHT: nat
    var head: SkipListNode
    var size: nat
    ghost var nodes: seq<SkipListNode>

    /** The towers are linked: layer k threads, in the order of their keys, exactly the nodes taller
        than k.  Nodes may be marked for removal. */
    ghost predicate Linked()
      reads this, nodes`skip
    {
      && 2 <= MAX_HEIGHT < 64 && Tall(nodes) && Sorted(nodes) && Distinct(nodes)
      && head == nodes[0] && head.isHead && head.height <= MAX_HEIGHT
      && (forall k :: 0 <= k < head.height ==> Layer(nodes, k))
    }

    /** Between calls no node is half linked or half removed, and the size is right. */
    ghost predicate Valid()
      reads this, nodes
    {
      Linked() && size + 1 == |nodes| && Settled(nodes)
    }

    /** The first node not below a key. */
    ghost function Pos(data: int): nat
      reads this
    {
      Position(nodes, 1, data)
    }

    constructor (height: nat, maxHeight: nat)
      requires 1 <= height <= maxHeight && 2 <= maxHeight < 64
      ensures Valid() && Keys(nodes) == {} && MAX_HEIGHT == maxHeight && head.height == height
      ensures fresh(head)
    {
      MAX_HEIGHT := maxHeight;
      var h := new SkipListNode(height, 0, true);
      head := h;
      size := 0;
      nodes := [h];
    }

    lemma Split()
      ensures Valid() <==> Linked() && size + 1 == |nodes| && Settled(nodes)
    {}

    lemma Link(i: nat, k: nat)
      requires Linked() && i < |nodes| && k < nodes[i].height
      ensures |nodes[i].skip| == nodes[i].height && nodes[i].skip[k] == At(nodes, Next(nodes, i + 1, k))
    {
      hide Next, Position, Sorted, Distinct;
      assert Layer(nodes, k) && LinkOk(nodes, i, k);
    }

    lemma Basics(data: int)
      requires Linked()
      ensures |nodes| > 0 && head == nodes[0] && 1 <= head.height <= MAX_HEIGHT && 1 <= Pos(data) <= |nodes|
      ensures Pos(data) < |nodes| ==> 1 <= nodes[Pos(data)].height <= head.height
      ensures Pos(data) == Position(nodes, 1, data)
    {}

    /** At a layer, the first tall node not below the key is the one with the key or above it. */
    lemma Landing(data: int, k: nat)
      requires Linked()
      ensures
        var p := Pos(data);
        var node := At(nodes, Next(nodes, p, k));
        && !Greater(data, node)
        && (!Less(data, node) <==> p < |nodes| && nodes[p].data == data && k < nodes[p].height)
        && (p < |nodes| && k < nodes[p].height ==> node == nodes[p])
    {
      hide Layer, Distinct, Tall;
      var p := Pos(data);
      var j := Next(nodes, p, k);
      if p < j < |nodes| { assert nodes[p].data < nodes[j].data; }
    }

    // ----- searching -----

    /** Stepping right on a layer as long as the key is greater. */
    method StepRight(start: SkipListNode, layer: nat, data: int, ghost at: nat)
        returns (pred: SkipListNode, node: SkipListNode?, ghost pi: nat)
      requires Linked() && at < Pos(data) && start == nodes[at] && layer < start.height
      ensures at <= pi < Pos(data) && Before(pi, layer, Pos(data)) && pred == nodes[pi]
      ensures node == At(nodes, Next(nodes, Pos(data), layer))
      ensures layer < |pred.skip| == pred.height && node == pred.skip[layer]
    {
      hide Next, Position, Layer, Distinct, Tall;
      pred, pi := start, at;
      Link(pi, layer);
      node := pred.skip[layer];
      while Greater(data, node)
        invariant at <= pi < Pos(data) && pred == nodes[pi] && layer < pred.height
        invariant node == At(nodes, Next(nodes, pi + 1, layer))
        invariant layer < |pred.skip| == pred.height && node == pred.skip[layer]
        decreases |nodes| - pi
      {
        pi := Next(nodes, pi + 1, layer);
        BelowIsBefore(pi, data);
        pred := node;
        Link(pi, layer);
        node := node.skip[layer];
      }
      ghost var j := Next(nodes, pi + 1, layer);
      if j < |nodes| { assert node == nodes[j]; }
      NextBeyond(nodes, pi + 1, Pos(data), layer);
    }

    lemma BelowIsBefore(i: nat, data: int)
      requires Sorted(nodes) && 1 <= i < |nodes| && nodes[i].data < data
      ensures i < Pos(data)
    {
      if Pos(data) < |nodes| { InOrder(Pos(data), i); }
    }

    lemma InOrder(i: nat, j: nat)
      requires Sorted(nodes) && 1 <= i < |nodes| && 1 <= j < |nodes|
      ensures nodes[i].data < nodes[j].data <==> i < j
    {}

    /** Node b is the last one before p that is taller than k. */
    ghost predicate Before(b: nat, k: nat, p: nat)
      reads this
      ensures Before(b, k, p) ==> b < p <= |nodes|
    {
      b < p <= |nodes| && k < nodes[b].height && Next(nodes, b + 1, k) >= p
    }

    /** The way down: at every layer the last node below the key, and its successor there. */
    method FindInsertionPoint(data: int, preds: array<SkipListNode?>, succs: array<SkipListNode?>)
        returns (foundLayer: int, ghost before: seq<nat>)
      requires Linked() && preds.Length == MAX_HEIGHT == succs.Length && preds != succs
      modifies preds, succs
      ensures Path(data, head.height, preds, succs, before)
      ensures foundLayer == var p := Pos(data);
                            if p < |nodes| && nodes[p].data == data then nodes[p].height - 1 else -1
    {
      hide *;
      Basics(data);
      foundLayer := -1;
      var pred := head;
      var foundNode: SkipListNode? := null;
      ghost var pi, p := 0, Pos(data);
      before := seq(head.height, _ => 0);
      var layer := head.height - 1;
      while layer >= 0
        invariant -1 <= layer < head.height && 0 <= pi < p && pred == nodes[pi] && pred.height > layer
        invariant |before| == head.height
        invariant forall k :: layer < k < head.height ==> Before(before[k], k, p)
        invariant forall k :: layer < k < head.height ==> preds[k] == nodes[before[k]] && succs[k] == At(nodes, Next(nodes, p, k))
        invariant if p < |nodes| && nodes[p].data == data && layer < nodes[p].height - 1
                  then foundLayer == nodes[p].height - 1 && foundNode == nodes[p]
                  else foundLayer == -1 && foundNode == null
      {
        var node;
        pred, node, pi := StepRight(pred, layer, data, pi);
        Landing(data, layer);
        if foundLayer == -1 && !Less(data, node) {
          foundLayer := layer;
          foundNode := node;
        }
        preds[layer] := pred;
        succs[layer] := if foundNode != null then foundNode else node;
        before := before[layer := pi];
        layer := layer - 1;
      }
      PathHolds(data, preds, succs, before);
    }

    lemma PathHolds(data: int, preds: array<SkipListNode?>, succs: array<SkipListNode?>, before: seq<nat>)
      requires |nodes| > 0 && head.height <= |before| && preds.Length == MAX_HEIGHT == succs.Length && head.height <= MAX_HEIGHT
      requires forall k :: 0 <= k < head.height ==> Before(before[k], k, Pos(data))
      requires forall k :: 0 <= k < head.height ==>
        before[k] < |nodes| && preds[k] == nodes[before[k]] && succs[k] == At(nodes, Next(nodes, Pos(data), k))
      ensures Path(data, head.height, preds, succs, before)
    {
      hide Next, At, Position;
    }

    /** Stepping down as long as the next node is beyond the key. */
    method StepDown(pred: SkipListNode, start: nat, above: SkipListNode?, data: int, ghost pi: nat)
        returns (ht: nat, node: SkipListNode?)
      requires Linked() && pi < |nodes| && pred == nodes[pi] && start <= pred.height
      requires start < pred.height ==> Less(data, above) && above == At(nodes, Next(nodes, pi + 1, start))
      ensures ht <= start
      ensures ht < pred.height ==> Less(data, node) && node == At(nodes, Next(nodes, pi + 1, ht))
    {
      hide Next, Position, Layer, Distinct, Sorted;
      ht, node := start, above;
      while ht > 0
        invariant 0 <= ht <= start
        invariant ht < pred.height ==> Less(data, node) && node == At(nodes, Next(nodes, pi + 1, ht))
      {
        Link(pi, ht - 1);
        if !Less(data, pred.skip[ht - 1]) { break; }
        node := pred.skip[ht - 1];
        ht := ht - 1;
      }
    }

    /** Stepping down, then right: the first node not below the key, and whether it has the key. */
    method FindNodeDownRight(data: int) returns (node: SkipListNode?, found: bool)
      requires Linked()
      ensures node == At(nodes, Pos(data))
      ensures found <==> node != null && node.data == data
    {
      hide Next, Position, Layer, Distinct, Sorted;
      var pred, ht := head, head.height;
      ghost var pi := 0;
      node, found := null, false;
      while !found
        invariant 0 <= pi < Pos(data) && pred == nodes[pi] && 0 <= ht <= pred.height
        invariant !found && ht < pred.height ==> Less(data, node) && node == At(nodes, Next(nodes, pi + 1, ht))
        invariant found ==> node == At(nodes, Pos(data)) && node != null && node.data == data
        decreases !found, ht
      {
        ht, node := StepDown(pred, ht, node, data, pi);
        if ht == 0 {
          Bottom(pi, data);
          return node, false;
        }
        ht := ht - 1;
        pred, node, pi := StepRight(pred, ht, data, pi);
        Landing(data, ht);
        found := !Less(data, node);
      }
    }

    /** At the bottom the successor of the last node below the key is the first one not below it. */
    lemma Bottom(pi: nat, data: int)
      requires Linked() && pi < Pos(data) && Less(data, At(nodes, Next(nodes, pi + 1, 0)))
      ensures At(nodes, Next(nodes, pi + 1, 0)) == At(nodes, Pos(data))
      ensures Less(data, At(nodes, Pos(data)))
    {
      hide Layer, Distinct;
      if pi + 1 < |nodes| {
        assert nodes[pi + 1].height >= 1;
      }
    }

    /** Stepping right, then down. */
    method FindNodeRightDown(data: int) returns (node: SkipListNode?, found: bool)
      requires Linked()
      ensures node == At(nodes, Pos(data))
      ensures found <==> node != null && node.data == data
    {
      hide Next, Position, Layer, Distinct, Sorted;
      var pred := head;
      ghost var pi := 0;
      node, found := null, false;
      var layer := head.height - 1;
      while !found && layer >= 0
        invariant -1 <= layer < head.height && 0 <= pi < Pos(data) && pred == nodes[pi] && pred.height > layer
        invariant layer < head.height - 1 ==> node == At(nodes, Next(nodes, Pos(data), layer + 1))
        invariant layer < head.height - 1 ==> !found ==> Less(data, node)
        invariant found ==> node == At(nodes, Pos(data)) && node != null && node.data == data
      {
        pred, node, pi := StepRight(pred, layer, data, pi);
        Landing(data, layer);
        found := !Less(data, node);
        layer := layer - 1;
      }
      if !found { NextBottom(Pos(data)); }
    }

    lemma NextBottom(i: nat)
      requires Tall(nodes) && i <= |nodes|
      ensures Next(nodes, i, 0) == i
    {
      if i < |nodes| { assert nodes[i].height >= 1; }
    }

    /** The first node not below the key that is not being removed. */
    method LowerBound(data: int) returns (node: SkipListNode?)
      requires Linked()
      ensures node != null ==> exists i :: Pos(data) <= i < |nodes| && node == nodes[i] && !node.markedForRemoval
                                    && forall j :: Pos(data) <= j < i ==> nodes[j].markedForRemoval
      ensures node == null ==> forall j :: Pos(data) <= j < |nodes| ==> nodes[j].markedForRemoval
    {
      hide Next, Position, Layer, Distinct, Sorted;
      var found;
      node, found := FindNodeDownRight(data);
      ghost var i := Pos(data);
      while node != null && node.markedForRemoval
        invariant Pos(data) <= i <= |nodes| && node == At(nodes, i)
        invariant forall j :: Pos(data) <= j < i ==> nodes[j].markedForRemoval
        decreases |nodes| - i
      {
        assert nodes[i].height >= 1;
        Link(i, 0);
        NextBottom(i + 1);
        node := node.skip[0];
        i := i + 1;
      }
    }

    /** The node with the key, unless it is being removed. */
    method Find(data: int) returns (node: SkipListNode?)
      requires Linked()
      ensures node != null ==> node.data == data && !node.markedForRemoval && exists i :: 1 <= i < |nodes| && node == nodes[i]
      ensures node == null ==> forall i :: 1 <= i < |nodes| && nodes[i].data == data ==> nodes[i].markedForRemoval
    {
      hide Next, Layer, Distinct;
      var first, found := FindNodeDownRight(data);
      ghost var p := Pos(data);
      if found && !first.markedForRemoval {
        assert first == nodes[p];
        return first;
      }
      node := null;
      forall i | 1 <= i < |nodes| && nodes[i].data == data ensures nodes[i].markedForRemoval {
        if p < |nodes| { InOrder(p, i); }
      }
    }

    method First() returns (node: SkipListNode?)
      requires Linked()
      ensures node == At(nodes, 1)
    {
      hide Next, Position, Layer, Distinct, Sorted;
      Link(0, 0);
      NextBottom(1);
      node := head.skip[0];
    }

    /** The last node, reached by the longest steps. */
    method Last() returns (node: SkipListNode?)
      requires Linked()
      ensures node == if |nodes| == 1 then null else nodes[|nodes| - 1]
    {
      hide Next, Position, Layer, Sorted;
      var pred := head;
      ghost var pi := 0;
      var layer := head.height - 1;
      while layer >= 0
        invariant -1 <= layer < head.height && 0 <= pi < |nodes| && pred == nodes[pi] && pred.height > layer
        invariant layer < head.height - 1 ==> Next(nodes, pi + 1, layer + 1) == |nodes|
      {
        Link(pi, layer);
        var next := pred.skip[layer];
        while next != null
          invariant 0 <= pi < |nodes| && pred == nodes[pi] && pred.height > layer
          invariant next == At(nodes, Next(nodes, pi + 1, layer))
          decreases |nodes| - pi
        {
          pi := Next(nodes, pi + 1, layer);
          pred := next;
          Link(pi, layer);
          next := pred.skip[layer];
        }
        layer := layer - 1;
      }
      NextBottom(pi + 1);
      node := if pred == head then null else pred;
    }

    // ----- changing -----

    /** The validation under the locks: nothing the search saw has changed.  The locks themselves do
        nothing when one thread runs at a time. */
    method LockNodesForChange(nodeHeight: nat, preds: array<SkipListNode?>, succs: array<SkipListNode?>, adding: bool)
        returns (valid: bool)
      requires nodeHeight <= preds.Length && nodeHeight <= succs.Length
      requires forall k :: 0 <= k < nodeHeight ==> preds[k] != null && k < |preds[k].skip|
      ensures valid <==> forall k :: 0 <= k < nodeHeight ==> Unchanged(preds[k], succs[k], k, adding)
    {
      valid := true;
      var layer := 0;
      while valid && layer < nodeHeight
        invariant 0 <= layer <= nodeHeight
        invariant valid <==> forall k :: 0 <= k < layer ==> Unchanged(preds[k], succs[k], k, adding)
      {
        var pred, succ := preds[layer], succs[layer];
        valid := !pred.markedForRemoval && pred.skip[layer] == succ;
        if adding {
          valid := valid && (succ == null || !succ.markedForRemoval);
        }
        layer := layer + 1;
      }
    }

    /** What the search leaves behind for a key, on the layers below `height`. */
    ghost predicate Path(data: int, height: nat, preds: array<SkipListNode?>, succs: array<SkipListNode?>, before: seq<nat>)
      reads this, preds, succs
    {
      && preds.Length == MAX_HEIGHT == succs.Length && height <= MAX_HEIGHT && height <= |before|
      && (forall k :: 0 <= k < height ==> Before(before[k], k, Pos(data)))
      && (forall k :: 0 <= k < height ==>
            preds[k] == nodes[before[k]] && succs[k] == At(nodes, Next(nodes, Pos(data), k)))
    }

    lemma PathLinks(data: int, height: nat, preds: array<SkipListNode?>, succs: array<SkipListNode?>, before: seq<nat>, k: nat)
      requires Linked() && Path(data, height, preds, succs, before) && k < height
      ensures k < |preds[k].skip| && preds[k].skip[k] == succs[k]
    {
      hide Next, Position, Layer;
      Link(before[k], k);
      NextBeyond(nodes, before[k] + 1, Pos(data), k);
    }

    /** The new node points to the successors, and on its layers the nodes before point to it. */
    method LinkIn(node: SkipListNode, data: int, preds: array<SkipListNode?>, succs: array<SkipListNode?>, ghost before: seq<nat>)
      requires Linked() && Path(data, head.height, preds, succs, before)
      requires node !in nodes && |node.skip| == node.height <= head.height
      modifies nodes`skip, node`skip
      ensures Linking(nodes, before, node.height, node)
      ensures |node.skip| == node.height
      ensures forall k :: 0 <= k < node.height ==> node.skip[k] == At(nodes, Next(nodes, Pos(data), k))
    {
      hide *;
      Shape();
      PathShape(data, preds, succs, before);
      StartLinking(before, node);
      for k := 0 to node.height
        invariant Linking(nodes, before, k, node)
        invariant |node.skip| == node.height
        invariant forall j :: 0 <= j < k ==> node.skip[j] == succs[j]
      {
        node.SetSkip(k, succs[k]);
        LinkUp(preds[k], before, k, node);
      }
    }

    lemma StartLinking(before: seq<nat>, x: SkipListNode)
      requires Linked()
      ensures Linking(nodes, before, 0, x)
    {
      forall i, k | 0 <= i < |nodes| && 0 <= k < nodes[i].height ensures LinkingOk(nodes, before, 0, x, i, k) {
        Link(i, k);
      }
    }

    method LinkUp(pred: SkipListNode, ghost before: seq<nat>, k: nat, node: SkipListNode)
      requires Distinct(nodes) && node !in nodes && k < |before| && before[k] < |nodes|
      requires pred == nodes[before[k]] && k < pred.height && Linking(nodes, before, k, node)
      modifies pred`skip
      ensures Linking(nodes, before, k + 1, node)
    {
      hide Next, At;
      assert LinkingOk(nodes, before, k, node, before[k], k);
      pred.SetSkip(k, node);
      ghost var n := k + 1;
      forall i, j | 0 <= i < |nodes| && 0 <= j < nodes[i].height ensures LinkingOk(nodes, before, n, node, i, j) {
        assert old(LinkingOk(nodes, before, k, node, i, j));
      }
    }

    /** The validation never fails, so nothing is ever retried. */
    method ValidatePath(data: int, nodeHeight: nat, preds: array<SkipListNode?>, succs: array<SkipListNode?>,
        ghost before: seq<nat>, ghost gone: nat, adding: bool)
      requires Linked() && Path(data, head.height, preds, succs, before) && nodeHeight <= head.height
      requires SettledExcept(nodes, gone) && gone >= Pos(data) && (adding ==> gone >= |nodes|)
      requires preds.Length == MAX_HEIGHT == succs.Length && head.height <= MAX_HEIGHT
    {
      hide *;
      PathShape(data, preds, succs, before);
      forall k | 0 <= k < head.height
        ensures k < |preds[k].skip| && Unchanged(preds[k], succs[k], k, adding)
      {
        PathUnchanged(data, preds, succs, before, k, gone);
        UnchangedWeaker(preds[k], succs[k], k, gone >= |nodes|, adding);
      }
      var valid := LockNodesForChange(nodeHeight, preds, succs, adding);
      assert valid;
    }

    /** Links a new node in, from the bottom up. */
    method AddNode(data: int, nodeHeight: nat, preds: array<SkipListNode?>, succs: array<SkipListNode?>, ghost before: seq<nat>)
        returns (node: SkipListNode, newSize: nat)
      requires Valid() && 1 <= nodeHeight <= head.height && Path(data, head.height, preds, succs, before)
      requires Pos(data) < |nodes| ==> nodes[Pos(data)].data != data
      modifies this, nodes
      ensures Valid() && fresh(node) && node.data == data && node.height == nodeHeight
      ensures nodes == Insert(old(nodes), old(Pos(data)), node) && newSize == size == old(size) + 1
    {
      hide *;
      Split();
      Shape();
      PathShape(data, preds, succs, before);
      SettledWhole(nodes);
      ghost var base, p := nodes, Pos(data);
      ValidatePath(data, nodeHeight, preds, succs, before, |nodes|, true);
      node := new SkipListNode(nodeHeight, data, false);
      LinkIn(node, data, preds, succs, before);
      node.fullyLinked := true;
      size := size + 1;
      newSize := size;
      nodes := Insert(base, p, node);
      Inserted(base, p, node, before);
      SettledInsert(base, p, node);
      InsertIndex(base, p, node, p);
      Split();
    }

    lemma HeadListed()
      requires Linked()
      ensures head in nodes
    {}

    /** The shape of the list and of the way down, spelled out. */
    lemma Shape()
      requires Linked()
      ensures 2 <= MAX_HEIGHT < 64 && Tall(nodes) && Sorted(nodes) && Distinct(nodes)
      ensures |nodes| > 0 && head == nodes[0] && head.isHead && 1 <= head.height <= MAX_HEIGHT
    {}

    lemma PathShape(data: int, preds: array<SkipListNode?>, succs: array<SkipListNode?>, before: seq<nat>)
      requires Linked() && Path(data, head.height, preds, succs, before)
      ensures preds.Length == MAX_HEIGHT == succs.Length && head.height <= |before|
      ensures Pos(data) == Position(nodes, 1, data) && 1 <= Pos(data) <= |nodes|
      ensures Pos(data) < |nodes| ==> 1 <= nodes[Pos(data)].height <= head.height
      ensures forall k :: 0 <= k < head.height ==>
        before[k] < Pos(data) && k < nodes[before[k]].height && Next(nodes, before[k] + 1, k) >= Pos(data)
      ensures forall k :: 0 <= k < head.height ==>
        preds[k] == nodes[before[k]] && succs[k] == At(nodes, Next(nodes, Pos(data), k))
      ensures forall k :: 0 <= k < head.height ==> k < |preds[k].skip|
    {
      hide Next, At, Layer, LinkOk, Sorted, Distinct;
      forall k | 0 <= k < head.height ensures Before(before[k], k, Pos(data)) && k < |preds[k].skip| {
        assert Before(before[k], k, Pos(data));
        Link(before[k], k);
      }
    }

    lemma PathUnchanged(data: int, preds: array<SkipListNode?>, succs: array<SkipListNode?>, before: seq<nat>, k: nat, gone: nat)
      requires Linked() && Path(data, head.height, preds, succs, before) && k < head.height
      requires SettledExcept(nodes, gone) && gone >= Pos(data)
      ensures k < |preds[k].skip| && Unchanged(preds[k], succs[k], k, gone >= |nodes|)
    {
      hide Next, Position, Layer, LinkOk;
      PathLinks(data, head.height, preds, succs, before, k);
      assert Before(before[k], k, Pos(data));
    }

    /** With the new node in the sequence, everything is linked again. */
    lemma Inserted(base: seq<SkipListNode>, p: nat, x: SkipListNode, before: seq<nat>)
      requires 2 <= MAX_HEIGHT < 64 && Tall(base) && Sorted(base) && Distinct(base)
      requires head == base[0] && head.isHead && head.height <= MAX_HEIGHT
      requires p == Position(base, 1, x.data) && (p < |base| ==> base[p].data != x.data) && nodes == Insert(base, p, x)
      requires x !in base && 1 <= x.height <= head.height <= |before| && Linking(base, before, x.height, x)
      requires |x.skip| == x.height && forall k :: 0 <= k < x.height ==> x.skip[k] == At(base, Next(base, p, k))
      requires forall k :: 0 <= k < head.height ==>
        before[k] < p && k < base[before[k]].height && Next(base, before[k] + 1, k) >= p
      ensures Linked()
    {
      hide Next, At, LinkOk, LinkingOk, Sorted, Distinct, Position, Layer, Linking;
      InsertSorted(base, p, x);
      InsertDistinct(base, p, x);
      forall k | 0 <= k < head.height ensures Layer(nodes, k) {
        InsertedLayer(base, p, x, before, k);
      }
    }

    lemma InsertedLayer(base: seq<SkipListNode>, p: nat, x: SkipListNode, before: seq<nat>, k: nat)
      requires x.height <= |before| && k < |before| && before[k] < p <= |base| && Linking(base, before, x.height, x)
      requires k < base[before[k]].height && Next(base, before[k] + 1, k) >= p
      requires |x.skip| == x.height && (k < x.height ==> x.skip[k] == At(base, Next(base, p, k)))
      ensures Layer(Insert(base, p, x), k)
    {
      hide Next, At, LinkOk, LinkingOk;
      var after := Insert(base, p, x);
      if k < x.height { InsertedLink(base, p, x, k); }
      forall i | 0 <= i < |after| && k < after[i].height ensures LinkOk(after, i, k) {
        if i < p {
          InsertLink(base, before, p, x, i, k);
        } else if i > p {
          InsertLink(base, before, p, x, i - 1, k);
        }
      }
    }

    /** The same value again, or a new node of the given height; the new size, or 0 if nothing was
        added. */
    method AddOrGetData(data: int, nodeHeight: nat, sizeLimit: nat -> nat) returns (node: SkipListNode, newSize: nat)
      requires Valid() && 1 <= nodeHeight <= head.height
      modifies this, nodes
      ensures Valid() && Keys(nodes) == old(Keys(nodes)) + {data}
      ensures node in nodes[1..] && node.data == data
      ensures newSize > 0 <==> data !in old(Keys(nodes))
      ensures newSize > 0 ==> newSize == size && fresh(node) && node.height == nodeHeight
                              && nodes[1..] == Insert(old(nodes), old(Pos(data)), node)[1..]
      ensures newSize == 0 ==> nodes == old(nodes)
      ensures forall o :: o in nodes ==> o in old(nodes) || fresh(o)
    {
      hide *;
      Split();
      Shape();
      Membership(nodes, data);
      Basics(data);
      var preds, succs := new SkipListNode?[MAX_HEIGHT], new SkipListNode?[MAX_HEIGHT];
      var layer;
      ghost var before, base, p := [], nodes, Pos(data);
      layer, before := FindInsertionPoint(data, preds, succs);
      PathShape(data, preds, succs, before);
      if layer >= 0 {
        Landing(data, layer);
        assert succs[layer] == base[p] == base[1..][p - 1];
        return succs[layer], 0;
      }
      node, newSize := AddNode(data, nodeHeight, preds, succs, before);
      KeysInsert(base, p, node);
      InsertSubset(base, p, node);
      ghost var added := nodes;
      Split();
      Shape();
      InsertIndex(base, p, node, p);
      InsertIndex(base, p, node, 0);
      assert node == added[1..][p - 1];
      var hgt := head.height;
      if hgt < MAX_HEIGHT && newSize > sizeLimit(hgt) {
        GrowHeight(hgt + 1);
        Split();
        Shape();
        KeysTail(added, nodes);
      }
    }

    /** A taller head takes over the links of the old one. */
    method GrowHeight(height: nat)
      requires Valid() && height <= MAX_HEIGHT
      modifies this, head
      ensures Valid() && size == old(size) && nodes[1..] == old(nodes[1..])
      ensures head.height == if old(head.height) >= height then old(head.height) else height
      ensures old(head.height) >= height ==> nodes == old(nodes) && head == old(head)
      ensures forall o :: o in nodes ==> o in old(nodes) || fresh(o)
    {
      hide Next, Position, Layer, LinkOk, At, Sorted;
      var oldHead := head;
      if oldHead.height >= height { return; }
      var newHead := new SkipListNode(height, 0, true);
      Link(0, 0);
      forall k | 0 <= k < oldHead.height ensures oldHead.skip[k] == At(nodes, Next(nodes, 1, k)) {
        Link(0, k);
      }
      newHead.CopyHead(oldHead);
      head := newHead;
      oldHead.markedForRemoval := true;
      ghost var base := nodes;
      nodes := nodes[0 := newHead];
      HeadReplaced(base, newHead);
      TailSubset(base, nodes);
    }

    lemma HeadReplaced(base: seq<SkipListNode>, x: SkipListNode)
      requires 2 <= MAX_HEIGHT < 64 && Tall(base) && Sorted(base) && Distinct(base) && x !in base && nodes == base[0 := x]
      requires head == x && x.isHead && !x.markedForRemoval && base[0].height < x.height <= MAX_HEIGHT && |x.skip| == x.height
      requires forall k :: 0 <= k < x.height ==>
        x.skip[k] == if k < base[0].height then At(base, Next(base, 1, k)) else null
      requires forall k :: 0 <= k < base[0].height ==> Layer(base, k)
      ensures Linked()
    {
      hide Next, LinkOk;
      forall k | 0 <= k < head.height ensures Layer(nodes, k) {
        forall i | 0 <= i < |nodes| && k < nodes[i].height ensures LinkOk(nodes, i, k) {
          if i > 0 { assert Layer(base, k); }
          HeadLink(base, x, i, k);
        }
      }
    }

    /** Takes the node with the key out; whether there was one. */
    method Remove(data: int) returns (removed: bool)
      requires Valid()
      modifies this, nodes
      ensures Valid() && Keys(nodes) == old(Keys(nodes)) - {data}
      ensures removed <==> data in old(Keys(nodes))
      ensures nodes == if removed then Delete(old(nodes), old(Pos(data))) else old(nodes)
      ensures forall o :: o in nodes ==> o in old(nodes)
    {
      hide *;
      Split();
      Shape();
      Membership(nodes, data);
      Basics(data);
      ghost var before, base, p := [], nodes, Pos(data);
      if p < |nodes| { SettledAt(nodes, p); }
      var preds, succs := new SkipListNode?[MAX_HEIGHT], new SkipListNode?[MAX_HEIGHT];
      var layer;
      layer, before := FindInsertionPoint(data, preds, succs);
      PathShape(data, preds, succs, before);
      if layer >= 0 { Landing(data, layer); }
      if layer < 0 || !OkToDelete(succs[layer], layer) { return false; }
      DeleteNode(succs[layer], data, preds, succs, before);
      KeysDelete(base, p);
      DeleteSubset(base, p);
      removed := true;
    }

    /** Unlinks a node, whose predecessors then skip it. */
    method DeleteNode(nodeToDelete: SkipListNode, data: int, preds: array<SkipListNode?>, succs: array<SkipListNode?>, ghost before: seq<nat>)
      requires Valid() && Path(data, head.height, preds, succs, before)
      requires Pos(data) < |nodes| && nodeToDelete == nodes[Pos(data)] && nodeToDelete.data == data
      modifies this, nodes
      ensures Valid() && nodes == Delete(old(nodes), old(Pos(data)))
    {
      hide *;
      Split();
      Shape();
      PathShape(data, preds, succs, before);
      ghost var base, p := nodes, Pos(data);
      Mark(nodeToDelete, p);
      ValidatePath(data, nodeToDelete.height, preds, succs, before, p, false);
      Unlink(nodeToDelete, data, preds, succs, before);
      size := size - 1;
      nodes := Delete(base, p);
      InsertDeleted(base, p);
      Deleted(base, p, nodeToDelete, before);
      SettledDelete(nodes, p, nodeToDelete);
      Split();
    }

    method Mark(nodeToDelete: SkipListNode, ghost p: nat)
      requires Linked() && Settled(nodes) && p < |nodes| && nodeToDelete == nodes[p]
      modifies nodeToDelete`markedForRemoval
      ensures Linked() && SettledExcept(nodes, p)
    {
      nodeToDelete.markedForRemoval := true;
    }

    /** On the layers of a node, from the top down, the nodes before it come to point past it. */
    method Unlink(nodeToDelete: SkipListNode, data: int, preds: array<SkipListNode?>, succs: array<SkipListNode?>, ghost before: seq<nat>)
      requires Linked() && Path(data, head.height, preds, succs, before)
      requires Pos(data) < |nodes| && nodeToDelete == nodes[Pos(data)]
      modifies nodes`skip
      ensures Unlinking(nodes, before, 0, Pos(data))
    {
      hide *;
      Shape();
      PathShape(data, preds, succs, before);
      ghost var p := Pos(data);
      StartUnlinking(before, p);
      var k := nodeToDelete.height;
      while k > 0
        invariant 0 <= k <= nodeToDelete.height
        invariant Unlinking(nodes, before, k, p)
      {
        k := k - 1;
        UnlinkingAt(nodes, before, k + 1, p, k);
        SkipOver(preds[k], nodeToDelete, before, k, p);
      }
    }

    lemma StartUnlinking(before: seq<nat>, p: nat)
      requires Linked() && p < |nodes| && nodes[p].height <= |before|
      ensures Unlinking(nodes, before, nodes[p].height, p)
    {
      var n := nodes[p].height;
      forall i, k | 0 <= i < |nodes| && 0 <= k < nodes[i].height ensures UnlinkingOk(nodes, before, n, p, i, k) {
        Link(i, k);
      }
    }

    method SkipOver(pred: SkipListNode, nodeToDelete: SkipListNode, ghost before: seq<nat>, k: nat, ghost p: nat)
      requires Distinct(nodes) && k < |before| && before[k] < p < |nodes| && nodeToDelete == nodes[p]
      requires pred == nodes[before[k]] && k < pred.height && k < nodeToDelete.height <= |before|
      requires Unlinking(nodes, before, k + 1, p)
      requires k < |nodeToDelete.skip|
      modifies pred`skip
      ensures Unlinking(nodes, before, k, p)
    {
      hide Next, At;
      ghost var n := k + 1;
      assert UnlinkingOk(nodes, before, n, p, before[k], k) && UnlinkingOk(nodes, before, n, p, p, k);
      pred.SetSkip(k, nodeToDelete.skip[k]);
      forall i, j | 0 <= i < |nodes| && 0 <= j < nodes[i].height ensures UnlinkingOk(nodes, before, k, p, i, j) {
        assert old(UnlinkingOk(nodes, before, n, p, i, j));
      }
    }

    /** Without the node in the sequence, everything is linked again. */
    lemma Deleted(base: seq<SkipListNode>, p: nat, x: SkipListNode, before: seq<nat>)
      requires 2 <= MAX_HEIGHT < 64 && Tall(base) && Sorted(base) && Distinct(base)
      requires head == base[0] && head.isHead && head.height <= MAX_HEIGHT
      requires 1 <= p <= |nodes| && base == Insert(nodes, p, x)
      requires head.height <= |before| && Unlinking(base, before, 0, p)
      requires forall k :: 0 <= k < head.height ==>
        before[k] < p && k < base[before[k]].height && Next(base, before[k] + 1, k) >= p
      ensures Linked()
    {
      hide Next, At, LinkOk, UnlinkingOk, Layer, Unlinking;
      forall i | 0 <= i < |nodes| ensures nodes[i] == base[if i < p then i else i + 1] {}
      assert Tall(nodes) && Sorted(nodes) && Distinct(nodes);
      assert base[p] == x && 1 <= x.height <= head.height;
      forall k | 0 <= k < head.height ensures Layer(nodes, k) {
        DeletedLayer(nodes, p, x, before, k);
      }
    }
  }

  lemma InsertDeleted(base: seq<SkipListNode>, p: nat)
    requires p < |base|
    ensures |Delete(base, p)| == |base| - 1 && base == Insert(Delete(base, p), p, base[p])
  {}

  ghost predicate SettledExcept(nodes: seq<SkipListNode>, p: nat)
    reads nodes`markedForRemoval, nodes`fullyLinked
  {
    forall i :: 0 <= i < |nodes| && i != p ==>
      !nodes[i].markedForRemoval && (nodes[i].isHead <==> i == 0) && (i > 0 ==> nodes[i].fullyLinked)
  }

  lemma SettledWhole(nodes: seq<SkipListNode>)
    requires Settled(nodes)
    ensures SettledExcept(nodes, |nodes|)
  {}

  lemma SettledDelete(nodes: seq<SkipListNode>, p: nat, x: SkipListNode)
    requires 1 <= p <= |nodes| && SettledExcept(Insert(nodes, p, x), p)
    ensures Settled(nodes)
  {
    forall i | 0 <= i < |nodes|
      ensures !nodes[i].markedForRemoval && (nodes[i].isHead <==> i == 0) && (i > 0 ==> nodes[i].fullyLinked)
    {
      assert nodes[i] == Insert(nodes, p, x)[if i < p then i else i + 1];
    }
  }

  /** Node i while node p is being unlinked: on the layers of p from n up, the node before p already
      points past it. */
  ghost predicate UnlinkingOk(nodes: seq<SkipListNode>, before: seq<nat>, n: nat, p: nat, i: nat, k: nat)
    requires p < |nodes| && nodes[p].height <= |before| && i < |nodes| && k < nodes[i].height
    reads nodes`skip
  {
    && |nodes[i].skip| == nodes[i].height
    && nodes[i].skip[k] == At(nodes, Next(nodes, if n <= k < nodes[p].height && i == before[k] then p + 1 else i + 1, k))
  }

  ghost predicate Unlinking(nodes: seq<SkipListNode>, before: seq<nat>, n: nat, p: nat)
    requires p < |nodes| && nodes[p].height <= |before|
    reads nodes`skip
  {
    forall i, k :: 0 <= i < |nodes| && 0 <= k < nodes[i].height ==> UnlinkingOk(nodes, before, n, p, i, k)
  }

  lemma UnlinkingAt(nodes: seq<SkipListNode>, before: seq<nat>, n: nat, p: nat, k: nat)
    requires p < |nodes| && k < nodes[p].height <= |before| && Unlinking(nodes, before, n, p)
    ensures k < |nodes[p].skip|
  {
    assert UnlinkingOk(nodes, before, n, p, p, k);
  }

  /** Taking a node out, on one layer and for one of the nodes that remain. */
  lemma DeleteLink(nodes: seq<SkipListNode>, before: seq<nat>, p: nat, x: SkipListNode, i: nat, k: nat)
    requires p <= |nodes| && x.height <= |before| && k < |before| && before[k] < p
    requires
      var base := Insert(nodes, p, x);
      k < base[before[k]].height && Next(base, before[k] + 1, k) >= p
    requires i < |nodes| && k < nodes[i].height
    requires
      var base, j := Insert(nodes, p, x), if i < p then i else i + 1;
      base[p] == x && base[j] == nodes[i] && UnlinkingOk(base, before, 0, p, j, k)
    ensures LinkOk(nodes, i, k)
  {
    hide Next, At, Insert;
    var b := before[k];
    InsertIndex(nodes, p, x, b);
    NextBefore(nodes, p, x, b + 1, k);
    LinksAcross(nodes, p, x, k, b, i);
    LinksFrom(nodes, p, x, k);
    NextBeyond(nodes, b + 1, p, k);
  }

  lemma DeletedLayer(nodes: seq<SkipListNode>, p: nat, x: SkipListNode, before: seq<nat>, k: nat)
    requires p <= |nodes| && x.height <= |before| && k < |before| && before[k] < p
    requires
      var base := Insert(nodes, p, x);
      base[p] == x && k < base[before[k]].height && Next(base, before[k] + 1, k) >= p && Unlinking(base, before, 0, p)
    ensures Layer(nodes, k)
  {
    hide Next, At, LinkOk, UnlinkingOk;
    var base := Insert(nodes, p, x);
    forall i | 0 <= i < |nodes| && k < nodes[i].height ensures LinkOk(nodes, i, k) {
      var j := if i < p then i else i + 1;
      assert base[j] == nodes[i];
      assert UnlinkingOk(base, before, 0, p, j, k);
      DeleteLink(nodes, before, p, x, i, k);
    }
  }

  lemma SettledAt(nodes: seq<SkipListNode>, i: nat)
    requires Settled(nodes) && 1 <= i < |nodes|
    ensures OkToDelete(nodes[i], nodes[i].height - 1)
  {}

  lemma DeleteSubset(nodes: seq<SkipListNode>, p: nat)
    requires p < |nodes|
    ensures forall o :: o in Delete(nodes, p) ==> o in nodes
  {}

  lemma InsertSubset(nodes: seq<SkipListNode>, p: nat, x: SkipListNode)
    requires p <= |nodes|
    ensures forall o :: o in Insert(nodes, p, x) ==> o in nodes || o == x
  {}

  lemma TailSubset(nodes: seq<SkipListNode>, others: seq<SkipListNode>)
    requires |nodes| > 0 && |others| > 0 && nodes[1..] == others[1..]
    ensures forall o :: o in others ==> o in nodes || o == others[0]
  {
    assert nodes == [nodes[0]] + nodes[1..] && others == [others[0]] + others[1..];
  }

  lemma KeysDelete(nodes: seq<SkipListNode>, p: nat)
    requires 1 <= p < |nodes| && Sorted(nodes)
    ensures Keys(Delete(nodes, p)) == Keys(nodes) - {nodes[p].data}
  {
    var after := Delete(nodes, p);
    InsertDeleted(nodes, p);
    KeysInsert(after, p, nodes[p]);
    forall i | 1 <= i < |after| ensures after[i].data != nodes[p].data {
      assert after[i] == nodes[if i < p then i else i + 1];
    }
  }

  predicate OkToDelete(candidate: SkipListNode?, layer: int)
    requires candidate != null
    reads candidate
  {
    candidate.fullyLinked && candidate.height - 1 == layer && !candidate.markedForRemoval
  }

  lemma {:induction false} NextHead(base: seq<SkipListNode>, x: SkipListNode, i: nat, k: nat)
    requires |base| > 0 && i >= 1
    ensures Next(base[0 := x], i, k) == Next(base, i, k)
    decreases |base| - i
  {
    if i < |base| { NextHead(base, x, i + 1, k); }
  }

  lemma {:induction false} NoneTaller(base: seq<SkipListNode>, i: nat, k: nat)
    requires Tall(base) && i <= |base| && k >= base[0].height
    ensures Next(base, i, k) == |base|
    decreases |base| - i
  {
    if i < |base| { NoneTaller(base, i + 1, k); }
  }

  lemma HeadLink(base: seq<SkipListNode>, x: SkipListNode, i: nat, k: nat)
    requires Tall(base) && i < |base| && k < base[0 := x][i].height
    requires base[0].height < x.height == |x.skip|
    requires k < x.height && x.skip[k] == if k < base[0].height then At(base, Next(base, 1, k)) else null
    requires i > 0 ==> LinkOk(base, i, k)
    ensures LinkOk(base[0 := x], i, k)
  {
    hide Next;
    NextHead(base, x, i + 1, k);
    if k >= base[0].height { NoneTaller(base, i + 1, k); }
  }

  // ----- whole runs -----

  datatype Op = Add(data: int, nodeHeight: nat) | Remove(data: int) | Grow

  /** What a run of operations leaves of a set. */
  ghost function SetAfter(keys: set<int>, ops: seq<Op>): set<int> {
    if ops == [] then keys
    else
      var before := SetAfter(keys, ops[..|ops| - 1]);
      match ops[|ops| - 1]
      case Add(data, _) => before + {data}
      case Remove(data) => before - {data}
      case Grow => before
  }

  /** Any run, with any heights, keeps the towers linked and does to the keys what it does to a set. */
  method Run(list: ConcurrentSkipList, ops: seq<Op>, sizeLimit: nat -> nat)
    requires list.Valid()
    modifies list, list.nodes
    ensures list.Valid() && Keys(list.nodes) == SetAfter(old(Keys(list.nodes)), ops)
  {
    hide Keys, ConcurrentSkipList.Linked, Settled;
    ghost var keys := Keys(list.nodes);
    for i := 0 to |ops|
      invariant list.Valid() && Keys(list.nodes) == SetAfter(keys, ops[..i])
      invariant forall o :: o in list.nodes ==> o in old(list.nodes) || fresh(o)
    {
      assert forall j :: 0 <= j < |list.nodes| ==> list.nodes[j] in old(list.nodes) || fresh(list.nodes[j]);
      list.Shape();
      list.HeadListed();
      assert ops[..i + 1][..i] == ops[..i];
      match ops[i] {
        case Add(data, nodeHeight) =>
          var height := if nodeHeight < 1 then 1 else if nodeHeight > list.head.height then list.head.height else nodeHeight;
          var node, newSize := list.AddOrGetData(data, height, sizeLimit);
        case Remove(data) =>
          var removed := list.Remove(data);
        case Grow =>
          if list.head.height < list.MAX_HEIGHT {
            ghost var nodes := list.nodes;
            list.GrowHeight(list.head.height + 1);
            list.Shape();
            KeysTail(nodes, list.nodes);
          }
      }
    }
    assert ops[..|ops|] == ops;
  }

  /** What the validation checks of one layer. */
  predicate Unchanged(pred: SkipListNode?, succ: SkipListNode?, k: nat, adding: bool)
    requires pred != null && k < |pred.skip|
    reads pred, succ
  {
    !pred.markedForRemoval && pred.skip[k] == succ && (adding && succ != null ==> !succ.markedForRemoval)
  }

  lemma UnchangedWeaker(pred: SkipListNode?, succ: SkipListNode?, k: nat, more: bool, adding: bool)
    requires pred != null && k < |pred.skip| && Unchanged(pred, succ, k, more) && (adding ==> more)
    ensures Unchanged(pred, succ, k, adding)
  {}

  lemma InsertSorted(nodes: seq<SkipListNode>, p: nat, x: SkipListNode)
    requires Sorted(nodes) && 1 <= p == Position(nodes, 1, x.data) && (p < |nodes| ==> nodes[p].data != x.data)
    ensures Sorted(Insert(nodes, p, x))
  {
    hide Position, Insert;
    var after := Insert(nodes, p, x);
    InsertIndex(nodes, p, x, p);
    forall i, j | 1 <= i < j < |after| ensures after[i].data < after[j].data {
      InsertIndex(nodes, p, x, i);
      InsertIndex(nodes, p, x, j);
      if i <= p < |nodes| && p < j { assert nodes[p].data <= nodes[j - 1].data; }
    }
  }

  lemma InsertIndex(nodes: seq<SkipListNode>, p: nat, x: SkipListNode, i: nat)
    requires p <= |nodes| && i <= |nodes|
    ensures |Insert(nodes, p, x)| == |nodes| + 1
    ensures Insert(nodes, p, x)[i] == if i < p then nodes[i] else if i == p then x else nodes[i - 1]
  {}

  lemma SettledInsert(nodes: seq<SkipListNode>, p: nat, x: SkipListNode)
    requires Settled(nodes) && 1 <= p <= |nodes|
    requires !x.markedForRemoval && !x.isHead && x.fullyLinked
    ensures Settled(Insert(nodes, p, x))
  {
    var after := Insert(nodes, p, x);
    forall i | 0 <= i < |after|
      ensures !after[i].markedForRemoval && (after[i].isHead <==> i == 0) && (i > 0 ==> after[i].fullyLinked)
    {
      if i != p { assert after[i] == nodes[if i < p then i else i - 1]; }
    }
  }

  lemma InsertDistinct(nodes: seq<SkipListNode>, p: nat, x: SkipListNode)
    requires Distinct(nodes) && p <= |nodes| && x !in nodes
    ensures Distinct(Insert(nodes, p, x))
  {}

  lemma Membership(nodes: seq<SkipListNode>, data: int)
    requires Sorted(nodes)
    ensures data in Keys(nodes) <==> var p := Position(nodes, 1, data); p < |nodes| && nodes[p].data == data
  {
    var p := Position(nodes, 1, data);
    if p < |nodes| && nodes[p].data != data {
      forall i | 1 <= i < |nodes| ensures nodes[i].data != data {
        if p < i { assert nodes[p].data < nodes[i].data; }
      }
    }
  }

  lemma KeysTail(nodes: seq<SkipListNode>, others: seq<SkipListNode>)
    requires |nodes| > 0 && |others| > 0 && nodes[1..] == others[1..]
    ensures Keys(nodes) == Keys(others)
  {
    assert forall i :: 1 <= i < |nodes| ==> nodes[i] == nodes[1..][i - 1];
    assert forall i :: 1 <= i < |others| ==> others[i] == others[1..][i - 1];
  }

  lemma KeysInsert(nodes: seq<SkipListNode>, p: nat, x: SkipListNode)
    requires 1 <= p <= |nodes|
    ensures Keys(Insert(nodes, p, x)) == Keys(nodes) + {x.data}
  {
    var inserted := Insert(nodes, p, x);
    assert inserted[p] == x;
    forall i | 1 <= i < |nodes| ensures nodes[i].data in Keys(inserted) {
      assert inserted[if i < p then i else i + 1] == nodes[i];
    }
  }

  /** Node i while the new node x is being linked in: on the layers below n the node before x already
      points to it. */
  ghost predicate LinkingOk(nodes: seq<SkipListNode>, before: seq<nat>, n: nat, x: SkipListNode, i: nat, k: nat)
    requires n <= |before| && i < |nodes| && k < nodes[i].height
    reads nodes`skip
  {
    && |nodes[i].skip| == nodes[i].height
    && nodes[i].skip[k] == if k < n && i == before[k] then x else At(nodes, Next(nodes, i + 1, k))
  }

  ghost predicate Linking(nodes: seq<SkipListNode>, before: seq<nat>, n: nat, x: SkipListNode)
    requires n <= |before|
    reads nodes`skip
  {
    forall i, k :: 0 <= i < |nodes| && 0 <= k < nodes[i].height ==> LinkingOk(nodes, before, n, x, i, k)
  }

  /** Where the links of layer k lead with x at position p, compared with where they lead without. */
  lemma LinksAcross(nodes: seq<SkipListNode>, p: nat, x: SkipListNode, k: nat, b: nat, i: nat)
    requires b < p <= |nodes| && k < nodes[b].height && Next(nodes, b + 1, k) >= p
    requires i < |nodes| && nodes[i].height > k
    ensures
      var after := Insert(nodes, p, x);
      && (i < p ==> At(after, Next(after, i + 1, k)) == if k < x.height && i == b then x else At(nodes, Next(nodes, i + 1, k)))
      && (i >= p ==> At(after, Next(after, i + 2, k)) == At(nodes, Next(nodes, i + 1, k)))
  {
    hide Insert;
    var after := Insert(nodes, p, x);
    if i < p {
      NextBefore(nodes, p, x, i + 1, k);
      AtInsert(nodes, p, x, Next(after, i + 1, k));
    } else {
      NextAfter(nodes, p, x, i + 1, k);
      AtInsert(nodes, p, x, Next(after, i + 2, k));
    }
  }

  lemma LinksFrom(nodes: seq<SkipListNode>, p: nat, x: SkipListNode, k: nat)
    requires p <= |nodes|
    ensures
      var after := Insert(nodes, p, x);
      At(after, Next(after, p + 1, k)) == At(nodes, Next(nodes, p, k))
  {
    hide Insert;
    NextAfter(nodes, p, x, p, k);
    AtInsert(nodes, p, x, Next(Insert(nodes, p, x), p + 1, k));
  }

  /** Linking a node in, on one layer and for one node. */
  lemma InsertLink(nodes: seq<SkipListNode>, before: seq<nat>, p: nat, x: SkipListNode, i: nat, k: nat)
    requires x.height <= |before| && k < |before| && before[k] < p <= |nodes|
    requires k < nodes[before[k]].height && Next(nodes, before[k] + 1, k) >= p
    requires i < |nodes| && k < nodes[i].height && LinkingOk(nodes, before, x.height, x, i, k)
    ensures
      var after, j := Insert(nodes, p, x), if i < p then i else i + 1;
      after[j] == nodes[i] && LinkOk(after, j, k)
  {
    hide Next, At;
    LinksAcross(nodes, p, x, k, before[k], i);
  }

  lemma InsertedLink(nodes: seq<SkipListNode>, p: nat, x: SkipListNode, k: nat)
    requires p <= |nodes| && k < x.height == |x.skip| && x.skip[k] == At(nodes, Next(nodes, p, k))
    ensures
      var after := Insert(nodes, p, x);
      after[p] == x && LinkOk(after, p, k)
  {
    hide Next, At;
    LinksFrom(nodes, p, x, k);
  }

  /** The next tall node from i is the next tall node from any later index not beyond it. */
  lemma {:induction false} NextBeyond(nodes: seq<SkipListNode>, i: nat, p: nat, k: nat)
    requires i <= p <= |nodes| && p <= Next(nodes, i, k)
    ensures Next(nodes, p, k) == Next(nodes, i, k)
    decreases p - i
  {
    if i < p { NextBeyond(nodes, i + 1, p, k); }
  }
}
