/**
 * contracts/SortedTroves.sol: the doubly linked list of troves in order of nominal ratio, which the
 * redemption hints walk. Whatever position hints a caller passes, the list stays linked and sorted.
 */
module SortedTroves {
  import opened Accounts
  import opened Sequences

  datatype Node = Node(nextId: address, prevId: address)

  /** The nodes that exist; absent nodes read as nodes without neighbours. */
  type Nodes = map<address, Node>

  function NodeAt(nodes: Nodes, id: address): Node {
    if id in nodes then nodes[id] else Node(NULL, NULL)
  }

  /** The id at a position, or null beside the list. */
  function IdAt(order: seq<address>, i: int): address {
    if 0 <= i < |order| then order[i] else NULL
  }

  predicate ProperOrder(order: seq<address>) {
    NULL !in order && NoDuplicates(order)
  }

  /** The links of the nodes are those of the order. */
  ghost predicate Linked(nodes: Nodes, order: seq<address>) {
    && (forall id :: id in nodes <==> id in order)
    && forall i :: 0 <= i < |order| ==> nodes[order[i]] == Node(IdAt(order, i + 1), IdAt(order, i - 1))
  }

  /** Ratios never rise from the head to the tail. */
  ghost predicate Sorted(order: seq<address>, nicr: address -> nat) {
    forall i, j :: 0 <= i < j < |order| ==> nicr(order[i]) >= nicr(order[j])
  }

  /** A ratio fits between the ids before position `k` and those from `k` on. */
  ghost predicate FitsAt(order: seq<address>, nicr: address -> nat, ratio: nat, k: nat) {
    && k <= |order|
    && (forall i :: 0 <= i < k ==> nicr(order[i]) >= ratio)
    && (forall i :: k <= i < |order| ==> ratio >= nicr(order[i]))
  }

  function InsertAt(order: seq<address>, k: nat, id: address): seq<address>
    requires k <= |order|
  {
    order[..k] + [id] + order[k..]
  }

  function RemoveAt(order: seq<address>, k: nat): seq<address>
    requires k < |order|
  {
    order[..k] + order[k + 1..]
  }

  /** The nodes after a new one is linked in between two neighbours, either of which may be missing. */
  function LinkIn(nodes: Nodes, id: address, prevId: address, nextId: address): Nodes {
    var nodes := nodes[id := Node(nextId, prevId)];
    var nodes := if prevId in nodes then nodes[prevId := nodes[prevId].(nextId := id)] else nodes;
    if nextId in nodes then nodes[nextId := nodes[nextId].(prevId := id)] else nodes
  }

  /** The nodes after one is taken out. */
  function LinkOut(nodes: Nodes, id: address): Nodes {
    var Node(nextId, prevId) := NodeAt(nodes, id);
    var nodes := nodes - {id};
    var nodes := if prevId in nodes then nodes[prevId := nodes[prevId].(nextId := nextId)] else nodes;
    if nextId in nodes then nodes[nextId := nodes[nextId].(prevId := prevId)] else nodes
  }

  lemma InsertProper(order: seq<address>, k: nat, id: address)
    requires ProperOrder(order) && k <= |order| && id !in order && id != NULL
    ensures ProperOrder(InsertAt(order, k, id))
    ensures forall x :: x in InsertAt(order, k, id) <==> x in order || x == id
  {
    assert order == order[..k] + order[k..];
  }

  lemma LinkInEntry(nodes: Nodes, id: address, p: address, q: address, x: address)
    requires p != id && q != id && x in nodes && x != id
    ensures x in LinkIn(nodes, id, p, q)
    ensures LinkIn(nodes, id, p, q)[x] == Node(if x == p then id else nodes[x].nextId, if x == q then id else nodes[x].prevId)
  {
  }

  lemma LinkOutEntry(nodes: Nodes, id: address, x: address)
    requires id in nodes && nodes[id].nextId != id && nodes[id].prevId != id && x in nodes && x != id
    ensures x in LinkOut(nodes, id)
    ensures LinkOut(nodes, id)[x]
         == Node(if x == nodes[id].prevId then nodes[id].nextId else nodes[x].nextId,
                 if x == nodes[id].nextId then nodes[id].prevId else nodes[x].prevId)
  {
  }

  /** An id has one position. */
  lemma PositionOf(order: seq<address>, i: int, j: int)
    requires ProperOrder(order) && 0 <= i < |order|
    ensures order[i] == IdAt(order, j) <==> i == j
  {
    if 0 <= j < |order| {
      assert i < j ==> order[i] != order[j];
      assert j < i ==> order[j] != order[i];
    } else {
      assert order[i] in order;
    }
  }

  /** What a node's entry becomes when another is linked in at position `k`; `i` counts in the old order. */
  lemma LinkInOld(nodes: Nodes, order: seq<address>, k: nat, id: address, i: nat)
    requires ProperOrder(order) && Linked(nodes, order) && k <= |order| && id !in order && id != NULL && i < |order|
    ensures order[i] in LinkIn(nodes, id, IdAt(order, k - 1), IdAt(order, k))
    ensures LinkIn(nodes, id, IdAt(order, k - 1), IdAt(order, k))[order[i]]
         == Node(if i + 1 == k then id else IdAt(order, i + 1), if i == k then id else IdAt(order, i - 1))
  {
    hide LinkIn;
    PositionOf(order, i, k - 1);
    PositionOf(order, i, k);
    assert order[i] in order;
    assert IdAt(order, k - 1) != id && IdAt(order, k) != id;
    LinkInEntry(nodes, id, IdAt(order, k - 1), IdAt(order, k), order[i]);
  }

  lemma LinkInNew(nodes: Nodes, order: seq<address>, k: nat, id: address)
    requires ProperOrder(order) && Linked(nodes, order) && k <= |order| && id !in order && id != NULL
    ensures var nodes' := LinkIn(nodes, id, IdAt(order, k - 1), IdAt(order, k));
            && id in nodes' && nodes'[id] == Node(IdAt(order, k), IdAt(order, k - 1))
            && forall x :: x in nodes' <==> x in order || x == id
  {
    assert IdAt(order, k - 1) != id && IdAt(order, k) != id;
  }

  lemma InsertIdAt(order: seq<address>, k: nat, id: address, j: int)
    requires k <= |order|
    ensures IdAt(InsertAt(order, k, id), j) == if j < k then IdAt(order, j) else if j == k then id else IdAt(order, j - 1)
  {
  }

  lemma RemoveIdAt(order: seq<address>, k: nat, j: int)
    requires k < |order|
    ensures IdAt(RemoveAt(order, k), j) == if j < k then IdAt(order, j) else IdAt(order, j + 1)
  {
  }

  /** The entry of the id at position `i` of the longer order. */
  lemma LinkInAt(nodes: Nodes, order: seq<address>, k: nat, id: address, i: nat)
    requires ProperOrder(order) && Linked(nodes, order) && k <= |order| && id !in order && id != NULL && i <= |order|
    ensures var nodes', order' := LinkIn(nodes, id, IdAt(order, k - 1), IdAt(order, k)), InsertAt(order, k, id);
            && order'[i] in nodes'
            && nodes'[order'[i]] == Node(IdAt(order', i + 1), IdAt(order', i - 1))
  {
    hide LinkIn, Linked, ProperOrder;
    InsertIdAt(order, k, id, i - 1);
    InsertIdAt(order, k, id, i);
    InsertIdAt(order, k, id, i + 1);
    if i == k {
      LinkInNew(nodes, order, k, id);
    } else {
      LinkInOld(nodes, order, k, id, if i < k then i else i - 1);
    }
  }

  lemma LinkOutAt(nodes: Nodes, order: seq<address>, k: nat, i: nat)
    requires ProperOrder(order) && Linked(nodes, order) && k < |order| && i + 1 < |order|
    ensures var nodes', order' := LinkOut(nodes, order[k]), RemoveAt(order, k);
            && order'[i] in nodes'
            && nodes'[order'[i]] == Node(IdAt(order', i + 1), IdAt(order', i - 1))
  {
    hide LinkOut, Linked, ProperOrder;
    RemoveIdAt(order, k, i - 1);
    RemoveIdAt(order, k, i);
    RemoveIdAt(order, k, i + 1);
    LinkOutOld(nodes, order, k, if i < k then i else i + 1);
  }

  lemma LinkInLinked(nodes: Nodes, order: seq<address>, k: nat, id: address)
    requires ProperOrder(order) && Linked(nodes, order) && k <= |order| && id !in order && id != NULL
    ensures ProperOrder(InsertAt(order, k, id))
    ensures Linked(LinkIn(nodes, id, IdAt(order, k - 1), IdAt(order, k)), InsertAt(order, k, id))
  {
    hide LinkIn, ProperOrder, IdAt;
    InsertProper(order, k, id);
    LinkInNew(nodes, order, k, id);
    var order' := InsertAt(order, k, id);
    forall i | 0 <= i < |order'|
      ensures LinkIn(nodes, id, IdAt(order, k - 1), IdAt(order, k))[order'[i]]
           == Node(IdAt(order', i + 1), IdAt(order', i - 1))
    {
      LinkInAt(nodes, order, k, id, i);
    }
  }

  lemma RemoveProper(order: seq<address>, k: nat)
    requires ProperOrder(order) && k < |order|
    ensures ProperOrder(RemoveAt(order, k))
    ensures forall x :: x in RemoveAt(order, k) <==> x in order && x != order[k]
  {
    assert order == order[..k] + [order[k]] + order[k + 1..];
  }

  /** What a node's entry becomes when the one at position `k` is taken out; `i` counts in the old order. */
  lemma LinkOutOld(nodes: Nodes, order: seq<address>, k: nat, i: nat)
    requires ProperOrder(order) && Linked(nodes, order) && k < |order| && i < |order| && i != k
    ensures order[i] in LinkOut(nodes, order[k])
    ensures LinkOut(nodes, order[k])[order[i]]
         == Node(if i + 1 == k then IdAt(order, k + 1) else IdAt(order, i + 1),
                 if i == k + 1 then IdAt(order, k - 1) else IdAt(order, i - 1))
  {
    hide LinkOut;
    PositionOf(order, i, k);
    PositionOf(order, i, k - 1);
    PositionOf(order, i, k + 1);
    PositionOf(order, k, k - 1);
    PositionOf(order, k, k + 1);
    assert order[i] in order && order[k] in order;
    LinkOutEntry(nodes, order[k], order[i]);
  }

  lemma LinkOutKeys(nodes: Nodes, order: seq<address>, k: nat)
    requires ProperOrder(order) && Linked(nodes, order) && k < |order|
    ensures forall x :: x in LinkOut(nodes, order[k]) <==> x in order && x != order[k]
  {
  }

  lemma LinkOutLinked(nodes: Nodes, order: seq<address>, k: nat)
    requires ProperOrder(order) && Linked(nodes, order) && k < |order|
    ensures ProperOrder(RemoveAt(order, k)) && Linked(LinkOut(nodes, order[k]), RemoveAt(order, k))
  {
    hide LinkOut, ProperOrder, IdAt;
    RemoveProper(order, k);
    LinkOutKeys(nodes, order, k);
    var order' := RemoveAt(order, k);
    forall i | 0 <= i < |order'|
      ensures LinkOut(nodes, order[k])[order'[i]] == Node(IdAt(order', i + 1), IdAt(order', i - 1))
    {
      LinkOutAt(nodes, order, k, i);
    }
  }

  /** Inserting where the ratio fits keeps the order, once the new id has that ratio. */
  lemma InsertSorted(order: seq<address>, nicr: address -> nat, ratio: nat, k: nat, id: address, nicr': address -> nat)
    requires Sorted(order, nicr) && FitsAt(order, nicr, ratio, k)
    requires nicr'(id) == ratio && forall x :: x in order ==> nicr'(x) == nicr(x)
    ensures Sorted(InsertAt(order, k, id), nicr')
  {
    var order' := InsertAt(order, k, id);
    forall i, j | 0 <= i < j < |order'| ensures nicr'(order'[i]) >= nicr'(order'[j]) {
      InsertIdAt(order, k, id, i);
      InsertIdAt(order, k, id, j);
    }
  }

  lemma RemoveSorted(order: seq<address>, nicr: address -> nat, k: nat)
    requires Sorted(order, nicr) && k < |order|
    ensures Sorted(RemoveAt(order, k), nicr)
  {
  }

  /** The ratios once `id` has the ratio `ratio`. */
  function Updated(nicr: address -> nat, id: address, ratio: nat): address -> nat {
    a => if a == id then ratio else nicr(a)
  }

  /** Two adjacent ids, either of which may be missing beside the list. */
  ghost predicate Between(order: seq<address>, k: nat, prevId: address, nextId: address) {
    k <= |order| && prevId == IdAt(order, k - 1) && nextId == IdAt(order, k)
  }

  /** The position of a node, and what its entry says. */
  lemma Entry(nodes: Nodes, order: seq<address>, id: address) returns (i: nat)
    requires ProperOrder(order) && Linked(nodes, order) && id in nodes
    ensures i < |order| && order[i] == id && id != NULL
    ensures NodeAt(nodes, id) == Node(IdAt(order, i + 1), IdAt(order, i - 1))
  {
    i :| i < |order| && order[i] == id;
  }

  lemma EntryAt(nodes: Nodes, order: seq<address>, i: nat)
    requires ProperOrder(order) && Linked(nodes, order) && i < |order|
    ensures order[i] in nodes && order[i] != NULL
    ensures NodeAt(nodes, order[i]) == Node(IdAt(order, i + 1), IdAt(order, i - 1))
  {
  }

  lemma Membership(nodes: Nodes, order: seq<address>)
    requires ProperOrder(order) && Linked(nodes, order)
    ensures NULL !in nodes && forall id :: id in nodes <==> id in order
  {
  }

  /** On a sorted order a ratio fits as soon as it fits between its two neighbours. */
  lemma FitsBetween(order: seq<address>, nicr: address -> nat, ratio: nat, k: nat)
    requires Sorted(order, nicr) && k <= |order|
    requires k > 0 ==> nicr(order[k - 1]) >= ratio
    requires k < |order| ==> ratio >= nicr(order[k])
    ensures FitsAt(order, nicr, ratio, k)
  {
  }

  /** The neighbours of a node and how they tell the ends of the list. */
  lemma NeighboursOf(nodes: Nodes, order: seq<address>, k: nat)
    requires ProperOrder(order) && Linked(nodes, order) && k < |order|
    ensures NULL !in nodes && order[k] in nodes
    ensures var Node(n, p) := nodes[order[k]];
            && n == IdAt(order, k + 1) && p == IdAt(order, k - 1)
            && (n == NULL <==> k == |order| - 1) && (p == NULL <==> k == 0)
            && (n != NULL ==> n in nodes && n != order[k]) && (p != NULL ==> p in nodes && p != order[k])
            && (p == n ==> p == NULL)
    ensures order[k] == IdAt(order, 0) <==> k == 0
    ensures order[k] == IdAt(order, |order| - 1) <==> k == |order| - 1
  {
    PositionOf(order, k, 0);
    PositionOf(order, k, |order| - 1);
    EndIds(order, k);
    EndIds(order, k + 1);
  }

  lemma NeighboursIn(nodes: Nodes, order: seq<address>, k: nat)
    requires ProperOrder(order) && Linked(nodes, order) && k <= |order|
    ensures k > 0 ==> IdAt(order, k - 1) in nodes
    ensures k < |order| ==> IdAt(order, k) in nodes
    ensures 0 < k < |order| ==> IdAt(order, k - 1) != IdAt(order, k)
  {
  }

  /** Which neighbours of a position are missing. */
  lemma EndIds(order: seq<address>, k: nat)
    requires ProperOrder(order) && k <= |order|
    ensures IdAt(order, k - 1) == NULL <==> k == 0
    ensures IdAt(order, k) == NULL <==> k == |order|
  {
    if k > 0 {
      assert order[k - 1] in order;
    }
    if k < |order| {
      assert order[k] in order;
    }
  }

  /** The ends of the order once position `k` is taken out. */
  lemma RemoveEnds(order: seq<address>, k: nat)
    requires k < |order|
    ensures var r := RemoveAt(order, k);
            && |r| == |order| - 1
            && IdAt(r, 0) == (if k == 0 then IdAt(order, 1) else IdAt(order, 0))
            && IdAt(r, |r| - 1) == (if k == |order| - 1 then IdAt(order, k - 1) else IdAt(order, |order| - 1))
  {
    RemoveIdAt(order, k, 0);
    RemoveIdAt(order, k, |order| - 2);
  }

  /** The ends of the order once an id is put in. */
  lemma InsertEnds(order: seq<address>, k: nat, id: address)
    requires k <= |order|
    ensures var r := InsertAt(order, k, id);
            && |r| == |order| + 1
            && IdAt(r, 0) == (if k == 0 then id else IdAt(order, 0))
            && IdAt(r, |r| - 1) == (if k == |order| then id else IdAt(order, |order| - 1))
  {
    InsertIdAt(order, k, id, 0);
    InsertIdAt(order, k, id, |order|);
  }

  /** The two ids are adjacent in the order and the ratio fits between them. */
  ghost predicate FitsBetweenIds(order: seq<address>, nicr: address -> nat, ratio: nat, prevId: address, nextId: address) {
    exists k: nat :: Between(order, k, prevId, nextId) && FitsAt(order, nicr, ratio, k)
  }

  /** The contract; the trove manager's `getNominalICR` is a parameter of the methods that read ratios. */
  class SortedTroves {
    var head: address
    var tail: address
    const maxSize: nat
    const borrowerOperationsAddress: address
    const troveManager: address
    var size: nat
    var nodes: Nodes
    /** The ids from the head to the tail. */
    ghost var order: seq<address>

    ghost predicate Valid()
      reads this
    {
      && ProperOrder(order) && Linked(nodes, order)
      && head == IdAt(order, 0) && tail == IdAt(order, |order| - 1)
      && size == |order| <= maxSize
    }

    constructor (maxSize_: nat, troveManager_: address, borrowerOperations: address)
      ensures Valid() && order == [] && maxSize == maxSize_
      ensures troveManager == troveManager_ && borrowerOperationsAddress == borrowerOperations
    {
      troveManager, borrowerOperationsAddress := troveManager_, borrowerOperations;
      head, tail, maxSize, size, nodes, order := NULL, NULL, maxSize_, 0, map[], [];
    }

    /** `_validInsertPosition`. */
    predicate ValidInsertPosition(nicr: address -> nat, ratio: nat, prevId: address, nextId: address)
      reads this
    {
      if prevId == NULL && nextId == NULL then size == 0
      else if prevId == NULL then head == nextId && ratio >= nicr(nextId)
      else if nextId == NULL then tail == prevId && ratio <= nicr(prevId)
      else NodeAt(nodes, prevId).nextId == nextId && nicr(prevId) >= ratio && ratio >= nicr(nextId)
    }

    /** A valid insert position is a place in the order where the ratio fits. */
    lemma ValidPositionFits(nicr: address -> nat, ratio: nat, prevId: address, nextId: address) returns (k: nat)
      requires Valid() && Sorted(order, nicr) && ValidInsertPosition(nicr, ratio, prevId, nextId)
      ensures Between(order, k, prevId, nextId) && FitsAt(order, nicr, ratio, k)
    {
      hide Linked, ProperOrder, Sorted;
      if prevId == NULL {
        k := 0;
      } else if nextId == NULL {
        k := |order|;
      } else {
        assert prevId in nodes;
        var i := Entry(nodes, order, prevId);
        k := i + 1;
      }
      EndIds(order, k);
      FitsBetween(order, nicr, ratio, k);
    }

    /** Every place where the ratio fits is accepted, so the valid positions are exactly those places. */
    lemma ValidPositionIff(nicr: address -> nat, ratio: nat, prevId: address, nextId: address)
      requires Valid() && Sorted(order, nicr)
      ensures ValidInsertPosition(nicr, ratio, prevId, nextId) <==> FitsBetweenIds(order, nicr, ratio, prevId, nextId)
    {
      hide Linked, ProperOrder, Sorted;
      if ValidInsertPosition(nicr, ratio, prevId, nextId) {
        var k := ValidPositionFits(nicr, ratio, prevId, nextId);
      }
      if k: nat :| Between(order, k, prevId, nextId) && FitsAt(order, nicr, ratio, k) {
        EndIds(order, k);
        if k > 0 {
          EntryAt(nodes, order, k - 1);
        }
      }
    }

    /** `_descendList`. */
    method DescendList(nicr: address -> nat, ratio: nat, startId: address)
      returns (prevId: address, nextId: address)
      requires Valid() && Sorted(order, nicr)
      requires startId == head || (startId in order && nicr(startId) >= ratio)
      ensures FitsBetweenIds(order, nicr, ratio, prevId, nextId)
    {
      hide Linked, ProperOrder, Sorted;
      Membership(nodes, order);
      EndIds(order, 0);
      if head == startId && ratio >= nicr(startId) {
        FitsBetween(order, nicr, ratio, 0);
        assert Between(order, 0, NULL, startId);
        return NULL, startId;
      }
      prevId := startId;
      nextId := NodeAt(nodes, prevId).nextId;
      ghost var i: nat := 0;
      if order != [] {
        i := Entry(nodes, order, prevId);
      }
      while prevId != NULL && !ValidInsertPosition(nicr, ratio, prevId, nextId)
        invariant order == [] ==> prevId == NULL && nextId == NULL
        invariant order != [] ==>
                    i < |order| && prevId == order[i] && nextId == IdAt(order, i + 1) && nicr(prevId) >= ratio
        decreases |order| - i
      {
        EntryAt(nodes, order, i);
        EndIds(order, i + 1);
        assert nextId != NULL;
        EntryAt(nodes, order, i + 1);
        prevId := NodeAt(nodes, prevId).nextId;
        nextId := NodeAt(nodes, prevId).nextId;
        i := i + 1;
      }
      if order == [] {
        FitsBetween(order, nicr, ratio, 0);
        assert Between(order, 0, prevId, nextId);
      } else {
        EntryAt(nodes, order, i);
        var k := ValidPositionFits(nicr, ratio, prevId, nextId);
      }
    }

    /** `_ascendList`. */
    method AscendList(nicr: address -> nat, ratio: nat, startId: address)
      returns (prevId: address, nextId: address)
      requires Valid() && Sorted(order, nicr)
      requires startId in order && nicr(startId) <= ratio
      ensures FitsBetweenIds(order, nicr, ratio, prevId, nextId)
    {
      hide Linked, ProperOrder, Sorted;
      Membership(nodes, order);
      EndIds(order, |order|);
      if tail == startId && ratio <= nicr(startId) {
        FitsBetween(order, nicr, ratio, |order|);
        assert Between(order, |order|, startId, NULL);
        return startId, NULL;
      }
      nextId := startId;
      prevId := NodeAt(nodes, nextId).prevId;
      ghost var i: nat := Entry(nodes, order, nextId);
      while nextId != NULL && !ValidInsertPosition(nicr, ratio, prevId, nextId)
        invariant i < |order| && nextId == order[i] && prevId == IdAt(order, i - 1) && nicr(nextId) <= ratio
        decreases i
      {
        EntryAt(nodes, order, i);
        EndIds(order, i);
        assert prevId != NULL;
        EntryAt(nodes, order, i - 1);
        nextId := NodeAt(nodes, nextId).prevId;
        prevId := NodeAt(nodes, nextId).prevId;
        i := i - 1;
      }
      EntryAt(nodes, order, i);
      var k := ValidPositionFits(nicr, ratio, prevId, nextId);
    }

    /** `_findInsertPosition`: whatever the hints, a place where the ratio fits. */
    method FindInsertPosition(nicr: address -> nat, ratio: nat, prevHint: address, nextHint: address)
      returns (prevId: address, nextId: address)
      requires Valid() && Sorted(order, nicr)
      ensures FitsBetweenIds(order, nicr, ratio, prevId, nextId)
    {
      prevId, nextId := prevHint, nextHint;
      if prevId != NULL && (prevId !in nodes || ratio > nicr(prevId)) {
        prevId := NULL;
      }
      if nextId != NULL && (nextId !in nodes || ratio < nicr(nextId)) {
        nextId := NULL;
      }
      if prevId == NULL && nextId == NULL {
        prevId, nextId := DescendList(nicr, ratio, head);
      } else if prevId == NULL {
        prevId, nextId := AscendList(nicr, ratio, nextId);
      } else {
        prevId, nextId := DescendList(nicr, ratio, prevId);
      }
    }

    method SetNext(id: address, nextId: address)
      requires id in nodes
      modifies this`nodes
      ensures nodes == old(nodes)[id := old(nodes)[id].(nextId := nextId)]
    {
      nodes := nodes[id := nodes[id].(nextId := nextId)];
    }

    method SetPrev(id: address, prevId: address)
      requires id in nodes
      modifies this`nodes
      ensures nodes == old(nodes)[id := old(nodes)[id].(prevId := prevId)]
    {
      nodes := nodes[id := nodes[id].(prevId := prevId)];
    }

    /** The link updates of `_insert`. */
    method LinkNode(id: address, prevId: address, nextId: address)
      requires NULL !in nodes && id != NULL && id !in nodes
      requires prevId != NULL ==> prevId in nodes && (nextId == NULL ==> prevId == tail)
      requires nextId != NULL ==> nextId in nodes && (prevId == NULL ==> nextId == head)
      requires prevId == nextId ==> prevId == NULL
      modifies this`nodes, this`head, this`tail
      ensures nodes == LinkIn(old(nodes), id, prevId, nextId)
      ensures head == if prevId == NULL then id else old(head)
      ensures tail == if nextId == NULL then id else old(tail)
    {
      nodes := nodes[id := Node(NULL, NULL)];
      if prevId == NULL && nextId == NULL {
        head, tail := id, id;
      } else if prevId == NULL {
        SetNext(id, head);
        SetPrev(head, id);
        head := id;
      } else if nextId == NULL {
        SetPrev(id, tail);
        SetNext(tail, id);
        tail := id;
      } else {
        SetNext(id, nextId);
        SetPrev(id, prevId);
        SetNext(prevId, id);
        SetPrev(nextId, id);
      }
    }

    /** The first part of `_insert`: the hinted position if it is valid, else a search from the hints. */
    method InsertPosition(nicr: address -> nat, ratio: nat, prevHint: address, nextHint: address)
      returns (prevId: address, nextId: address)
      requires Valid() && Sorted(order, nicr)
      ensures FitsBetweenIds(order, nicr, ratio, prevId, nextId)
      ensures ValidInsertPosition(nicr, ratio, prevHint, nextHint) ==> prevId == prevHint && nextId == nextHint
    {
      hide Linked, ProperOrder, Sorted, FitsAt;
      prevId, nextId := prevHint, nextHint;
      if ValidInsertPosition(nicr, ratio, prevId, nextId) {
        var k := ValidPositionFits(nicr, ratio, prevId, nextId);
      } else {
        prevId, nextId := FindInsertPosition(nicr, ratio, prevId, nextId);
      }
    }

    /** `_insert`; false is a revert. */
    method InsertNode(nicr: address -> nat, id: address, ratio: nat, prevHint: address, nextHint: address)
      returns (ok: bool, ghost k: nat)
      requires Valid() && Sorted(order, nicr)
      modifies this
      ensures Valid()
      ensures ok <==> old(size) < maxSize && id !in old(order) && id != NULL && ratio > 0
      ensures !ok ==> order == old(order) && nodes == old(nodes)
      ensures ok ==> FitsAt(old(order), nicr, ratio, k) && order == InsertAt(old(order), k, id)
      ensures ok ==> Sorted(order, Updated(nicr, id, ratio))
      ensures ok && FitsBetweenIds(old(order), nicr, ratio, prevHint, nextHint) ==> Between(old(order), k, prevHint, nextHint)
    {
      hide Linked, ProperOrder, IdAt, InsertAt, Sorted, FitsAt;
      k := 0;
      Membership(nodes, order);
      if size == maxSize || id in nodes || id == NULL || !(ratio > 0) {
        return false, k;
      }
      ValidPositionIff(nicr, ratio, prevHint, nextHint);
      var prevId, nextId := InsertPosition(nicr, ratio, prevHint, nextHint);
      k :| Between(order, k, prevId, nextId) && FitsAt(order, nicr, ratio, k);
      LinkInLinked(nodes, order, k, id);
      EndIds(order, k);
      InsertEnds(order, k, id);
      NeighboursIn(nodes, order, k);
      InsertSorted(order, nicr, ratio, k, id, Updated(nicr, id, ratio));
      LinkNode(id, prevId, nextId);
      size := size + 1;
      order := InsertAt(order, k, id);
      return true, k;
    }

    /** The link updates of `_remove`. */
    method UnlinkNode(id: address)
      requires NULL !in nodes && id in nodes
      requires nodes[id].nextId == NULL <==> id == tail
      requires nodes[id].prevId == NULL <==> id == head
      requires id == head == tail <==> size <= 1
      requires nodes[id].nextId != NULL ==> nodes[id].nextId in nodes && nodes[id].nextId != id
      requires nodes[id].prevId != NULL ==> nodes[id].prevId in nodes && nodes[id].prevId != id
      requires nodes[id].prevId == nodes[id].nextId ==> nodes[id].prevId == NULL
      modifies this`nodes, this`head, this`tail
      ensures nodes == LinkOut(old(nodes), id)
      ensures head == if id == old(head) then old(nodes)[id].nextId else old(head)
      ensures tail == if id == old(tail) then old(nodes)[id].prevId else old(tail)
    {
      if size > 1 {
        if id == head {
          head := NodeAt(nodes, id).nextId;
          SetPrev(head, NULL);
        } else if id == tail {
          tail := NodeAt(nodes, id).prevId;
          SetNext(tail, NULL);
        } else {
          SetNext(NodeAt(nodes, id).prevId, NodeAt(nodes, id).nextId);
          SetPrev(NodeAt(nodes, id).nextId, NodeAt(nodes, id).prevId);
        }
      } else {
        head, tail := NULL, NULL;
      }
      nodes := nodes - {id};
    }

    /** `_remove`; false is a revert. */
    method RemoveNode(id: address) returns (ok: bool, ghost k: nat)
      requires Valid()
      modifies this
      ensures Valid()
      ensures ok <==> id in old(order)
      ensures !ok ==> order == old(order) && nodes == old(nodes)
      ensures ok ==> k < |old(order)| && old(order)[k] == id && order == RemoveAt(old(order), k)
      ensures forall nicr: address -> nat :: old(Sorted(order, nicr)) ==> Sorted(order, nicr)
    {
      hide Linked, ProperOrder, IdAt, RemoveAt;
      k := 0;
      Membership(nodes, order);
      if id !in nodes {
        return false, k;
      }
      k := Entry(nodes, order, id);
      LinkOutLinked(nodes, order, k);
      RemoveEnds(order, k);
      NeighboursOf(nodes, order, k);
      forall nicr: address -> nat | Sorted(order, nicr) ensures Sorted(RemoveAt(order, k), nicr) {
        RemoveSorted(order, nicr, k);
      }
      UnlinkNode(id);
      size := size - 1;
      order := RemoveAt(order, k);
      return true, k;
    }

    predicate CallerIsBOorTroveM(sender: address) {
      sender == borrowerOperationsAddress || sender == troveManager
    }

    /** `insert`. */
    method Insert(sender: address, nicr: address -> nat, id: address, ratio: nat, prevHint: address, nextHint: address)
      returns (ok: bool, ghost k: nat)
      requires Valid() && Sorted(order, nicr)
      modifies this
      ensures Valid()
      ensures ok <==> CallerIsBOorTroveM(sender) && old(size) < maxSize && id !in old(order) && id != NULL && ratio > 0
      ensures !ok ==> order == old(order) && nodes == old(nodes)
      ensures ok ==> FitsAt(old(order), nicr, ratio, k) && order == InsertAt(old(order), k, id)
      ensures ok ==> Sorted(order, Updated(nicr, id, ratio))
      ensures ok && FitsBetweenIds(old(order), nicr, ratio, prevHint, nextHint) ==> Between(old(order), k, prevHint, nextHint)
    {
      if !CallerIsBOorTroveM(sender) {
        return false, 0;
      }
      ok, k := InsertNode(nicr, id, ratio, prevHint, nextHint);
    }

    /** `remove`. */
    method Remove(sender: address, id: address) returns (ok: bool, ghost k: nat)
      requires Valid()
      modifies this
      ensures Valid()
      ensures ok <==> sender == troveManager && id in old(order)
      ensures !ok ==> order == old(order) && nodes == old(nodes)
      ensures ok ==> k < |old(order)| && old(order)[k] == id && order == RemoveAt(old(order), k)
      ensures forall nicr: address -> nat :: old(Sorted(order, nicr)) ==> Sorted(order, nicr)
    {
      if sender != troveManager {
        return false, 0;
      }
      ok, k := RemoveNode(id);
    }

    /** `reInsert`, for a trove whose ratio becomes `ratio`; hints count when they are valid in the list without it. */
    method ReInsert(sender: address, nicr: address -> nat, id: address, ratio: nat, prevHint: address, nextHint: address)
      returns (ok: bool, ghost i: nat, ghost k: nat)
      requires Valid() && Sorted(order, nicr)
      modifies this
      ensures Valid()
      ensures ok <==> CallerIsBOorTroveM(sender) && id in old(order) && ratio > 0
      ensures !ok ==> order == old(order) && nodes == old(nodes)
      ensures ok ==> i < |old(order)| && old(order)[i] == id
      ensures ok ==> var others := RemoveAt(old(order), i);
                     && FitsAt(others, nicr, ratio, k) && order == InsertAt(others, k, id)
                     && (FitsBetweenIds(others, nicr, ratio, prevHint, nextHint) ==> Between(others, k, prevHint, nextHint))
      ensures ok ==> Sorted(order, Updated(nicr, id, ratio))
    {
      i, k := 0, 0;
      if !CallerIsBOorTroveM(sender) || id !in nodes || !(ratio > 0) {
        return false, i, k;
      }
      ok, i := RemoveNode(id);
      RemoveSorted(old(order), nicr, i);
      RemoveProper(old(order), i);
      assert id != NULL;
      ok, k := InsertNode(nicr, id, ratio, prevHint, nextHint);
    }
  }
}
