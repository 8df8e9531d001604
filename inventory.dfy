/** Partitions and their compute-node inventory on the controller side, and the
    deduplication of each partition's inventory by node name
    (`ensure_unique_partitions` in charm-slurmctld/src/interface_slurmd.py). */
module Inventory {
  import opened Ops

  /** One compute node's inventory record, identified by its `node_name`. */
  datatype Node = Node(node_name: string, attributes: Bag)

  /** A partition: the peer application's partition metadata (every key but
      `inventory`) and the list stored under its `inventory` key. */
  datatype Partition = Partition(info: Bag, inventory: seq<Node>)

  /** No two entries share a node name. */
  ghost predicate UniqueNames(s: seq<Node>)
  {
    forall i, j :: 0 <= i < j < |s| ==> s[i].node_name != s[j].node_name
  }

  ghost function NameSet(s: seq<Node>): set<string>
  {
    set i | 0 <= i < |s| :: s[i].node_name
  }

  /** Index of the first entry named `name`, or |d| when there is none. */
  function Find(d: seq<Node>, name: string): (i: nat)
    ensures i <= |d|
    ensures i < |d| ==> d[i].node_name == name
    ensures forall j :: 0 <= j < i ==> d[j].node_name != name
  {
    if d == [] then 0
    else if d[0].node_name == name then 0
    else 1 + Find(d[1..], name)
  }

  /** Index of the last entry named `name`, or -1 when there is none. */
  function FindLast(d: seq<Node>, name: string): (i: int)
    ensures -1 <= i < |d|
    ensures 0 <= i ==> d[i].node_name == name
    ensures forall j :: i < j < |d| ==> d[j].node_name != name
  {
    if d == [] then -1
    else if d[|d| - 1].node_name == name then |d| - 1
    else FindLast(d[..|d| - 1], name)
  }

  /** `d[node["node_name"]] = node` on an insertion-ordered Python dict, with the
      dict held as its list of values: an existing key keeps its position and
      takes the new value, a new key goes to the end. */
  function Store(d: seq<Node>, n: Node): seq<Node>
  {
    var i := Find(d, n.node_name);
    if i < |d| then d[i := n] else d + [n]
  }

  /** `list({node["node_name"]: node for node in inventory}.values())`. */
  function UniqueInventory(inventory: seq<Node>): seq<Node>
  {
    if inventory == [] then []
    else Store(UniqueInventory(inventory[..|inventory| - 1]), inventory[|inventory| - 1])
  }

  /** The entries of `r` appear in the order in which their names first occur in `s`. */
  ghost predicate FirstOccurrenceOrder(s: seq<Node>, r: seq<Node>)
  {
    forall k, l :: 0 <= k < l < |r| ==> Find(s, r[k].node_name) < Find(s, r[l].node_name)
  }

  /** Each entry of `r` is the last entry of `s` that carries its name. */
  ghost predicate LastOccurrenceValues(s: seq<Node>, r: seq<Node>)
  {
    forall k :: 0 <= k < |r| ==>
      0 <= FindLast(s, r[k].node_name) && r[k] == s[FindLast(s, r[k].node_name)]
  }

  /** `r` is a correct deduplication of `s`. */
  ghost predicate Deduplicates(s: seq<Node>, r: seq<Node>)
  {
    && UniqueNames(r)
    && NameSet(r) == NameSet(s)
    && FirstOccurrenceOrder(s, r)
    && LastOccurrenceValues(s, r)
    && |r| <= |s|
  }

  lemma FindPresent(d: seq<Node>, name: string)
    requires name in NameSet(d)
    ensures Find(d, name) < |d|
  {
    var j :| 0 <= j < |d| && d[j].node_name == name;
    assert Find(d, name) <= j;
  }

  lemma FindAppend(s: seq<Node>, n: Node, name: string)
    ensures Find(s + [n], name) ==
      if Find(s, name) < |s| then Find(s, name)
      else if n.node_name == name then |s| else |s| + 1
  {
    var t := s + [n];
    var a := Find(s, name);
    var b := Find(t, name);
    if a < |s| {
      assert t[a] == s[a];
      assert b <= a;
    } else {
      assert forall j :: 0 <= j < |s| ==> t[j] == s[j];
      if n.node_name == name {
        assert t[|s|] == n;
      }
    }
  }

  lemma FindLastAppend(s: seq<Node>, n: Node, name: string)
    ensures FindLast(s + [n], name) == if n.node_name == name then |s| else FindLast(s, name)
  {
    assert (s + [n])[..|s|] == s;
  }

  lemma NameSetAppend(s: seq<Node>, n: Node)
    ensures NameSet(s + [n]) == NameSet(s) + {n.node_name}
  {
    var t := s + [n];
    forall x | x in NameSet(t) ensures x in NameSet(s) + {n.node_name} {
      var j :| 0 <= j < |t| && t[j].node_name == x;
      if j < |s| {
        assert s[j] == t[j];
      }
    }
    forall x | x in NameSet(s) ensures x in NameSet(t) {
      var j :| 0 <= j < |s| && s[j].node_name == x;
      assert t[j] == s[j];
    }
    assert t[|s|] == n;
  }

  lemma NameSetReplace(r: seq<Node>, i: nat, n: Node)
    requires i < |r| && r[i].node_name == n.node_name
    ensures NameSet(r[i := n]) == NameSet(r)
  {
    var r' := r[i := n];
    forall x | x in NameSet(r') ensures x in NameSet(r) {
      var j :| 0 <= j < |r'| && r'[j].node_name == x;
      assert r[j].node_name == x;
    }
    forall x | x in NameSet(r) ensures x in NameSet(r') {
      var j :| 0 <= j < |r| && r[j].node_name == x;
      assert r'[j].node_name == x;
    }
  }

  /** Appending `n` to `s` moves neither the first nor (for other names) the
      last occurrence of a name already in `s`. */
  lemma AppendKeepsNames(s: seq<Node>, n: Node, x: string)
    requires x in NameSet(s)
    ensures Find(s + [n], x) == Find(s, x) < |s|
    ensures x != n.node_name ==> FindLast(s + [n], x) == FindLast(s, x)
  {
    FindPresent(s, x);
    FindAppend(s, n, x);
    FindLastAppend(s, n, x);
  }

  lemma NamesOf(s: seq<Node>, r: seq<Node>)
    requires NameSet(r) == NameSet(s)
    ensures forall k :: 0 <= k < |r| ==> r[k].node_name in NameSet(s)
  {
    forall k | 0 <= k < |r| ensures r[k].node_name in NameSet(s) {
      assert r[k].node_name in NameSet(r);
    }
  }

  lemma StoreExistingOrder(s: seq<Node>, r: seq<Node>, n: Node, i: nat)
    requires Deduplicates(s, r)
    requires i < |r| && r[i].node_name == n.node_name
    ensures FirstOccurrenceOrder(s + [n], r[i := n])
  {
    var t, r' := s + [n], r[i := n];
    NamesOf(s, r);
    forall k, l | 0 <= k < l < |r'|
      ensures Find(t, r'[k].node_name) < Find(t, r'[l].node_name)
    {
      assert r'[k].node_name == r[k].node_name && r'[l].node_name == r[l].node_name;
      AppendKeepsNames(s, n, r[k].node_name);
      AppendKeepsNames(s, n, r[l].node_name);
    }
  }

  lemma StoreExistingValues(s: seq<Node>, r: seq<Node>, n: Node, i: nat)
    requires Deduplicates(s, r)
    requires i < |r| && r[i].node_name == n.node_name
    ensures LastOccurrenceValues(s + [n], r[i := n])
  {
    var t, r' := s + [n], r[i := n];
    NamesOf(s, r);
    FindLastAppend(s, n, n.node_name);
    forall k | 0 <= k < |r'|
      ensures 0 <= FindLast(t, r'[k].node_name) && r'[k] == t[FindLast(t, r'[k].node_name)]
    {
      if k == i {
        assert t[|s|] == n;
      } else {
        assert r'[k] == r[k] && r[k].node_name != n.node_name;
        AppendKeepsNames(s, n, r[k].node_name);
        assert t[FindLast(s, r[k].node_name)] == s[FindLast(s, r[k].node_name)];
      }
    }
  }

  /** Storing a node whose name is already present. */
  lemma StoreExisting(s: seq<Node>, r: seq<Node>, n: Node)
    requires Deduplicates(s, r)
    requires Find(r, n.node_name) < |r|
    ensures Deduplicates(s + [n], Store(r, n))
  {
    var i := Find(r, n.node_name);
    assert Store(r, n) == r[i := n];
    NameSetAppend(s, n);
    NameSetReplace(r, i, n);
    assert n.node_name in NameSet(s) by {
      assert r[i].node_name in NameSet(r);
    }
    StoreExistingOrder(s, r, n, i);
    StoreExistingValues(s, r, n, i);
  }

  lemma StoreNewOrder(s: seq<Node>, r: seq<Node>, n: Node)
    requires Deduplicates(s, r)
    requires n.node_name !in NameSet(s)
    ensures FirstOccurrenceOrder(s + [n], r + [n])
  {
    var t, r' := s + [n], r + [n];
    NamesOf(s, r);
    FindAppend(s, n, n.node_name);
    forall k, l | 0 <= k < l < |r'|
      ensures Find(t, r'[k].node_name) < Find(t, r'[l].node_name)
    {
      assert r'[k] == r[k];
      AppendKeepsNames(s, n, r[k].node_name);
      if l < |r| {
        assert r'[l] == r[l];
        AppendKeepsNames(s, n, r[l].node_name);
      }
    }
  }

  lemma StoreNewValues(s: seq<Node>, r: seq<Node>, n: Node)
    requires Deduplicates(s, r)
    requires n.node_name !in NameSet(s)
    ensures LastOccurrenceValues(s + [n], r + [n])
  {
    var t, r' := s + [n], r + [n];
    NamesOf(s, r);
    FindLastAppend(s, n, n.node_name);
    forall k | 0 <= k < |r'|
      ensures 0 <= FindLast(t, r'[k].node_name) && r'[k] == t[FindLast(t, r'[k].node_name)]
    {
      if k == |r| {
        assert t[|s|] == n;
      } else {
        assert r'[k] == r[k] && r[k].node_name != n.node_name;
        AppendKeepsNames(s, n, r[k].node_name);
        assert t[FindLast(s, r[k].node_name)] == s[FindLast(s, r[k].node_name)];
      }
    }
  }

  /** Storing a node with a new name. */
  lemma StoreNew(s: seq<Node>, r: seq<Node>, n: Node)
    requires Deduplicates(s, r)
    requires Find(r, n.node_name) == |r|
    ensures Deduplicates(s + [n], Store(r, n))
  {
    assert Store(r, n) == r + [n];
    NameSetAppend(s, n);
    NameSetAppend(r, n);
    assert n.node_name !in NameSet(s) by {
      if n.node_name in NameSet(r) {
        FindPresent(r, n.node_name);
      }
    }
    NamesOf(s, r);
    StoreNewOrder(s, r, n);
    StoreNewValues(s, r, n);
  }

  /** Storing one more node keeps a correct deduplication correct. */
  lemma StoreStep(s: seq<Node>, r: seq<Node>, n: Node)
    requires Deduplicates(s, r)
    ensures Deduplicates(s + [n], Store(r, n))
  {
    if Find(r, n.node_name) < |r| {
      StoreExisting(s, r, n);
    } else {
      StoreNew(s, r, n);
    }
  }

  /** The dict comprehension keeps each node name once, keeps exactly the names
      of its input, orders them by first occurrence and gives each the value of
      its last occurrence. */
  lemma {:induction false} UniqueInventorySpec(inventory: seq<Node>)
    ensures Deduplicates(inventory, UniqueInventory(inventory))
    decreases |inventory|
  {
    if inventory != [] {
      var init := inventory[..|inventory| - 1];
      var last := inventory[|inventory| - 1];
      UniqueInventorySpec(init);
      StoreStep(init, UniqueInventory(init), last);
      assert inventory == init + [last];
    }
  }

  /** An inventory that already has unique names is left as it is. */
  lemma {:induction false} UniqueInventoryOfUnique(inventory: seq<Node>)
    requires UniqueNames(inventory)
    ensures UniqueInventory(inventory) == inventory
    decreases |inventory|
  {
    if inventory != [] {
      var init := inventory[..|inventory| - 1];
      var last := inventory[|inventory| - 1];
      UniqueInventoryOfUnique(init);
      assert Find(init, last.node_name) == |init|;
      assert init + [last] == inventory;
    }
  }

  /** Deduplicating twice is deduplicating once. */
  lemma UniqueInventoryIdempotent(inventory: seq<Node>)
    ensures UniqueInventory(UniqueInventory(inventory)) == UniqueInventory(inventory)
  {
    UniqueInventorySpec(inventory);
    UniqueInventoryOfUnique(UniqueInventory(inventory));
  }

  /** Two strictly increasing, non-empty sequences with the same elements
      start alike and have tails with the same elements. */
  lemma IncreasingHeads(a: seq<int>, b: seq<int>)
    requires a != [] && b != []
    requires forall i, j :: 0 <= i < j < |a| ==> a[i] < a[j]
    requires forall i, j :: 0 <= i < j < |b| ==> b[i] < b[j]
    requires forall x :: x in a <==> x in b
    ensures a[0] == b[0]
    ensures forall x :: x in a[1..] <==> x in b[1..]
  {
    assert a[0] in a && b[0] in b;
    var j0 :| 0 <= j0 < |b| && b[j0] == a[0];
    var i0 :| 0 <= i0 < |a| && a[i0] == b[0];
    assert b[0] <= b[j0] && a[0] <= a[i0];
    forall x ensures x in a[1..] ==> x in b[1..] {
      if x in a[1..] {
        var i :| 0 <= i < |a[1..]| && a[1..][i] == x;
        assert a[i + 1] == x && x in a;
        var j :| 0 <= j < |b| && b[j] == x;
        assert j != 0;
        assert b[1..][j - 1] == x;
      }
    }
    forall x ensures x in b[1..] ==> x in a[1..] {
      if x in b[1..] {
        var j :| 0 <= j < |b[1..]| && b[1..][j] == x;
        assert b[j + 1] == x && x in b;
        var i :| 0 <= i < |a| && a[i] == x;
        assert i != 0;
        assert a[1..][i - 1] == x;
      }
    }
  }

  /** Two strictly increasing sequences with the same elements are equal. */
  lemma {:induction false} IncreasingUnique(a: seq<int>, b: seq<int>)
    requires forall i, j :: 0 <= i < j < |a| ==> a[i] < a[j]
    requires forall i, j :: 0 <= i < j < |b| ==> b[i] < b[j]
    requires forall x :: x in a <==> x in b
    ensures a == b
    decreases |a|
  {
    if a != [] {
      assert a[0] in a;
    }
    if b != [] {
      assert b[0] in b;
    }
    if a != [] && b != [] {
      IncreasingHeads(a, b);
      IncreasingUnique(a[1..], b[1..]);
      assert a == [a[0]] + a[1..] && b == [b[0]] + b[1..];
    }
  }

  /** The position, in `s`, of the first occurrence of each name of `r`. */
  function FirstPositions(s: seq<Node>, r: seq<Node>): (a: seq<int>)
    ensures |a| == |r|
    ensures forall k :: 0 <= k < |r| ==> a[k] == Find(s, r[k].node_name)
  {
    seq(|r|, k requires 0 <= k < |r| => Find(s, r[k].node_name))
  }

  /** Lists with the same names have the same first positions in `s`. */
  lemma SameFirstPositions(s: seq<Node>, r1: seq<Node>, r2: seq<Node>)
    requires NameSet(r1) == NameSet(r2)
    ensures forall x :: x in FirstPositions(s, r1) <==> x in FirstPositions(s, r2)
  {
    var a, b := FirstPositions(s, r1), FirstPositions(s, r2);
    forall x ensures x in a <==> x in b {
      if x in a {
        var k :| 0 <= k < |a| && a[k] == x;
        assert r1[k].node_name in NameSet(r2);
        var l :| 0 <= l < |r2| && r2[l].node_name == r1[k].node_name;
        assert b[l] == x;
      }
      if x in b {
        var l :| 0 <= l < |b| && b[l] == x;
        assert r2[l].node_name in NameSet(r1);
        var k :| 0 <= k < |r1| && r1[k].node_name == r2[l].node_name;
        assert a[k] == x;
      }
    }
  }

  /** Lists of last occurrences whose names sit at the same first positions
      are equal. */
  lemma SamePositionsSameList(s: seq<Node>, r1: seq<Node>, r2: seq<Node>)
    requires NameSet(r1) == NameSet(s) && NameSet(r2) == NameSet(s)
    requires LastOccurrenceValues(s, r1) && LastOccurrenceValues(s, r2)
    requires FirstPositions(s, r1) == FirstPositions(s, r2)
    ensures r1 == r2
  {
    var a, b := FirstPositions(s, r1), FirstPositions(s, r2);
    NamesOf(s, r1);
    NamesOf(s, r2);
    forall k | 0 <= k < |r1| ensures r1[k] == r2[k] {
      FindPresent(s, r1[k].node_name);
      FindPresent(s, r2[k].node_name);
      assert a[k] == b[k];
      assert s[a[k]].node_name == r1[k].node_name && s[b[k]].node_name == r2[k].node_name;
    }
  }

  /** Two correct deduplications of the same inventory are the same list. */
  lemma DeduplicationsAgree(s: seq<Node>, r1: seq<Node>, r2: seq<Node>)
    requires Deduplicates(s, r1) && Deduplicates(s, r2)
    ensures r1 == r2
  {
    SameFirstPositions(s, r1, r2);
    IncreasingUnique(FirstPositions(s, r1), FirstPositions(s, r2));
    SamePositionsSameList(s, r1, r2);
  }

  /** The four properties of a deduplication determine it: any list with them
      is what the dict comprehension returns. */
  lemma DeduplicatesCharacterizes(s: seq<Node>, r: seq<Node>)
    ensures Deduplicates(s, r) <==> r == UniqueInventory(s)
  {
    UniqueInventorySpec(s);
    if Deduplicates(s, r) {
      DeduplicationsAgree(s, r, UniqueInventory(s));
    }
  }

  /** One pass of the loop in `ensure_unique_partitions`: a copy of the
      partition whose inventory is deduplicated. */
  function UniquePartition(p: Partition): Partition
  {
    p.(inventory := UniqueInventory(p.inventory))
  }

  /** The copy keeps every field but the inventory, and its inventory is a
      correct deduplication of the original's. */
  lemma UniquePartitionSpec(p: Partition)
    ensures UniquePartition(p).info == p.info
    ensures Deduplicates(p.inventory, UniquePartition(p).inventory)
  {
    UniqueInventorySpec(p.inventory);
  }

  /** Every partition of a list replaced by its deduplicated copy, in order. */
  function UniquePartitions(s: seq<Partition>): (r: seq<Partition>)
    ensures |r| == |s|
    ensures forall i :: 0 <= i < |s| ==> r[i] == UniquePartition(s[i])
  {
    if s == [] then []
    else UniquePartitions(s[..|s| - 1]) + [UniquePartition(s[|s| - 1])]
  }

  /** Index of the first element equal to `x`, or |s| when there is none. */
  function IndexOf(s: seq<Partition>, x: Partition): (k: nat)
    ensures k <= |s|
    ensures k < |s| ==> s[k] == x
    ensures forall j :: 0 <= j < k ==> s[j] != x
  {
    if s == [] then 0
    else if s[0] == x then 0
    else 1 + IndexOf(s[1..], x)
  }

  /** A Python list of partitions, updated in place. */
  class PartitionList {
    var items: seq<Partition>

    constructor ()
      ensures items == []
    {
      items := [];
    }

    /** `list.append(p)`. */
    method Append(p: Partition)
      modifies this
      ensures items == old(items) + [p]
    {
      items := items + [p];
    }

    /** `list.remove(p)`: drops the first element equal to `p`; when there is
        none, Python raises ValueError, here `found` is false and the list is
        unchanged. */
    method Remove(p: Partition) returns (found: bool)
      modifies this
      ensures found <==> p in old(items)
      ensures found ==> var k := IndexOf(old(items), p);
        items == old(items)[..k] + old(items)[k + 1..]
      ensures !found ==> items == old(items)
    {
      var k := IndexOf(items, p);
      found := k < |items|;
      if found {
        items := items[..k] + items[k + 1..];
      }
    }
  }

  /** While the loop of `ensure_unique_partitions` runs, the list holds the
      partitions still to visit followed by the copies made so far, so the
      partition at hand heads it and `remove` takes it from the head. */
  lemma RemoveFromHead(pending: seq<Partition>, processed: seq<Partition>)
    requires pending != []
    ensures var items := pending + processed;
      && pending[0] in items
      && IndexOf(items, pending[0]) == 0
      && items[..0] + items[1..] == pending[1..] + processed
  {
    var items := pending + processed;
    assert items[0] == pending[0];
    assert items[1..] == pending[1..] + processed;
  }

  /** `ensure_unique_partitions(partitions)`: walks a copy of the list; for
      each partition removes it from the list (always from the head, since the
      processed copies are appended at the tail) and appends its deduplicated
      copy. The list itself is updated and returned. */
  method EnsureUniquePartitions(partitions: PartitionList) returns (r: PartitionList)
    modifies partitions
    ensures r == partitions
    ensures partitions.items == UniquePartitions(old(partitions.items))
  {
    var tmp := partitions.items;
    ghost var processed: seq<Partition> := [];
    for i := 0 to |tmp|
      invariant processed == UniquePartitions(tmp[..i])
      invariant partitions.items == tmp[i..] + processed
    {
      var partition := tmp[i];
      RemoveFromHead(tmp[i..], processed);
      assert tmp[i..][1..] == tmp[i + 1..];
      var found := partitions.Remove(partition);
      assert found;
      assert partitions.items == tmp[i + 1..] + processed;
      var copy := UniquePartition(partition);
      partitions.Append(copy);
      assert tmp[..i + 1][..i] == tmp[..i];
      processed := processed + [copy];
    }
    assert tmp[|tmp|..] == [] && tmp[..|tmp|] == tmp;
    r := partitions;
  }
}
