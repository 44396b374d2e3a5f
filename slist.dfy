/** The sentinel-headed singly linked list of ints of the standalone list exercise.
    A list is reached through its sentinel node `first`, whose own value is not part of
    the list; the elements are the nodes after it. */
module SList {

  /** The elements are in non-decreasing order. */
  ghost predicate Sorted(s: seq<int>)
  {
    forall i, j :: 0 <= i < j < |s| ==> s[i] <= s[j]
  }

  /** Position in front of which `input_sorted` links the new node: the first element
      strictly greater than `x`, or the end. */
  function FirstGreater(s: seq<int>, x: int): (p: nat)
    ensures p <= |s|
    ensures forall i :: 0 <= i < p ==> s[i] <= x
    ensures p < |s| ==> s[p] > x
  {
    if s == [] then 0
    else if s[0] > x then 0
    else 1 + FirstGreater(s[1..], x)
  }

  /** The contents after `input_sorted(first, x)` when they were `s` before: `x` goes in
      front of the first element strictly greater than it. */
  function InsertSorted(s: seq<int>, x: int): seq<int>
  {
    if s == [] then [x]
    else if s[0] > x then [x] + s
    else [s[0]] + InsertSorted(s[1..], x)
  }

  /** Inserting splits the old contents at `FirstGreater`. */
  lemma {:induction false} InsertSortedSplit(s: seq<int>, x: int)
    ensures InsertSorted(s, x) == s[..FirstGreater(s, x)] + [x] + s[FirstGreater(s, x)..]
  {
    if s != [] && s[0] <= x {
      InsertSortedSplit(s[1..], x);
      assert s[1..][..FirstGreater(s[1..], x)] == s[1..FirstGreater(s, x)];
    }
  }

  /** Every old element keeps its relative order and `x` is added once. */
  lemma InsertSortedShape(s: seq<int>, x: int)
    ensures var r, p := InsertSorted(s, x), FirstGreater(s, x);
      |r| == |s| + 1 && r[p] == x &&
      (forall i :: 0 <= i < p ==> r[i] == s[i]) &&
      (forall i :: p <= i < |s| ==> r[i + 1] == s[i]) &&
      multiset(r) == multiset(s) + multiset{x}
  {
    InsertSortedSplit(s, x);
    SplitShape(s, x, FirstGreater(s, x), InsertSorted(s, x));
  }

  /** `x` put between the first `p` elements of `s` and the rest. */
  lemma SplitShape(s: seq<int>, x: int, p: int, r: seq<int>)
    requires 0 <= p <= |s| && r == s[..p] + [x] + s[p..]
    ensures |r| == |s| + 1 && r[p] == x
    ensures forall i :: 0 <= i < p ==> r[i] == s[i]
    ensures forall i :: p <= i < |s| ==> r[i + 1] == s[i]
    ensures multiset(r) == multiset(s) + multiset{x}
  {
    assert s == s[..p] + s[p..];
  }

  /** A sorted list stays sorted, and every element not greater than `x` (in particular
      every element equal to it) stays ahead of `x`. */
  lemma InsertSortedKeepsOrder(s: seq<int>, x: int)
    requires Sorted(s)
    ensures Sorted(InsertSorted(s, x))
    ensures forall i :: 0 <= i < |s| && s[i] <= x ==> i < FirstGreater(s, x)
  {
    var r, p := InsertSorted(s, x), FirstGreater(s, x);
    InsertSortedShape(s, x);
    forall i, j | 0 <= i < j < |r| ensures r[i] <= r[j] {
      if j < p {
      } else if j == p {
      } else if i < p {
        assert r[j] == s[j - 1];
      } else if i == p {
        assert r[j] == s[j - 1] && s[p] > x;
      } else {
        assert r[i] == s[i - 1] && r[j] == s[j - 1];
      }
    }
  }

  /** No node occurs twice in the chain. */
  ghost predicate Distinct<T>(s: seq<T>)
  {
    forall i, j :: 0 <= i < j < |s| ==> s[i] != s[j]
  }

  /** Index facts about the chain after a node is spliced in behind position `k`. */
  lemma SpliceFacts<T>(chain: seq<T>, node: T, k: nat)
    requires k < |chain| && Distinct(chain) && node !in chain
    ensures var s := chain[..k + 1] + [node] + chain[k + 1..];
      |s| == |chain| + 1 && s[k + 1] == node &&
      (forall i :: 0 <= i <= k ==> s[i] == chain[i]) &&
      (forall i :: k + 1 < i < |s| ==> s[i] == chain[i - 1]) &&
      Distinct(s) && (forall n :: n in s <==> n in chain || n == node)
  {
    var s := chain[..k + 1] + [node] + chain[k + 1..];
    forall i, j | 0 <= i < j < |s| ensures s[i] != s[j] {
      var i' := if i <= k then i else i - 1;
      var j' := if j <= k then j else j - 1;
      if i != k + 1 && j != k + 1 {
        assert s[i] == chain[i'] && s[j] == chain[j'];
      }
    }
    forall n | n in chain ensures n in s {
      var i :| 0 <= i < |chain| && chain[i] == n;
      assert s[if i <= k then i else i + 1] == n;
    }
  }

  /** A node of the list (`struct list_item`). */
  class ListItem {
    var value: int
    var next: ListItem?

    /** `create_list_item`: a detached node holding `v`. */
    constructor (v: int)
      ensures value == v && next == null
    {
      value := v;
      next := null;
    }
  }

  /** A list seen from its sentinel. The ghost fields are the chain of nodes starting at the
      sentinel, the set of those nodes, the element values after the sentinel, and the nodes
      `clear` has released so far. */
  class SentinelList {
    const first: ListItem
    ghost var nodes: seq<ListItem>
    ghost var Repr: set<ListItem>
    ghost var contents: seq<int>
    ghost var released: seq<ListItem>

    ghost predicate Valid()
      reads this, Repr
    {
      |nodes| >= 1 && nodes[0] == first &&
      (forall i :: 0 <= i < |nodes| ==> nodes[i] in Repr) &&
      (forall i {:trigger nodes[i].next} :: 0 <= i < |nodes| ==>
        nodes[i].next == if i + 1 < |nodes| then nodes[i + 1] else null) &&
      Distinct(nodes) &&
      |contents| == |nodes| - 1 &&
      (forall i :: 0 <= i < |contents| ==> contents[i] == nodes[i + 1].value)
    }

    /** Wraps a detached sentinel, as the driver does with its stack-allocated root. */
    constructor (sentinel: ListItem)
      requires sentinel.next == null
      ensures Valid() && first == sentinel && contents == [] && released == []
      ensures Repr == {sentinel}
    {
      first := sentinel;
      nodes := [sentinel];
      Repr := {sentinel};
      contents := [];
      released := [];
    }

    /** `append`: walks to the last node and links a new node holding `x` after it. */
    method Append(x: int)
      requires Valid()
      modifies this, Repr
      ensures Valid() && fresh(Repr - old(Repr))
      ensures contents == old(contents) + [x]
      ensures first.value == old(first.value) && released == old(released)
    {
      var temp := first;
      ghost var k := 0;
      while temp.next != null
        invariant 0 <= k < |nodes| && temp == nodes[k]
        decreases |nodes| - k
      {
        temp := temp.next;
        k := k + 1;
      }
      var node := new ListItem(x);
      LinkLast(temp, node, k);
    }

    /** Links the detached `node` after `temp`, the last node of the chain: the final
        pointer update of `append` and of `input_sorted`. */
    method LinkLast(temp: ListItem, node: ListItem, ghost k: nat)
      requires Valid() && k == |nodes| - 1 && temp == nodes[k] && node !in Repr
      requires node.next == null
      modifies this, temp
      ensures Valid() && Repr == old(Repr) + {node}
      ensures contents == old(contents) + [node.value]
      ensures first.value == old(first.value) && released == old(released)
    {
      temp.next := node;
      nodes := nodes + [node];
      Repr := Repr + {node};
      contents := contents + [node.value];
    }

    /** `prepend`: links a new node holding `x` right after the sentinel. */
    method Prepend(x: int)
      requires Valid()
      modifies this, Repr
      ensures Valid() && fresh(Repr - old(Repr))
      ensures contents == [x] + old(contents)
      ensures first.value == old(first.value) && released == old(released)
    {
      var node := new ListItem(x);
      node.next := first.next;
      first.next := node;
      nodes := [first, node] + nodes[1..];
      Repr := Repr + {node};
      contents := [x] + contents;
    }

    /** Links the detached `node` between `temp`, the k-th node of the chain, and its
        successor: the two pointer updates of `input_sorted`'s loop. */
    method LinkAfter(temp: ListItem, node: ListItem, ghost k: nat)
      requires Valid() && k < |nodes| && temp == nodes[k] && node !in Repr
      modifies this, temp, node
      ensures Valid() && Repr == old(Repr) + {node}
      ensures contents == old(contents[..k]) + [node.value] + old(contents[k..])
      ensures node.value == old(node.value)
      ensures first.value == old(first.value) && released == old(released)
    {
      ghost var chain, vals := nodes, contents;
      SpliceFacts(chain, node, k);
      node.next := temp.next;
      temp.next := node;
      nodes := chain[..k + 1] + [node] + chain[k + 1..];
      Repr := Repr + {node};
      contents := vals[..k] + [node.value] + vals[k..];
      forall i | 0 <= i < |nodes|
        ensures nodes[i].next == if i + 1 < |nodes| then nodes[i + 1] else null
      {
        if i < k {
          assert nodes[i] == chain[i] != temp && nodes[i + 1] == chain[i + 1];
        } else if i > k + 1 {
          assert nodes[i] == chain[i - 1] != temp;
        }
      }
      forall i | 0 <= i < |contents| ensures contents[i] == nodes[i + 1].value {
        if i > k {
          assert nodes[i + 1] == chain[i];
        }
      }
    }

    /** `input_sorted`: links a new node holding `x` in front of the first element
        strictly greater than `x`, or at the end when there is none. */
    method InputSorted(x: int)
      requires Valid()
      modifies this, Repr
      ensures Valid() && fresh(Repr - old(Repr))
      ensures contents == InsertSorted(old(contents), x)
      ensures first.value == old(first.value) && released == old(released)
    {
      var temp := first;
      ghost var k := 0;
      var node := new ListItem(x);
      while temp.next != null
        invariant 0 <= k < |nodes| && temp == nodes[k]
        invariant forall i :: 0 <= i < k ==> contents[i] <= x
        decreases |nodes| - k
      {
        if temp.next.value > x {
          FirstGreaterAt(contents, x, k);
          InsertSortedSplit(contents, x);
          LinkAfter(temp, node, k);
          return;
        }
        temp := temp.next;
        k := k + 1;
      }
      FirstGreaterAt(contents, x, k);
      InsertSortedSplit(contents, x);
      LinkLast(temp, node, k);
    }

    /** `clear`: releases every element node, first to last, and unlinks them from the
        sentinel. Line 62 dereferences `first->next`, so the list must not be empty. */
    method Clear()
      requires Valid() && |contents| > 0
      modifies this, Repr
      ensures Valid() && Repr == {first}
      ensures contents == [] && first.next == null
      ensures first.value == old(first.value)
      ensures released == old(released) + old(nodes[1..])
    {
      var temp := first.next;
      ghost var k := 1;
      ghost var freed: seq<ListItem> := [];
      while temp.next != null
        invariant 1 <= k < |nodes| && temp == nodes[k]
        invariant freed == nodes[1..k]
        decreases |nodes| - k
      {
        var oldTemp := temp;
        temp := temp.next;
        freed := freed + [oldTemp];
        k := k + 1;
      }
      assert freed + [temp] == nodes[1..];
      released := released + freed + [temp];
      first.next := null;
      nodes := [first];
      Repr := {first};
      contents := [];
    }

    /** The traversal of `print`: every value from the sentinel on, returned in order
        instead of being written to the console. */
    method Walk() returns (values: seq<int>)
      requires Valid()
      ensures values == [first.value] + contents
    {
      var temp: ListItem? := first;
      ghost var k := 0;
      values := [];
      while temp != null
        invariant 0 <= k <= |nodes|
        invariant temp == if k < |nodes| then nodes[k] else null
        invariant |values| == k && forall i :: 0 <= i < k ==> values[i] == nodes[i].value
        decreases |nodes| - k
      {
        values := values + [temp.value];
        temp := temp.next;
        k := k + 1;
      }
    }
  }

  /** When the elements before `k` are all at most `x` and the one at `k` (if any) is
      greater, `k` is where `input_sorted` inserts. */
  lemma {:induction false} FirstGreaterAt(s: seq<int>, x: int, k: nat)
    requires k <= |s|
    requires forall i :: 0 <= i < k ==> s[i] <= x
    requires k < |s| ==> s[k] > x
    ensures FirstGreater(s, x) == k
  {
    if s != [] && k > 0 {
      FirstGreaterAt(s[1..], x, k - 1);
    }
  }

  /** The driver's appends and prepends on a fresh list whose sentinel holds -1. */
  method DriverFill() returns (list: SentinelList)
    ensures list.Valid() && fresh(list.Repr) && fresh(list)
    ensures list.first.value == -1 && list.contents == [10, 20, 40, 50, 80, 110]
  {
    var root := new ListItem(-1);
    list := new SentinelList(root);
    list.Append(50);
    list.Append(80);
    list.Append(110);
    list.Prepend(40);
    list.Prepend(20);
    list.Prepend(10);
  }

  /** The driver's three sorted insertions, on the contents its appends and prepends leave. */
  lemma DriverInsertions()
    ensures InsertSorted([10, 20, 40, 50, 80, 110], 45) == [10, 20, 40, 45, 50, 80, 110]
    ensures InsertSorted([10, 20, 40, 45, 50, 80, 110], 120)
      == [10, 20, 40, 45, 50, 80, 110, 120]
    ensures InsertSorted([10, 20, 40, 45, 50, 80, 110, 120], 85)
      == [10, 20, 40, 45, 50, 80, 85, 110, 120]
  {
    InsertAt([10, 20, 40, 50, 80, 110], 45, 3);
    InsertAt([10, 20, 40, 45, 50, 80, 110], 120, 7);
    InsertAt([10, 20, 40, 45, 50, 80, 110, 120], 85, 6);
  }

  /** `x` goes behind a prefix of elements not greater than it, in front of a greater one. */
  lemma InsertAt(s: seq<int>, x: int, k: nat)
    requires k <= |s|
    requires forall i :: 0 <= i < k ==> s[i] <= x
    requires k < |s| ==> s[k] > x
    ensures InsertSorted(s, x) == s[..k] + [x] + s[k..]
  {
    FirstGreaterAt(s, x, k);
    InsertSortedSplit(s, x);
  }

  /** The driver's three sorted insertions. */
  method DriverInsert(list: SentinelList)
    requires list.Valid() && list.contents == [10, 20, 40, 50, 80, 110]
    modifies list, list.Repr
    ensures list.Valid() && fresh(list.Repr - old(list.Repr))
    ensures list.first.value == old(list.first.value)
    ensures list.contents == [10, 20, 40, 45, 50, 80, 85, 110, 120]
  {
    DriverInsertions();
    list.InputSorted(45);
    list.InputSorted(120);
    list.InputSorted(85);
  }

  /** The driver's calls, observed by the traversal before and after `clear`. */
  method DriverScenario() returns (before: seq<int>, after: seq<int>)
    ensures before == [-1, 10, 20, 40, 45, 50, 80, 85, 110, 120]
    ensures after == [-1]
  {
    var list := DriverFill();
    DriverInsert(list);
    before := list.Walk();
    list.Clear();
    after := list.Walk();
  }
}
