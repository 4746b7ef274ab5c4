/** Intrusive circular doubly linked lists, changed in place. A list is a ring of nodes whose
    first node is the list head; the ghost sequences name its nodes in order. What a method
    does not list in its modifies clause stays as it is: every list that shares no node with
    it is unchanged. */
module CircularList {
  import opened Wrappers

  class ListHead {
    // null stands for a link that was never set
    var next: ListHead?
    var prev: ListHead?

    /** INIT_LIST_HEAD on a new node */
    constructor ()
      ensures Ring([this])
    {
      next := this;
      prev := this;
    }
  }

  /** next and prev walk the nodes of r in order and in reverse, around the ring. */
  ghost predicate Ring(r: seq<ListHead>)
    reads r
  {
    && r != [] && Distinct(r)
    && r[|r| - 1].next == r[0] && r[0].prev == r[|r| - 1]
    && (forall i {:trigger r[i].next} :: 0 <= i < |r| - 1 ==> r[i].next == r[i + 1])
    && (forall i {:trigger r[i].prev} :: 0 < i < |r| ==> r[i].prev == r[i - 1])
  }

  /** The list with this head holds these entries, in this order. */
  ghost predicate Holds(head: ListHead, entries: seq<ListHead>)
    reads head, entries
  {
    Ring([head] + entries)
  }

  ghost predicate Disjoint(r: seq<ListHead>, q: seq<ListHead>) {
    forall x :: x in r ==> x !in q
  }

  /** In a ring, following next and then prev leads back, and the other way round; neither
      leaves the ring. */
  lemma NextAndPrevAreInverse(r: seq<ListHead>, i: nat)
    requires Ring(r) && i < |r|
    ensures r[i].next in r && r[i].next != null && r[i].next.prev == r[i]
    ensures r[i].prev in r && r[i].prev != null && r[i].prev.next == r[i]
  {
    if i < |r| - 1 {
      assert r[i + 1].prev == r[i];
    }
    if i > 0 {
      assert r[i - 1].next == r[i];
    }
  }

  lemma EntryNeighbours(head: ListHead, entries: seq<ListHead>, k: nat)
    requires Holds(head, entries) && k < |entries|
    ensures entries[k].next in [head] + entries && entries[k].prev in [head] + entries
    ensures entries[k].next != null && entries[k].prev != null
    ensures entries[k] != head && entries[k] !in Without(entries, k)
  {
    var r := [head] + entries;
    assert r[k + 1] == entries[k];
    NextAndPrevAreInverse(r, k + 1);
    forall i | 0 <= i < |entries| && i != k
      ensures entries[i] != entries[k]
    {
      assert r[i + 1] == entries[i];
    }
  }

  // ---------- inserting ----------

  /** __list_add, between the neighbours r[k] and its successor */
  method Link(node: ListHead, prev: ListHead, next: ListHead, ghost r: seq<ListHead>, ghost k: nat)
    requires Ring(r) && node !in r
    requires k < |r| && prev == r[k] && next == prev.next
    modifies node, prev, next
    ensures Ring(r[..k + 1] + [node] + r[k + 1..])
  {
    next.prev := node;
    node.next := next;
    node.prev := prev;
    prev.next := node;
  }

  /** list_add: a stack's push */
  method Add(node: ListHead, head: ListHead, ghost entries: seq<ListHead>)
    requires Holds(head, entries) && node != head && node !in entries
    modifies node, head, head.next
    ensures Holds(head, [node] + entries)
  {
    ghost var r := [head] + entries;
    Link(node, head, head.next, r, 0);
    assert r[..1] + [node] + r[1..] == [head] + ([node] + entries);
  }

  /** list_add_tail: a queue's enqueue */
  method AddTail(node: ListHead, head: ListHead, ghost entries: seq<ListHead>)
    requires Holds(head, entries) && node != head && node !in entries
    modifies node, head, head.prev
    ensures Holds(head, entries + [node])
  {
    ghost var r := [head] + entries;
    Link(node, head.prev, head, r, |entries|);
    assert r[..|entries| + 1] + [node] + r[|entries| + 1..] == [head] + (entries + [node]);
  }

  // ---------- removing ----------

  /** __list_del, around the node r[k], which is not the first */
  method Unlink(prev: ListHead, next: ListHead, ghost r: seq<ListHead>, ghost k: nat)
    requires Ring(r) && 0 < k < |r| && prev == r[k].prev && next == r[k].next
    modifies prev, next
    ensures Ring(Without(r, k))
    ensures r[k].next == old(r[k].next) && r[k].prev == old(r[k].prev)
  {
    next.prev := prev;
    prev.next := next;
  }

  /** __list_del(entry->prev, entry->next): the entry itself still has its links */
  method Detach(entry: ListHead, ghost head: ListHead, ghost entries: seq<ListHead>, ghost k: nat)
    requires Holds(head, entries) && k < |entries| && entry == entries[k]
    modifies entry.prev, entry.next
    ensures Holds(head, Without(entries, k))
    ensures entry.prev == old(entry.prev) && entry.next == old(entry.next)
    ensures head.next == if k == 0 then old(entry.next) else old(head.next)
    ensures head.prev == if k == |entries| - 1 then old(entry.prev) else old(head.prev)
  {
    ghost var r := [head] + entries;
    EntryNeighbours(head, entries, k);
    assert r[k + 1] == entry;
    Unlink(entry.prev, entry.next, r, k + 1);
    assert Without(r, k + 1) == [head] + Without(entries, k);
  }

  /** list_del: the removed entry keeps no link into the list. Its links become the addresses
      LIST_POISON1 and LIST_POISON2, which are parameters here. */
  method Del(entry: ListHead, poison1: ListHead?, poison2: ListHead?,
             ghost head: ListHead, ghost entries: seq<ListHead>, ghost k: nat)
    requires Holds(head, entries) && k < |entries| && entry == entries[k]
    modifies entry, entry.prev, entry.next
    ensures Holds(head, Without(entries, k))
    ensures entry.next == poison1 && entry.prev == poison2
  {
    EntryNeighbours(head, entries, k);
    Detach(entry, head, entries, k);
    entry.next := poison1;
    entry.prev := poison2;
  }

  /** list_del_init: the removed entry becomes an empty list of its own */
  method DelInit(entry: ListHead, ghost head: ListHead, ghost entries: seq<ListHead>, ghost k: nat)
    requires Holds(head, entries) && k < |entries| && entry == entries[k]
    modifies entry, entry.prev, entry.next
    ensures Holds(head, Without(entries, k))
    ensures Holds(entry, [])
  {
    EntryNeighbours(head, entries, k);
    Detach(entry, head, entries, k);
    entry.next := entry;
    entry.prev := entry;
  }

  // ---------- moving ----------

  /** list_move within one list: the entry comes first */
  method MoveWithin(entry: ListHead, head: ListHead, ghost entries: seq<ListHead>, ghost k: nat)
    requires Holds(head, entries) && k < |entries| && entry == entries[k]
    modifies entry, entry.prev, entry.next, head, head.next
    ensures Holds(head, [entry] + Without(entries, k))
  {
    EntryNeighbours(head, entries, k);
    Detach(entry, head, entries, k);
    Add(entry, head, Without(entries, k));
  }

  /** list_move_tail within one list: the entry comes last */
  method MoveTailWithin(entry: ListHead, head: ListHead, ghost entries: seq<ListHead>, ghost k: nat)
    requires Holds(head, entries) && k < |entries| && entry == entries[k]
    modifies entry, entry.prev, entry.next, head, head.prev
    ensures Holds(head, Without(entries, k) + [entry])
  {
    EntryNeighbours(head, entries, k);
    Detach(entry, head, entries, k);
    AddTail(entry, head, Without(entries, k));
  }

  /** list_move to another list */
  method MoveTo(entry: ListHead, ghost from: ListHead, ghost entries: seq<ListHead>, ghost k: nat,
                head: ListHead, ghost others: seq<ListHead>)
    requires Holds(from, entries) && k < |entries| && entry == entries[k]
    requires Holds(head, others) && Disjoint([from] + entries, [head] + others)
    modifies entry, entry.prev, entry.next, head, head.next
    ensures Holds(from, Without(entries, k))
    ensures Holds(head, [entry] + others)
  {
    EntryNeighbours(from, entries, k);
    NextAndPrevAreInverse([head] + others, 0);
    assert entry in [from] + entries;
    Detach(entry, from, entries, k);
    Add(entry, head, others);
  }

  /** list_move_tail to another list */
  method MoveTailTo(entry: ListHead, ghost from: ListHead, ghost entries: seq<ListHead>, ghost k: nat,
                    head: ListHead, ghost others: seq<ListHead>)
    requires Holds(from, entries) && k < |entries| && entry == entries[k]
    requires Holds(head, others) && Disjoint([from] + entries, [head] + others)
    modifies entry, entry.prev, entry.next, head, head.prev
    ensures Holds(from, Without(entries, k))
    ensures Holds(head, others + [entry])
  {
    EntryNeighbours(from, entries, k);
    NextAndPrevAreInverse([head] + others, 0);
    assert entry in [from] + entries;
    Detach(entry, from, entries, k);
    AddTail(entry, head, others);
  }

  // ---------- splicing ----------

  /** Holds, spelled out for the entries. */
  ghost predicate Chained(head: ListHead, s: seq<ListHead>)
    reads head, s
  {
    && Distinct(s) && head !in s
    && head.next == (if s == [] then head else s[0])
    && head.prev == (if s == [] then head else s[|s| - 1])
    && (forall i {:trigger s[i].next} :: 0 <= i < |s| ==> s[i].next == if i == |s| - 1 then head else s[i + 1])
    && (forall i {:trigger s[i].prev} :: 0 <= i < |s| ==> s[i].prev == if i == 0 then head else s[i - 1])
  }

  lemma HoldsIsChained(head: ListHead, s: seq<ListHead>)
    requires Holds(head, s)
    ensures Chained(head, s)
  {
    var r := [head] + s;
    assert r[|r| - 1] == if s == [] then head else s[|s| - 1];
    forall i | 0 <= i < |s|
      ensures s[i] == r[i + 1] && s[i] != head
      ensures s[i].next == if i == |s| - 1 then head else s[i + 1]
      ensures s[i].prev == if i == 0 then head else s[i - 1]
    {
      assert r[i + 1].prev == r[i];
      assert i < |s| - 1 ==> r[i + 1].next == r[i + 2];
    }
    forall i, j | 0 <= i < j < |s|
      ensures s[i] != s[j]
    {
      assert r[i + 1] != r[j + 1];
    }
    assert s != [] ==> r[0].next == r[1];
  }

  lemma ChainedHolds(head: ListHead, s: seq<ListHead>)
    requires Chained(head, s)
    ensures Holds(head, s)
  {
    var r := [head] + s;
    forall i | 0 <= i < |r| - 1
      ensures r[i].next == r[i + 1] && r[i + 1].prev == r[i]
    {
      assert r[i + 1] == s[i];
      assert i > 0 ==> r[i] == s[i - 1] && s[i - 1].next == s[i];
      assert s[i].prev == if i == 0 then head else s[i - 1];
    }
    if s != [] {
      assert r[|r| - 1] == s[|s| - 1];
      assert s[|s| - 1].next == head;
    }
  }

  /** list_empty */
  method IsEmpty(head: ListHead, ghost entries: seq<ListHead>) returns (empty: bool)
    requires Holds(head, entries)
    ensures empty <==> entries == []
  {
    empty := head.next == head;
    ghost var r := [head] + entries;
    assert entries != [] ==> r[0].next == r[1];
  }

  /** __list_splice: a nonempty list goes in right behind the other head */
  method SpliceNonempty(list: ListHead, head: ListHead, ghost entries: seq<ListHead>, ghost others: seq<ListHead>)
    requires Holds(list, entries) && Holds(head, others) && entries != []
    requires Disjoint([list] + entries, [head] + others)
    modifies list.next, list.prev, head, head.next
    ensures Holds(head, entries + others)
    ensures list.next == old(list.next) && list.prev == old(list.prev)
  {
    HoldsIsChained(list, entries);
    HoldsIsChained(head, others);
    assert DisjointParts(list, entries, head, others) by {
      DisjointHeads(list, entries, head, others);
    }
    var first, last, at := list.next, list.prev, head.next;
    first.prev := head;
    head.next := first;
    last.next := at;
    at.prev := last;
    DistinctConcat(entries, others);
    ghost var s, m := entries + others, |entries|;
    forall i | 0 <= i < |s|
      ensures s[i].prev == if i == 0 then head else s[i - 1]
      ensures s[i].next == if i == |s| - 1 then head else s[i + 1]
    {
      if i < m {
        assert s[i] == entries[i] && first == entries[0] && last == entries[m - 1];
        assert old(entries[i].prev) == if i == 0 then list else entries[i - 1];
      } else {
        ghost var j := i - m;
        assert s[i] == others[j] && at == others[0];
        assert old(others[j].prev) == if j == 0 then head else others[j - 1];
      }
    }
    ChainedHolds(head, s);
  }

  lemma DistinctConcat<T>(a: seq<T>, b: seq<T>)
    requires Distinct(a) && Distinct(b) && forall x :: x in a ==> x !in b
    ensures Distinct(a + b)
  {
    var s := a + b;
    forall i, j | 0 <= i < j < |s|
      ensures s[i] != s[j]
    {
      if i < |a| <= j {
        assert s[i] in a && s[j] in b;
      }
    }
  }

  ghost predicate DisjointParts(list: ListHead, entries: seq<ListHead>, head: ListHead, others: seq<ListHead>) {
    && list != head && list !in others && head !in entries
    && forall x :: x in entries ==> x !in others
  }

  lemma DisjointHeads(list: ListHead, entries: seq<ListHead>, head: ListHead, others: seq<ListHead>)
    requires Disjoint([list] + entries, [head] + others)
    ensures DisjointParts(list, entries, head, others)
  {
    assert list in [list] + entries && head in [head] + others;
    forall x | x in entries
      ensures x != head && x !in others
    {
      assert x in [list] + entries;
    }
  }

  /** list_splice: leaves the head of the spliced list pointing into the other one */
  method Splice(list: ListHead, head: ListHead, ghost entries: seq<ListHead>, ghost others: seq<ListHead>)
    requires Holds(list, entries) && Holds(head, others)
    requires Disjoint([list] + entries, [head] + others)
    modifies list.next, list.prev, head, head.next
    ensures Holds(head, entries + others)
    ensures list.next == old(list.next) && list.prev == old(list.prev)
  {
    var empty := IsEmpty(list, entries);
    if !empty {
      SpliceNonempty(list, head, entries, others);
    } else {
      assert entries + others == others;
    }
  }

  /** list_splice_init: the spliced list ends up empty */
  method SpliceInit(list: ListHead, head: ListHead, ghost entries: seq<ListHead>, ghost others: seq<ListHead>)
    requires Holds(list, entries) && Holds(head, others)
    requires Disjoint([list] + entries, [head] + others)
    modifies list, list.next, list.prev, head, head.next
    ensures Holds(head, entries + others)
    ensures Holds(list, [])
  {
    var empty := IsEmpty(list, entries);
    HoldsIsChained(list, entries);
    DisjointHeads(list, entries, head, others);
    if !empty {
      SpliceNonempty(list, head, entries, others);
      assert list !in [head] + (entries + others);
      list.next := list;
      list.prev := list;
    } else {
      assert entries + others == others;
    }
  }

  // ---------- iterating ----------

  /** The first entry and its links: pos in a loop that starts at head->next. */
  lemma FirstEntry(head: ListHead, left: seq<ListHead>)
    requires Holds(head, left)
    ensures head.next == (if left == [] then head else left[0])
    ensures left != [] ==> left[0].prev == head && left[0] != head && left[0] !in left[1..]
    ensures left != [] ==> left[0].next == if |left| == 1 then head else left[1]
  {
    HoldsIsChained(head, left);
    if left != [] {
      assert left[0].next == if |left| == 1 then head else left[1];
      assert left[0].prev == head;
    }
  }

  /** Where a loop stands that has deleted the first k entries. */
  ghost predicate Deleted(head: ListHead, entries: seq<ListHead>, k: nat, pos: ListHead, poison: (ListHead?, ListHead?))
    reads head, entries
    requires k <= |entries|
  {
    && Holds(head, entries[k..])
    && pos == head.next == (if k < |entries| then entries[k] else head)
    && forall i :: 0 <= i < k ==> entries[i].next == poison.0 && entries[i].prev == poison.1
  }

  lemma AtEntry(head: ListHead, entries: seq<ListHead>, k: nat)
    requires k <= |entries| && Holds(head, entries[k..])
    ensures head.next == (if k < |entries| then entries[k] else head)
    ensures k < |entries| ==> entries[k].prev == head && entries[k] != head
    ensures k < |entries| ==> entries[k].next == if k + 1 < |entries| then entries[k + 1] else head
  {
    FirstEntry(head, entries[k..]);
  }

  /** The body of a deleting loop: the entry at the head of what is left goes. */
  method DelFirst(pos: ListHead, poison: (ListHead?, ListHead?),
                  ghost head: ListHead, ghost entries: seq<ListHead>, ghost k: nat)
    requires Distinct(entries) && head !in entries
    requires k < |entries| && Deleted(head, entries, k, pos, poison)
    modifies head, entries
    ensures Deleted(head, entries, k + 1, old(pos.next), poison)
  {
    AtEntry(head, entries, k);
    assert Without(entries[k..], 0) == entries[k + 1..];
    Del(pos, poison.0, poison.1, head, entries[k..], 0);
    AtEntry(head, entries, k + 1);
  }

  lemma AtStart(head: ListHead, entries: seq<ListHead>, poison: (ListHead?, ListHead?))
    requires Holds(head, entries)
    ensures Distinct(entries) && head !in entries
    ensures Deleted(head, entries, 0, head.next, poison) && head.next.next != null
  {
    var r := [head] + entries;
    assert forall i :: 0 <= i < |entries| ==> entries[i] == r[i + 1];
    assert entries[0..] == entries;
    AtEntry(head, entries, 0);
  }

  lemma AtEnd(head: ListHead, entries: seq<ListHead>, k: nat, poison: (ListHead?, ListHead?))
    requires head !in entries && k <= |entries| && Deleted(head, entries, k, head, poison)
    ensures k == |entries| && entries[..k] == entries && Holds(head, [])
    ensures forall e :: e in entries ==> e.next == poison.0 && e.prev == poison.1
  {
    assert entries[k..] == [];
  }

  /** A list_for_each_entry_safe loop that deletes every entry: it visits each exactly once,
      in order, keeps no pointer to a deleted one, and leaves an empty list. */
  method DeleteAll(head: ListHead, poison: (ListHead?, ListHead?), ghost entries: seq<ListHead>)
    returns (ghost visited: seq<ListHead>)
    requires Holds(head, entries)
    modifies head, entries
    ensures visited == entries
    ensures Holds(head, [])
    ensures forall e :: e in entries ==> e.next == poison.0 && e.prev == poison.1
  {
    visited := [];
    AtStart(head, entries, poison);
    var pos := head.next;
    var n := pos.next;
    while pos != head
      invariant |visited| <= |entries| && visited == entries[..|visited|]
      invariant pos != null && Deleted(head, entries, |visited|, pos, poison) && n == pos.next
      decreases |entries| - |visited|
    {
      assert visited + [pos] == entries[..|visited| + 1];
      DelFirst(pos, poison, head, entries, |visited|);
      visited := visited + [pos];
      pos := n;
      n := pos.next;
    }
    AtEnd(head, entries, |visited|, poison);
  }
}
