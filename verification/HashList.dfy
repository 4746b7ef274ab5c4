/** The lists of hash buckets: a head with one pointer, and nodes that know, instead of their
    predecessor, the pointer that points to them. Insertion and removal therefore work
    without knowing the head. */
module HashList {
  import opened Wrappers

  class HlistHead {
    var first: HlistNode?

    /** INIT_HLIST_HEAD */
    constructor ()
      ensures Holds(this, [])
    {
      first := null;
    }
  }

  /** A value of type struct hlist_node **: the address of a head's first field or of a
      node's next field, or no such address. */
  datatype Slot = Null | Poison | First(head: HlistHead) | Next(node: HlistNode)

  class HlistNode {
    var next: HlistNode?
    var pprev: Slot

    /** INIT_HLIST_NODE */
    constructor ()
      ensures next == null && pprev == Null
    {
      next := null;
      pprev := Null;
    }
  }

  /** The object a slot is part of. */
  ghost function Owner(slot: Slot): set<object> {
    match slot
    case First(head) => {head}
    case Next(node) => {node}
    case _ => {}
  }

  /** *slot */
  function Deref(slot: Slot): HlistNode?
    requires slot.First? || slot.Next?
    reads Owner(slot)
  {
    match slot
    case First(head) => head.first
    case Next(node) => node.next
  }

  /** The slot that ought to point to the i-th node. */
  function SlotBefore(head: HlistHead, s: seq<HlistNode>, i: nat): Slot
    requires i <= |s|
  {
    if i == 0 then First(head) else Next(s[i - 1])
  }

  /** The bucket with this head holds these nodes, in this order. */
  ghost predicate Holds(head: HlistHead, s: seq<HlistNode>)
    reads head, s
  {
    && Distinct(s)
    && head.first == (if s == [] then null else s[0])
    && (forall i {:trigger s[i].next} :: 0 <= i < |s| ==> s[i].next == if i == |s| - 1 then null else s[i + 1])
    && (forall i {:trigger s[i].pprev} :: 0 <= i < |s| ==> s[i].pprev == SlotBefore(head, s, i))
  }

  lemma DistinctWith<T>(s: seq<T>, k: nat, x: T)
    requires Distinct(s) && k <= |s| && x !in s
    ensures Distinct(s[..k] + [x] + s[k..])
  {
    var r := s[..k] + [x] + s[k..];
    forall i | 0 <= i < |r|
      ensures r[i] == if i < k then s[i] else if i == k then x else s[i - 1]
    {
    }
  }

  /** Each node's pprev denotes the one slot of the bucket that points to it. */
  lemma PprevIsTheUniqueSlot(head: HlistHead, s: seq<HlistNode>, i: nat, j: nat)
    requires Holds(head, s) && i < |s| && j <= |s|
    ensures s[i].pprev.First? || s[i].pprev.Next?
    ensures Deref(s[i].pprev) == s[i]
    ensures Deref(SlotBefore(head, s, j)) == s[i] <==> SlotBefore(head, s, j) == s[i].pprev
    ensures Deref(SlotBefore(head, s, |s|)) == null
  {
    if i > 0 {
      assert s[i - 1].next == s[i];
    }
    if j > 0 {
      assert j < |s| ==> s[j - 1].next == s[j];
      assert j == |s| ==> s[j - 1].next == null;
    }
    assert i != j && j < |s| ==> s[i] != s[j];
    assert i > 0 && j > 0 && i != j && j < |s| ==> s[i - 1] != s[j - 1];
    assert j == |s| && i > 0 ==> s[i - 1] != s[j - 1];
  }

  /** *slot = node */
  method Assign(slot: Slot, node: HlistNode?)
    requires slot.First? || slot.Next?
    modifies Owner(slot)
    ensures slot.First? ==> slot.head.first == node
    ensures slot.Next? ==> slot.node.next == node && slot.node.pprev == old(slot.node.pprev)
  {
    match slot
    case First(head) => head.first := node;
    case Next(n) => n.next := node;
  }

  /** hlist_empty */
  method IsEmpty(head: HlistHead, ghost s: seq<HlistNode>) returns (empty: bool)
    requires Holds(head, s)
    ensures empty <==> s == []
  {
    empty := head.first == null;
  }

  /** hlist_unhashed: a node of a bucket is never taken for an unhashed one */
  method IsUnhashed(node: HlistNode, ghost head: HlistHead, ghost s: seq<HlistNode>) returns (unhashed: bool)
    requires Holds(head, s)
    ensures node in s ==> !unhashed
    ensures unhashed <==> node.pprev == Null
  {
    unhashed := node.pprev == Null;
  }

  // ---------- inserting ----------

  /** hlist_add_head */
  method AddHead(node: HlistNode, head: HlistHead, ghost s: seq<HlistNode>)
    requires Holds(head, s) && node !in s
    modifies node, head, head.first
    ensures Holds(head, [node] + s)
  {
    var first := head.first;
    node.next := first;
    if first != null {
      first.pprev := Next(node);
    }
    head.first := node;
    node.pprev := First(head);
    ghost var s' := [node] + s;
    forall i | 0 <= i < |s'|
      ensures s'[i].next == (if i == |s'| - 1 then null else s'[i + 1]) && s'[i].pprev == SlotBefore(head, s', i)
    {
      if i > 0 {
        assert s'[i] == s[i - 1];
        assert old(s[i - 1].pprev) == SlotBefore(head, s, i - 1);
      }
    }
  }

  /** hlist_add_before, in front of the k-th node */
  method AddBefore(node: HlistNode, next: HlistNode, ghost head: HlistHead, ghost s: seq<HlistNode>, ghost k: nat)
    requires Holds(head, s) && node !in s && k < |s| && next == s[k]
    modifies node, next, Owner(next.pprev)
    ensures Holds(head, s[..k] + [node] + s[k..])
  {
    assert next.pprev == SlotBefore(head, s, k);
    node.pprev := next.pprev;
    node.next := next;
    next.pprev := Next(node);
    Assign(node.pprev, node);
    ghost var s' := s[..k] + [node] + s[k..];
    forall i | 0 <= i < |s'|
      ensures s'[i].next == (if i == |s'| - 1 then null else s'[i + 1]) && s'[i].pprev == SlotBefore(head, s', i)
    {
      if i < k {
        assert s'[i] == s[i];
        assert old(s[i].pprev) == SlotBefore(head, s, i);
        assert old(s[i].next) == s[i + 1];
      } else if i > k {
        assert s'[i] == s[i - 1];
        assert old(s[i - 1].pprev) == SlotBefore(head, s, i - 1);
        assert i < |s| ==> old(s[i - 1].next) == s[i];
      }
    }
    DistinctWith(s, k, node);
  }

  /** hlist_add_after, behind the k-th node */
  method AddAfter(node: HlistNode, next: HlistNode, ghost head: HlistHead, ghost s: seq<HlistNode>, ghost k: nat)
    requires Holds(head, s) && next !in s && k < |s| && node == s[k]
    modifies node, next, node.next
    ensures Holds(head, s[..k + 1] + [next] + s[k + 1..])
  {
    next.next := node.next;
    node.next := next;
    next.pprev := Next(node);
    if next.next != null {
      next.next.pprev := Next(next);
    }
    ghost var s' := s[..k + 1] + [next] + s[k + 1..];
    forall i | 0 <= i < |s'|
      ensures s'[i].next == (if i == |s'| - 1 then null else s'[i + 1]) && s'[i].pprev == SlotBefore(head, s', i)
    {
      if i <= k {
        assert s'[i] == s[i];
        assert old(s[i].pprev) == SlotBefore(head, s, i);
        assert i < k ==> old(s[i].next) == s[i + 1];
      } else if i > k + 1 {
        assert s'[i] == s[i - 1];
        assert old(s[i - 1].pprev) == SlotBefore(head, s, i - 1);
        assert i < |s| ==> old(s[i - 1].next) == s[i];
      }
    }
    assert Distinct(s');
  }

  // ---------- removing ----------

  /** __hlist_del of the k-th node, which keeps its own links */
  method Unlink(node: HlistNode, ghost head: HlistHead, ghost s: seq<HlistNode>, ghost k: nat)
    requires Holds(head, s) && k < |s| && node == s[k]
    modifies Owner(node.pprev), node.next
    ensures Holds(head, Without(s, k))
  {
    assert node.pprev == SlotBefore(head, s, k);
    var next, pprev := node.next, node.pprev;
    assert k > 0 ==> s[k - 1] != node;
    Assign(pprev, next);
    if next != null {
      next.pprev := pprev;
    }
    ghost var s' := Without(s, k);
    forall i | 0 <= i < |s'|
      ensures s'[i].next == (if i == |s'| - 1 then null else s'[i + 1]) && s'[i].pprev == SlotBefore(head, s', i)
    {
      if i < k {
        assert s'[i] == s[i];
        assert old(s[i].pprev) == SlotBefore(head, s, i);
        assert old(s[i].next) == s[i + 1];
      } else {
        assert s'[i] == s[i + 1];
        assert old(s[i + 1].pprev) == SlotBefore(head, s, i + 1);
        assert i + 1 < |s| - 1 ==> old(s[i + 1].next) == s[i + 2];
      }
    }
    DistinctWithout(s, k);
  }

  /** hlist_del: afterwards the links are poisoned, and the node does not count as unhashed. The
      address LIST_POISON1 is a parameter. */
  method Del(node: HlistNode, poison1: HlistNode?, ghost head: HlistHead, ghost s: seq<HlistNode>, ghost k: nat)
    requires Holds(head, s) && k < |s| && node == s[k]
    modifies node, Owner(node.pprev), node.next
    ensures Holds(head, Without(s, k)) && node !in Without(s, k)
    ensures node.next == poison1 && node.pprev == Poison
  {
    Unlink(node, head, s, k);
    node.next := poison1;
    node.pprev := Poison;
  }

  /** hlist_del_init: removes a node from its bucket; on an unhashed node it does nothing */
  method DelInit(node: HlistNode, ghost head: HlistHead, ghost s: seq<HlistNode>, ghost k: nat)
    requires Holds(head, s)
    requires node.pprev == Null || (k < |s| && node == s[k])
    modifies node, Owner(node.pprev), node.next
    ensures Holds(head, if old(node.pprev) == Null then s else Without(s, k))
    ensures old(node.pprev) != Null ==> node.next == null
    ensures old(node.pprev) == Null ==> node.next == old(node.next)
    ensures node.pprev == Null && node !in (if old(node.pprev) == Null then s else Without(s, k))
  {
    if node.pprev != Null {
      Unlink(node, head, s, k);
      node.next := null;
      node.pprev := Null;
    }
  }
}
