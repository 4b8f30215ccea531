// The doubly linked lists of genromfs: a header that overlays two sentinel
// nodes, so that appending and walking need no special cases.

module SentinelList {
  import opened Common

  /** The two pointers a node starts with, and the node they belong to; a sentinel has none. */
  class Link<T> {
    var next: Link?<T>
    var prev: Link?<T>
    var node: Option<T>
    ghost var list: FileHdr?<T>     // the list it is on

    /** A node that is on no list. */
    constructor ()
      ensures next == null && prev == null && node == None && list == null
    {
      next, prev, node, list := null, null, None, null;
    }

    /** Whether a listed node has a sibling behind it, and which: there are two more nodes, the last a sentinel. */
    method Sibling(ghost hdr: FileHdr<T>, ghost i: nat) returns (sibling: Link?<T>)
      requires hdr.Valid() && i < |hdr.items| && hdr.items[i] == this
      ensures sibling == if i + 1 < |hdr.items| then hdr.items[i + 1] else null
    {
      hdr.Place(i + 1);
      hdr.Place(i + 2);
      sibling := if next != null && next.next != null then next else null;
    }
  }

  /** Each node of a chain leads to the one behind it and back. */
  ghost predicate Chained<T>(chain: seq<Link<T>>)
    reads chain
  {
    && (forall i, j :: 0 <= i < j < |chain| ==> chain[i] != chain[j])
    && (forall i :: 0 <= i < |chain| - 1 ==> chain[i].next == chain[i + 1])
    && (forall i :: 0 < i < |chain| ==> chain[i].prev == chain[i - 1])
  }

  /**
   * The fields `head`, `tail`, `tailpred` read as two nodes: `first` is { next = head, prev = tail } and
   * `last` is { next = tail, prev = tailpred }. Their common field `tail` is NULL for good.
   */
  class FileHdr<T> {
    const first: Link<T>
    const last: Link<T>
    ghost var items: seq<Link<T>>
    ghost var repr: set<Link<T>>    // all of its links

    ghost function Chain(): (chain: seq<Link<T>>)
      reads this
      ensures |chain| == |items| + 2
    {
      [first] + items + [last]
    }

    ghost predicate Valid()
      reads this, repr
    {
      && (forall x | x in Chain() :: x in repr) && (forall x | x in repr :: x.list == this)
      && Chained(Chain()) && first.prev == null && last.next == null
    }

    /** `initlist` */
    constructor ()
      ensures Valid() && items == [] && fresh(repr)
    {
      first := new Link();
      last := new Link();
      items := [];
      new;
      first.next := last;
      last.prev := first;
      first.list, last.list, repr := this, this, {first, last};
    }

    /** What is at place `k` of the chain, and behind it. */
    lemma Place(k: nat)
      requires Valid() && 0 < k < |items| + 2
      ensures Chain()[k] == if k <= |items| then items[k - 1] else last
      ensures Chain()[k - 1].next == Chain()[k]
      ensures Chain()[k].next == if k <= |items| then Chain()[k + 1] else null
    {
    }

    /** `listisempty` */
    method IsEmpty() returns (empty: bool)
      requires Valid()
      ensures empty <==> items == []
    {
      Place(1);
      Place(|items| + 1);
      empty := first.next == last;
    }

    /** `append` */
    method Append(n: Link<T>)
      requires Valid() && n.list == null
      modifies this, repr, n
      ensures Valid() && items == old(items) + [n]
      ensures repr == old(repr) + {n} && forall x | x in repr :: x.node == old(x.node)
    {
      ghost var before := Chain();
      assert before[|items|].next == before[|items| + 1] == last && last.prev == before[|items|];
      n.next, n.prev := last, last.prev;
      last.prev := n;
      n.prev.next := n;
      n.list := this;
      items, repr := items + [n], repr + {n};
      assert Chain() == before[..|before| - 1] + [n, last];
    }
  }
}
