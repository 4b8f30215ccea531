// genromfs proper: a tree of nodes built while offsets are assigned, then
// walked again to emit the image.

module Genromfs {
  import opened RomfsFormat
  import opened RomfsImage
  import opened RomfsWriter
  import opened RomfsReader
  import opened SentinelList
  import opened Common

  const ALIGN := 16

  class FileNode {
    const link: Link<FileNode>           // next and prev
    var parent: FileNode?
    const dirlist: FileHdr<FileNode>     // the list of what is in it
    ghost var kids: seq<FileNode>        // the nodes on that list, from head to tail
    var owner: FileNode?                 // dirlist.owner
    var origLink: FileNode?
    var name: seq<Byte>
    var readable: seq<Byte>              // what reading `realname` will yield
    var isDir: bool                      // modes
    var isReg: bool
    var exec: bool
    var offset: nat
    var size: nat
    var pad: nat

    /** The list holds the links of the nodes in it. */
    ghost predicate Listed()
      reads this`kids, dirlist, dirlist.repr
    {
      && dirlist.Valid() && |dirlist.items| == |kids|
      && forall i :: 0 <= i < |kids| ==> dirlist.items[i] == kids[i].link && dirlist.items[i].node == Some(kids[i])
    }

    /** On no list, and with nothing in it. */
    ghost predicate Single()
      reads this`kids, link, dirlist, dirlist.repr
    {
      Listed() && kids == [] && link.list == null && link.node == Some(this)
    }

    /** `newnode` */
    constructor (name: seq<Byte>, curroffset: nat)
      ensures this.name == name && offset == curroffset && owner == this && Single()
      ensures fresh(link) && fresh(dirlist) && fresh(dirlist.repr)
      ensures parent == null && origLink == null && size == 0 && pad == 0 && readable == []
      ensures !isDir && !isReg && !exec
    {
      link := new Link();
      dirlist := new FileHdr();
      kids := [];
      this.name, offset, owner, parent, origLink := name, curroffset, this, null, null;
      size, pad, readable, isDir, isReg, exec := 0, 0, [], false, false, false;
      new;
      link.node := Some(this);
    }

    function NodeKind(): Kind
      reads this
    {
      if origLink != null then Link
      else if isDir then Directory
      else if isReg then Regular
      else Special
    }

    /** `append` on this node's list */
    method Append(n: FileNode)
      requires Listed() && n != this && n.link.list == null && n.link.node == Some(n)
      modifies this`kids, n`parent, dirlist, dirlist.repr, n.link
      ensures Listed() && kids == old(kids) + [n] && n.parent == owner
      ensures dirlist.repr == old(dirlist.repr) + {n.link}
    {
      dirlist.Append(n.link);
      kids := kids + [n];
      n.parent := owner;
    }
  }

  ghost function Headers(own: set<FileNode>): set<FileHdr<FileNode>> {
    set n | n in own :: n.dirlist
  }

  ghost predicate AllListed(own: set<FileNode>)
    reads own`kids, set n | n in own :: n.dirlist, set n, x | n in own && x in n.dirlist.repr :: x
  {
    forall n | n in own :: n.Listed()
  }

  lemma ListedNone()
    ensures AllListed({}) && Headers({}) == {}
  {
  }

  lemma ListedOne(n: FileNode)
    requires n.Listed()
    ensures AllListed({n}) && Headers({n}) == {n.dirlist}
  {
  }

  lemma ListedBoth(a: set<FileNode>, b: set<FileNode>)
    requires AllListed(a) && AllListed(b)
    ensures AllListed(a + b) && Headers(a + b) == Headers(a) + Headers(b)
  {
  }

  /** A link is on one list only. */
  lemma Apart(own: set<FileNode>, dir: FileNode)
    requires AllListed(own) && dir.Listed() && dir.dirlist !in Headers(own)
    ensures forall n, x | n in own && x in n.dirlist.repr :: x !in dir.dirlist.repr
    ensures forall n | n in own :: n.dirlist != dir.dirlist
  {
  }

  lemma SingleApart(n: FileNode, dir: FileNode)
    requires n.Single() && dir.Listed() && n.dirlist != dir.dirlist
    ensures n.Listed() && n.kids == [] && n.link.list == null && n.link.node == Some(n)
    ensures n.link !in n.dirlist.repr && forall x | x in n.dirlist.repr :: x !in dir.dirlist.repr
  {
  }

  function SpaceNeeded(node: FileNode): nat
    reads node
  {
    16 + Align16(|node.name| + 1) + Align16(node.size)
  }

  /** `findalign`: regular files follow the option, everything else 16; the option has no other value. */
  function FindAlign(node: FileNode): nat
    reads node
  {
    if node.isReg then ALIGN else 16
  }

  /** What brings `n` up to a multiple of the alignment. */
  function Gap(n: nat): nat {
    if n % ALIGN == 0 then 0 else ALIGN - n % ALIGN
  }

  /** `alignnode`: the node moves so that what follows `extraspace` behind it is aligned, and notes by how much. */
  method AlignNode(node: FileNode, curroffset0: nat, extraspace: nat) returns (curroffset: nat)
    modifies node`offset, node`pad
    ensures var gap := Gap(curroffset0 + extraspace);
            && curroffset == curroffset0 + gap && node.offset == old(node.offset) + gap
            && node.pad == (if gap > 0 then gap else old(node.pad))
            && (curroffset + extraspace) % ALIGN == 0
  {
    curroffset := curroffset0;
    var align := FindAlign(node);
    var d := (curroffset + extraspace) % align;
    if d != 0 {
      align := align - d;
      curroffset := curroffset + align;
      node.offset := node.offset + align;
      node.pad := align;
    }
  }

  // ----- What a tree of nodes stands for -----

  /** `n` carries the fields of `ns`; its link, if it has one, leads to a node at the right offset. */
  ghost predicate Carries(n: FileNode, ns: Nodes, links: set<FileNode>)
    reads n, links`offset
  {
    && ns.Node?
    && n.name == ns.name && n.NodeKind() == ns.kind && n.exec == ns.exec && n.offset == ns.offset
    && n.size == ns.size && n.readable == ns.readable && n.pad == 0
    && (n.origLink != null ==> n.isDir && n.origLink in links && n.origLink.offset == ns.target)
  }

  /** The list of nodes is laid out as `ns`: `own` are its nodes and those below, `links` what else it may link to. */
  ghost predicate Describes(list: seq<FileNode>, ns: Nodes, own: set<FileNode>, links: set<FileNode>)
    reads own, links`offset
    decreases ns
  {
    match ns
    case NoNodes => list == []
    case Node(_, _, _, _, _, _, _, kids, next) =>
      && list != [] && list[0] in own
      && Carries(list[0], ns, own + links)
      && Describes(list[0].kids, kids, own, links)
      && Describes(list[1..], next, own, links)
  }

  function Join(a: Nodes, b: Nodes): Nodes {
    if a.NoNodes? then b else a.(next := Join(a.next, b))
  }

  lemma {:induction false} DescribesMore(list: seq<FileNode>, ns: Nodes, own: set<FileNode>, links: set<FileNode>,
                                         own': set<FileNode>, links': set<FileNode>)
    requires Describes(list, ns, own, links) && own <= own' && own + links <= own' + links'
    ensures Describes(list, ns, own', links')
    decreases ns
  {
    if ns.Node? {
      DescribesMore(list[0].kids, ns.kids, own, links, own', links');
      DescribesMore(list[1..], ns.next, own, links, own', links');
    }
  }

  lemma {:induction false} DescribesJoin(a: seq<FileNode>, na: Nodes, b: seq<FileNode>, nb: Nodes, own: set<FileNode>,
                                         links: set<FileNode>)
    requires Describes(a, na, own, links) && Describes(b, nb, own, links)
    ensures Describes(a + b, Join(na, nb), own, links)
    decreases na
  {
    if na.NoNodes? {
      assert a + b == b;
    } else {
      DescribesJoin(a[1..], na.next, b, nb, own, links);
      assert (a + b)[1..] == a[1..] + b;
    }
  }

  lemma {:induction false} JoinAssociative(a: Nodes, b: Nodes, c: Nodes)
    ensures Join(Join(a, b), c) == Join(a, Join(b, c))
    decreases a
  {
    if a.Node? {
      JoinAssociative(a.next, b, c);
    }
  }

  /** One entry laid out by itself, then the rest. */
  lemma LayJoin(e: Entry, rest: Entries, off: nat, self: nat, parent: nat)
    ensures Lay(Cons(e, rest), off, self, parent)
            == Join(Lay(Cons(e, Nil), off, self, parent), Lay(rest, off + EntryExtent(e), self, parent))
  {
    hide Space, NameOf, SizeOf, ReadableOf, TargetOf, ExecOf;
    assert Lay(Nil, off + EntryExtent(e), self, parent) == NoNodes;
  }

  // ----- The first pass -----

  /** A directory being read: what "." and ".." in it are to link to. At the top level they are skipped. */
  ghost predicate Open(level: nat, dir: FileNode, self: nat, parent: nat, up: set<FileNode>)
    reads up`owner, up`offset, up`parent
  {
    && dir in up && dir.owner != null && dir.owner in up && dir.owner.offset == self
    && (level > 1 ==>
          dir.owner == dir && dir.parent != null && dir.parent in up && dir.parent.offset == parent)
  }

  /** The part of a listing that is kept: the two special entries of the root are made up front. */
  function Kept(level: nat, es: Entries): Entries {
    if level <= 1 then WithoutDots(es) else es
  }

  /** `setnode` */
  method SetNode(n: FileNode, e: Entry)
    modifies n`isDir, n`isReg, n`exec
    ensures n.isDir == (e.Dot? || e.DotDot? || e.Dir?) && n.isReg == e.File? && n.exec == ExecOf(e)
  {
    n.isDir, n.isReg, n.exec := e.Dot? || e.DotDot? || e.Dir?, e.File?, ExecOf(e);
  }

  predicate ValidEntry(e: Entry) {
    match e
    case Dot(_) => true
    case DotDot(_) => true
    case Dir(name, _, sub) => ValidName(name) && ValidEntries(sub)
    case _ => ValidName(e.name)
  }

  /** A node made of entry `e`: at `off`, and linked to the right offset if `e` is one of the two special entries. */
  ghost predicate MadeOf(n: FileNode, e: Entry, off: nat, self: nat, parent: nat, up: set<FileNode>)
    reads n`name, n`offset, n`exec, n`pad, n`isDir, n`isReg, n`size, n`readable, n`origLink, up`offset
  {
    && n.name == NameOf(e) && n.offset == off && n.exec == ExecOf(e) && n.pad == 0
    && n.isDir == (e.Dot? || e.DotDot? || e.Dir?) && n.isReg == e.File?
    && n.size == SizeOf(e) && n.readable == ReadableOf(e)
    && if e.Dot? || e.DotDot?
       then n.origLink != null && n.origLink in up && n.origLink.offset == TargetOf(e, self, parent)
       else n.origLink == null
  }

  lemma MadeFacts(n: FileNode, e: Entry, off: nat, self: nat, parent: nat, up: set<FileNode>)
    requires !e.Gone? && MadeOf(n, e, off, self, parent, up)
    ensures n.offset == off && (n.origLink == null && n.isDir <==> e.Dir?)
  {
  }

  lemma CarriesEntry(n: FileNode, e: Entry, off: nat, self: nat, parent: nat, up: set<FileNode>)
    requires !e.Gone? && MadeOf(n, e, off, self, parent, up)
    ensures Carries(n, Lay(Cons(e, Nil), off, self, parent), up)
  {
    hide Extent, Space;
  }

  lemma KeptBelow(level: nat, es: Entries)
    requires level > 1
    ensures Kept(level, es) == es
  {
  }

  lemma EntryNode(e: Entry, off: nat, self: nat, parent: nat)
    requires ValidEntry(e)
    ensures var ns := Lay(Cons(e, Nil), off, self, parent);
            if e.Gone? then ns == NoNodes && EntryExtent(e) == 0
            else && ns.Node? && ns.next == NoNodes
                 && ns.kids == (if e.Dir? then Lay(e.entries, off + Space(e.name, 0), off, self) else NoNodes)
                 && EntryExtent(e)
                    == Space(NameOf(e), SizeOf(e)) + if e.Dir? then Extent(e.entries) else 0
    ensures NameOf(e) == DOT <==> e.Dot?
    ensures NameOf(e) == DOTDOT <==> e.DotDot?
    ensures e.File? ==> SizeOf(e) == e.size && ReadableOf(e) == e.readable
    ensures !e.File? ==> SizeOf(e) == 0 && ReadableOf(e) == []
    ensures e.Dir? ==> NameOf(e) == e.name && ValidEntries(e.entries)
    ensures e.Dot? ==> TargetOf(e, self, parent) == self
    ensures e.DotDot? ==> TargetOf(e, self, parent) == parent
  {
    hide Space;
    assert Lay(Nil, off + EntryExtent(e), self, parent) == NoNodes;
  }

  lemma DescribesOne(n: FileNode, ns: Nodes, below: set<FileNode>, up: set<FileNode>)
    requires ns.Node? && ns.next == NoNodes && Carries(n, ns, up)
    requires Describes(n.kids, ns.kids, below, up + {n})
    ensures Describes([n], ns, {n} + below, up)
  {
    DescribesMore(n.kids, ns.kids, below, up + {n}, {n} + below, up);
    assert Describes([n][1..], ns.next, {n} + below, up);
  }

  lemma DescribesNothing(own: set<FileNode>, links: set<FileNode>)
    ensures Describes([], NoNodes, own, links)
  {
  }

  /** The offset of a node that is no link, and with it the size of a regular file. */
  method PlaceNode(n: FileNode, e: Entry, curroffset0: nat) returns (curroffset: nat)
    requires curroffset0 % 16 == 0 && n.size == 0 && n.readable == [] && n.isReg == e.File?
    modifies n`size, n`readable, n`offset, n`pad
    ensures n.size == SizeOf(e) && n.readable == ReadableOf(e)
    ensures n.offset == old(n.offset) && n.pad == old(n.pad)
    ensures curroffset == curroffset0 + Space(n.name, n.size)
  {
    curroffset := curroffset0;
    if n.isReg {
      assert SpaceNeeded(n) == Space(n.name, 0);
      curroffset := AlignNode(n, curroffset, SpaceNeeded(n));
      n.size, n.readable := e.size, e.readable;
    }
    curroffset := curroffset + SpaceNeeded(n);
  }

  method PlaceLink(n: FileNode, link: FileNode, curroffset0: nat) returns (curroffset: nat)
    requires curroffset0 % 16 == 0
    modifies n`origLink, n`offset, n`pad
    ensures n.origLink == link && n.offset == old(n.offset) && n.pad == old(n.pad)
    ensures curroffset == curroffset0 + Space(n.name, n.size)
  {
    n.origLink := link;
    curroffset := AlignNode(n, curroffset0, 0);
    curroffset := curroffset + SpaceNeeded(n);
  }

  /** A node for an entry that could be looked at, in its directory and with its own room set aside. */
  method PlaceEntry(level: nat, dir: FileNode, n: FileNode, e: Entry, curroffset0: nat,
                    ghost self: nat, ghost parent: nat, ghost up: set<FileNode>) returns (curroffset: nat)
    requires curroffset0 % 16 == 0 && Open(level, dir, self, parent, up) && n !in up
    requires ValidEntry(e) && !e.Gone? && (level <= 1 ==> !e.Dot? && !e.DotDot?)
    requires n.name == NameOf(e) && n.offset == curroffset0 && n.pad == 0 && n.size == 0 && n.readable == []
    requires n.origLink == null && n.Single() && dir.Listed() && n.dirlist != dir.dirlist
    modifies dir`kids, dir.dirlist, dir.dirlist.repr, n, n.link
    ensures dir.kids == old(dir.kids) + [n] && n.parent == dir.owner && n.owner == old(n.owner)
    ensures dir.Listed() && n.Listed() && n.kids == []
    ensures dir.dirlist.repr == old(dir.dirlist.repr) + {n.link}
    ensures MadeOf(n, e, curroffset0, self, parent, up)
    ensures curroffset == curroffset0 + Space(NameOf(e), SizeOf(e))
  {
    hide Space, EntryExtent, ValidEntry, NameOf, SizeOf, ReadableOf, TargetOf, ExecOf, FileNode.Listed, FileNode.Single;
    EntryNode(e, curroffset0, self, parent);
    SingleApart(n, dir);
    SetNode(n, e);
    dir.Append(n);
    var link: FileNode? := null;
    if n.name == DOT {
      link := n.parent;
    } else if n.name == DOTDOT {
      link := n.parent.parent;
    }
    if link != null {
      curroffset := PlaceLink(n, link, curroffset0);
    } else {
      curroffset := PlaceNode(n, e, curroffset0);
    }
  }

  lemma OpenBelow(level: nat, dir: FileNode, n: FileNode, self: nat, parent: nat, up: set<FileNode>)
    requires level >= 1 && Open(level, dir, self, parent, up) && n.owner == n && n.parent == dir.owner
    ensures Open(level + 1, n, n.offset, self, up + {n})
  {
  }

  /** The body of the directory loop: a node for the entry, its offset, and everything below it. */
  method AddEntry(level: nat, dir: FileNode, e: Entry, curroffset0: nat,
                  ghost self: nat, ghost parent: nat, ghost up: set<FileNode>)
    returns (curroffset: nat, ghost added: seq<FileNode>, ghost own: set<FileNode>)
    requires level >= 1 && curroffset0 % 16 == 0 && Open(level, dir, self, parent, up)
    requires ValidEntry(e) && (level <= 1 ==> !e.Dot? && !e.DotDot?)
    requires dir.Listed()
    modifies dir`kids, dir.dirlist, dir.dirlist.repr
    ensures fresh(own) && fresh(Headers(own)) && dir.kids == old(dir.kids) + added
    ensures dir.Listed() && AllListed(own)
    ensures fresh(dir.dirlist.repr - old(dir.dirlist.repr))
    ensures curroffset == curroffset0 + EntryExtent(e)
    ensures Describes(added, Lay(Cons(e, Nil), curroffset0, self, parent), own, up)
    decreases e, 0
  {
    hide *;
    var n := new FileNode(NameOf(e), curroffset0);
    ghost var ns := Lay(Cons(e, Nil), curroffset0, self, parent);
    EntryNode(e, curroffset0, self, parent);
    DescribesNothing({}, up + {n});
    ListedNone();
    if e.Gone? {
      DescribesNothing({}, up);
      return curroffset0, [], {};
    }
    curroffset := PlaceEntry(level, dir, n, e, curroffset0, self, parent, up);
    ghost var below := {};
    MadeFacts(n, e, curroffset0, self, parent, up);
    if n.origLink == null && n.isDir {
      ghost var kids;
      KeptBelow(level + 1, e.entries);
      OpenBelow(level, dir, n, self, parent, up);
      ListedOne(dir);
      Apart({dir}, n);
      curroffset, kids, below := ReadDir(level + 1, n, e.entries, curroffset, n.offset, self, up + {n});
      assert kids == n.kids;
    }
    CarriesEntry(n, e, curroffset0, self, parent, up);
    DescribesOne(n, ns, below, up);
    ListedOne(n);
    ListedBoth({n}, below);
    added, own := [n], {n} + below;
  }

  lemma NextEntry(level: nat, es: Entries)
    requires es.Cons? && ValidEntries(es)
    ensures ValidEntry(es.e) && ValidEntries(es.rest)
    ensures NameOf(es.e) == DOT || NameOf(es.e) == DOTDOT <==> es.e.Dot? || es.e.DotDot?
    ensures level <= 1 && (es.e.Dot? || es.e.DotDot?) ==> Kept(level, es) == Kept(level, es.rest)
    ensures EntryExtent(es.e) % 16 == 0
  {
  }

  /** The listing read so far, one entry longer. */
  lemma OneMore(level: nat, es: Entries, kids: seq<FileNode>, done: Nodes, own: set<FileNode>,
                added: seq<FileNode>, below: set<FileNode>, at: nat, self: nat, parent: nat, up: set<FileNode>)
    requires es.Cons? && (level <= 1 ==> !es.e.Dot? && !es.e.DotDot?)
    requires Describes(kids, done, own, up) && Describes(added, Lay(Cons(es.e, Nil), at, self, parent), below, up)
    ensures var ns := Lay(Cons(es.e, Nil), at, self, parent);
            && Describes(kids + added, Join(done, ns), own + below, up)
            && Join(Join(done, ns), Lay(Kept(level, es.rest), at + EntryExtent(es.e), self, parent))
               == Join(done, Lay(Kept(level, es), at, self, parent))
    ensures Extent(Kept(level, es)) == EntryExtent(es.e) + Extent(Kept(level, es.rest))
  {
    var ns := Lay(Cons(es.e, Nil), at, self, parent);
    assert Kept(level, es) == Cons(es.e, Kept(level, es.rest));
    ExtentStep(Kept(level, es));
    hide *;
    LayJoin(es.e, Kept(level, es.rest), at, self, parent);
    JoinAssociative(done, ns, Lay(Kept(level, es.rest), at + EntryExtent(es.e), self, parent));
    DescribesMore(kids, done, own, up, own + below, up);
    DescribesMore(added, ns, below, up, own + below, up);
    DescribesJoin(kids, done, added, ns, own + below, up);
  }

  /** The directory loop of `processdir`. */
  method ReadDir(level: nat, dir: FileNode, es0: Entries, curroffset0: nat,
                 ghost self: nat, ghost parent: nat, ghost up: set<FileNode>)
    returns (curroffset: nat, ghost kids: seq<FileNode>, ghost own: set<FileNode>)
    requires level >= 1 && curroffset0 % 16 == 0 && Open(level, dir, self, parent, up) && ValidEntries(es0)
    requires dir.Listed()
    modifies dir`kids, dir.dirlist, dir.dirlist.repr
    ensures fresh(own) && fresh(Headers(own)) && dir.kids == old(dir.kids) + kids
    ensures dir.Listed() && AllListed(own)
    ensures fresh(dir.dirlist.repr - old(dir.dirlist.repr))
    ensures curroffset == curroffset0 + Extent(Kept(level, es0))
    ensures Describes(kids, Lay(Kept(level, es0), curroffset0, self, parent), own, up)
    decreases es0, 1
  {
    hide *;
    curroffset, kids, own := curroffset0, [], {};
    DescribesNothing(own, up);
    ListedNone();
    NothingRead(Lay(Kept(level, es0), curroffset0, self, parent));
    var es := es0;
    ghost var done := NoNodes;
    while es.Cons?
      invariant curroffset % 16 == 0 && ValidEntries(es) && (es == es0 || es < es0)
      invariant fresh(own) && fresh(Headers(own)) && dir.kids == old(dir.kids) + kids
      invariant dir.Listed() && AllListed(own)
      invariant fresh(dir.dirlist.repr - old(dir.dirlist.repr))
      invariant Open(level, dir, self, parent, up)
      invariant curroffset + Extent(Kept(level, es)) == curroffset0 + Extent(Kept(level, es0))
      invariant Describes(kids, done, own, up)
      invariant Join(done, Lay(Kept(level, es), curroffset, self, parent))
             == Lay(Kept(level, es0), curroffset0, self, parent)
      decreases es
    {
      var e := es.e;
      NextEntry(level, es);
      if level <= 1 && (NameOf(e) == DOT || NameOf(e) == DOTDOT) {
        es := es.rest;
        continue;
      }
      ghost var added, below, at := [], {}, curroffset;
      Apart(own, dir);
      curroffset, added, below := AddEntry(level, dir, e, curroffset, self, parent, up);
      OneMore(level, es, kids, done, own, added, below, at, self, parent, up);
      ListedBoth(own, below);
      done := Join(done, Lay(Cons(e, Nil), at, self, parent));
      es, kids, own := es.rest, kids + added, own + below;
    }
    NothingLeft(level, es, curroffset, self, parent, done);
  }

  lemma NothingRead(ns: Nodes)
    ensures Join(NoNodes, ns) == ns
  {
  }

  lemma NothingLeft(level: nat, es: Entries, at: nat, self: nat, parent: nat, done: Nodes)
    requires es.Nil?
    ensures Extent(Kept(level, es)) == 0 && Join(done, Lay(Kept(level, es), at, self, parent)) == done
  {
    JoinNothing(done);
  }

  lemma {:induction false} JoinNothing(a: Nodes)
    ensures Join(a, NoNodes) == a
    decreases a
  {
    if a.Node? {
      JoinNothing(a.next);
    }
  }

  lemma RootParts(exec: bool, upExec: bool, es: Entries, first: nat)
    ensures var dot, up := Dir(DOT, exec, Nil), DotDot(upExec);
            var off1 := first + EntryExtent(dot);
            var off2 := off1 + EntryExtent(up);
            && Lay(RootListing(exec, upExec, es), first, first, first)
               == Join(Lay(Cons(dot, Nil), first, first, first),
                       Join(Lay(Cons(up, Nil), off1, first, first), Lay(Kept(1, es), off2, first, first)))
            && Extent(RootListing(exec, upExec, es)) == EntryExtent(dot) + (EntryExtent(up) + Extent(Kept(1, es)))
            && EntryExtent(dot) == Space(DOT, 0) && EntryExtent(up) == Space(DOTDOT, 0)
  {
    var dot, up := Dir(DOT, exec, Nil), DotDot(upExec);
    assert Extent(Nil) == 0;
    hide Space, Lay, Join;
    LayJoin(dot, Cons(up, WithoutDots(es)), first, first, first);
    LayJoin(up, WithoutDots(es), first + EntryExtent(dot), first, first);
  }

  /** The three parts of the root list, put together. */
  lemma RootDescribed(link: FileNode, n: FileNode, kids: seq<FileNode>, below: set<FileNode>, root: FileNode,
                      dot: Nodes, up: Nodes, rest: Nodes)
    requires dot.Node? && dot.next == NoNodes && dot.kids == NoNodes && link.kids == []
    requires up.Node? && up.next == NoNodes && up.kids == NoNodes && n.kids == []
    requires Carries(link, dot, {root, link}) && Carries(n, up, {root, link})
    requires Describes(kids, rest, below, {root, link})
    ensures Describes([link, n] + kids, Join(dot, Join(up, rest)), {link, n} + below, {root})
  {
    hide Carries;
    var own := {link, n} + below;
    DescribesNothing({}, {root, link} + {link});
    DescribesNothing({}, {root, link} + {n});
    DescribesOne(link, dot, {}, {root, link});
    DescribesOne(n, up, {}, {root, link});
    DescribesMore([link], dot, {link} + {}, {root, link}, own, {root});
    DescribesMore([n], up, {n} + {}, {root, link}, own, {root});
    DescribesMore(kids, rest, below, {root, link}, own, {root});
    hide Describes, Join;
    DescribesJoin([n], up, kids, rest, own, {root});
    DescribesJoin([link], dot, [n] + kids, Join(up, rest), own, {root});
    assert [link] + ([n] + kids) == [link, n] + kids;
  }

  /** "." of the root, which stands for the root from then on. */
  method MakeDot(root: FileNode, exec: bool, curroffset0: nat) returns (curroffset: nat, link: FileNode)
    requires curroffset0 % 16 == 0 && root.Listed() && root.kids == []
    modifies root`kids, root`owner, root.dirlist, root.dirlist.repr
    ensures fresh(link) && fresh(link.dirlist) && fresh(root.dirlist.repr - old(root.dirlist.repr))
    ensures root.kids == [link] && root.owner == link && root.Listed()
    ensures link.kids == [] && link.Listed()
    ensures MadeOf(link, Dir(DOT, exec, Nil), curroffset0, curroffset0, curroffset0, {root, link})
    ensures curroffset == curroffset0 + Space(DOT, 0)
  {
    hide Space, EntryExtent, Align16, FileNode.Listed, FileNode.Single;
    link := new FileNode(DOT, curroffset0);
    link.isDir, link.exec := true, exec;
    SingleApart(link, root);
    root.Append(link);
    root.owner := link;
    curroffset := PlaceNode(link, Dir(DOT, exec, Nil), curroffset0);
  }

  /** ".." of the root, a link to its ".". */
  method MakeDotDot(root: FileNode, link: FileNode, upExec: bool, curroffset0: nat) returns (curroffset: nat, n: FileNode)
    requires curroffset0 % 16 == 0 && root.Listed() && root.kids == [link] && link.Listed() && link.dirlist != root.dirlist
    modifies root`kids, root.dirlist, root.dirlist.repr
    ensures fresh(n) && fresh(n.dirlist) && fresh(root.dirlist.repr - old(root.dirlist.repr))
    ensures root.kids == [link, n] && root.Listed() && link.Listed()
    ensures n.kids == [] && n.Listed()
    ensures MadeOf(n, DotDot(upExec), curroffset0, link.offset, link.offset, {root, link})
    ensures curroffset == curroffset0 + Space(DOTDOT, 0)
  {
    hide Space, EntryExtent, Align16, FileNode.Listed, FileNode.Single, AllListed, Headers;
    n := new FileNode(DOTDOT, curroffset0);
    SetNode(n, DotDot(upExec));
    SingleApart(n, root);
    ListedOne(link);
    Apart({link}, root);
    root.Append(n);
    curroffset := PlaceLink(n, link, curroffset0);
  }

  /** "." and ".." of the root come first. */
  method StartRoot(root: FileNode, exec: bool, upExec: bool, curroffset0: nat)
    returns (curroffset: nat, link: FileNode, n: FileNode)
    requires curroffset0 % 16 == 0 && root.Listed() && root.kids == []
    modifies root`kids, root`owner, root.dirlist, root.dirlist.repr
    ensures fresh({link, n}) && fresh(Headers({link, n})) && link != n && root.kids == [link, n] && root.owner == link
    ensures link.kids == [] && n.kids == [] && root.Listed() && AllListed({link, n})
    ensures fresh(root.dirlist.repr - old(root.dirlist.repr))
    ensures Carries(link, Lay(Cons(Dir(DOT, exec, Nil), Nil), curroffset0, curroffset0, curroffset0), {root, link})
    ensures Carries(n, Lay(Cons(DotDot(upExec), Nil), curroffset0 + Space(DOT, 0), curroffset0, curroffset0), {root, link})
    ensures Open(1, root, curroffset0, curroffset0, {root, link})
    ensures curroffset == curroffset0 + Space(DOT, 0) + Space(DOTDOT, 0)
  {
    hide Space, EntryExtent, Align16, FileNode.Listed, FileNode.Single, MadeOf, Carries, Lay;
    curroffset, link := MakeDot(root, exec, curroffset0);
    MadeFacts(link, Dir(DOT, exec, Nil), curroffset0, curroffset0, curroffset0, {root, link});
    ghost var second := curroffset;
    curroffset, n := MakeDotDot(root, link, upExec, curroffset);
    CarriesEntry(link, Dir(DOT, exec, Nil), curroffset0, curroffset0, curroffset0, {root, link});
    CarriesEntry(n, DotDot(upExec), second, curroffset0, curroffset0, {root, link});
  }

  /** `processdir` at the top. */
  method ProcessDir(root: FileNode, exec: bool, upExec: bool, es: Entries, curroffset0: nat)
    returns (curroffset: nat, ghost own: set<FileNode>)
    requires curroffset0 % 16 == 0 && ValidEntries(es) && root.Listed() && root.kids == []
    modifies root`kids, root`owner, root.dirlist, root.dirlist.repr
    ensures fresh(own) && root.Listed() && AllListed(own)
    ensures curroffset == curroffset0 + Extent(RootListing(exec, upExec, es))
    ensures Describes(root.kids, Lay(RootListing(exec, upExec, es), curroffset0, curroffset0, curroffset0), own, {root})
  {
    hide *;
    ghost var first, dot, up := curroffset0, Dir(DOT, exec, Nil), DotDot(upExec);
    RootParts(exec, upExec, es, first);
    var link, n;
    curroffset, link, n := StartRoot(root, exec, upExec, curroffset0);
    ghost var second := first + Space(DOT, 0);
    SingleParts(dot, first, first, first);
    SingleParts(up, second, first, first);
    ghost var kids, below;
    Apart({link, n}, root);
    curroffset, kids, below := ReadDir(1, root, es, curroffset, first, first, {root, link});
    RootDescribed(link, n, kids, below, root, Lay(Cons(dot, Nil), first, first, first),
                  Lay(Cons(up, Nil), second, first, first),
                  Lay(Kept(1, es), second + EntryExtent(up), first, first));
    ListedBoth({link, n}, below);
    own := {link, n} + below;
    assert root.kids == [link, n] + kids;
  }

  lemma SingleParts(e: Entry, off: nat, self: nat, parent: nat)
    requires !e.Gone? && (e.Dir? ==> e.entries == Nil)
    ensures var ns := Lay(Cons(e, Nil), off, self, parent); ns.Node? && ns.kids == NoNodes && ns.next == NoNodes
  {
    hide Space, Extent;
  }

  // ----- The second pass -----

  /** Names fit the header buffer, and no node is mistaken for the volume, which alone sits at 0. */
  predicate Emittable(ns: Nodes) {
    ns.Node? ==>
      && ns.offset > 0 && 16 + Align16(|ns.name| + 1) <= 4096
      && Emittable(ns.kids) && Emittable(ns.next)
  }

  /** Every header goes to the offset its node was given, if the first of them goes to `at`. */
  predicate InPlace(ns: Nodes, at: nat)
    requires Fits(ns)
  {
    ns.Node? ==>
      && (ns.kind != Special ==> ns.offset == at)
      && InPlace(ns.kids, at + |NodeBytes(ns)|)
      && InPlace(ns.next, at + |NodeBytes(ns)| + |Bytes(ns.kids)|)
  }

  lemma InPlaceStep(ns: Nodes, at: nat)
    requires Fits(ns)
    ensures ns.NoNodes? ==> InPlace(ns, at)
    ensures ns.Node? ==>
              && Fits(ns.kids) && Fits(ns.next)
              && (InPlace(ns, at) <==>
                    && (ns.kind != Special ==> ns.offset == at)
                    && InPlace(ns.kids, at + |NodeBytes(ns)|)
                    && InPlace(ns.next, at + |NodeBytes(ns)| + |Bytes(ns.kids)|))
  {
    hide NodeBytes, Bytes, Space;
  }

  lemma NodeOfKids(ns: Nodes, e: Entry, off: nat, self: nat, parent: nat)
    requires IsNodeOf(ns, e, off, self, parent)
    ensures ns.offset == off && (!e.Dir? ==> ns.kids == NoNodes)
  {
    hide Lay;
  }

  /** Some entry gets a header. */
  predicate Emitting(es: Entries) {
    es.Cons? && ((!es.e.Other? && !es.e.Gone?) || Emitting(es.rest))
  }

  /** No entry that gets a header comes, in the order of the second pass, behind one of another kind. */
  predicate OthersLast(es: Entries) {
    match es
    case Nil => true
    case Cons(e, rest) =>
      if e.Gone? then OthersLast(rest)
      else if e.Other? || (e.Dir? && !NoOther(e.entries)) then (e.Dir? ==> OthersLast(e.entries)) && !Emitting(rest)
      else OthersLast(rest)
  }

  lemma OthersLastStep(es: Entries)
    requires es.Cons?
    ensures Emitting(es) <==> (!es.e.Other? && !es.e.Gone?) || Emitting(es.rest)
    ensures es.e.Gone? ==> (OthersLast(es) <==> OthersLast(es.rest))
    ensures es.e.Other? || (es.e.Dir? && !NoOther(es.e.entries)) ==>
              (OthersLast(es) <==> (es.e.Dir? ==> OthersLast(es.e.entries)) && !Emitting(es.rest))
    ensures !es.e.Gone? && !es.e.Other? && (es.e.Dir? ==> NoOther(es.e.entries)) ==>
              (OthersLast(es) <==> OthersLast(es.rest))
  {
  }

  lemma {:induction false} NoOtherLast(es: Entries)
    requires NoOther(es)
    ensures OthersLast(es)
  {
    if es.Cons? {
      NoOtherLast(es.rest);
    }
  }

  lemma NothingEmitting(es: Entries)
    requires es.Nil?
    ensures !Emitting(es) && OthersLast(es)
  {
  }

  lemma SpecialNode(ns: Nodes, e: Entry, off: nat, self: nat, parent: nat)
    requires IsNodeOf(ns, e, off, self, parent) && !e.Gone?
    ensures ns.Node? && (ns.kind == Special <==> e.Other?)
  {
    hide Lay;
  }

  /** A listing that is emitted before its place has every header astray. */
  lemma {:induction false} EmittedEarly(es: Entries, off: nat, self: nat, parent: nat, at: nat)
    requires Fits(Lay(es, off, self, parent)) && at < off
    ensures InPlace(Lay(es, off, self, parent), at) <==> !Emitting(es)
  {
    var ns := Lay(es, off, self, parent);
    hide *;
    if es.Nil? {
      NothingToEmit(es, off, self, parent);
      NothingEmitting(es);
      InPlaceStep(ns, at);
    } else {
      OthersLastStep(es);
      if es.e.Gone? {
        GoneSkipped(es, off, self, parent);
        EmittedEarly(es.rest, off, self, parent, at);
      } else {
        LayStep(es, off, self, parent);
        SpecialNode(ns, es.e, off, self, parent);
        NodeOfKids(ns, es.e, off, self, parent);
        BytesStep(ns, es.e, off, self, parent);
        InPlaceStep(ns, at);
        if es.e.Other? {
          InPlaceStep(ns.kids, at);
          EmittedEarly(es.rest, off + EntryExtent(es.e), self, parent, at);
        }
      }
    }
  }

  /** Every header goes where it should exactly if none of them comes behind an entry of another kind. */
  lemma {:induction false} LayInPlaceIff(es: Entries, off: nat, self: nat, parent: nat)
    requires Fits(Lay(es, off, self, parent))
    ensures InPlace(Lay(es, off, self, parent), off) <==> OthersLast(es)
    decreases es, 1
  {
    var ns := Lay(es, off, self, parent);
    hide *;
    if es.Nil? {
      NothingToEmit(es, off, self, parent);
      NothingEmitting(es);
      InPlaceStep(ns, off);
    } else {
      ExtentStep(es);
      OthersLastStep(es);
      if es.e.Gone? {
        GoneSkipped(es, off, self, parent);
        LayInPlaceIff(es.rest, off, self, parent);
      } else {
        LayStep(es, off, self, parent);
        LayInPlaceNode(es, ns, off, self, parent);
      }
    }
  }

  /** One node of a listing: what follows is in its place exactly if nothing so far was of another kind. */
  lemma {:induction false} LayInPlaceNode(es: Entries, ns: Nodes, off: nat, self: nat, parent: nat)
    requires es.Cons? && !es.e.Gone? && IsNodeOf(ns, es.e, off, self, parent) && Fits(ns)
    requires ns.next == Lay(es.rest, off + EntryExtent(es.e), self, parent)
    ensures InPlace(ns, off) <==> OthersLast(es)
    decreases es, 0
  {
    hide *;
    var e, behind := es.e, off + EntryExtent(es.e);
    ExtentStep(es);
    OthersLastStep(es);
    SpecialNode(ns, e, off, self, parent);
    NodeOfKids(ns, e, off, self, parent);
    BytesStep(ns, e, off, self, parent);
    InPlaceStep(ns, off);
    InPlaceStep(ns.kids, off + |NodeBytes(ns)|);
    if e.Dir? {
      KidsOf(ns, e, off, self, parent);
      LayInPlaceIff(e.entries, off + Space(e.name, 0), off, self);
      PassesAgreeIff(e.entries, off + Space(e.name, 0), off, self);
      if NoOther(e.entries) {
        NoOtherLast(e.entries);
      }
    }
    SpacePositive(e);
    if e.Other? || (e.Dir? && !NoOther(e.entries)) {
      EmittedEarly(es.rest, behind, self, parent, off + |NodeBytes(ns)| + |Bytes(ns.kids)|);
    } else {
      LayInPlaceIff(es.rest, behind, self, parent);
    }
  }

  /** A fifo before an empty file: 64 bytes are set aside and 32 emitted, and the header of the file goes astray. */
  lemma FifoBeforeFile()
    ensures var es := Cons(Other([0x70]), Cons(File([0x66], false, 0, []), Nil));
            var ns := Lay(es, 32, 32, 32);
            Fits(ns) && Extent(es) == 64 && |Bytes(ns)| == 32 && ns.next.offset == 64 && !InPlace(ns, 32)
  {
    var file := Cons(File([0x66], false, 0, []), Nil);
    var es := Cons(Other([0x70]), file);
    assert Space([0x70], 0) == 32 && Space([0x66], 0) == 32;
    assert Lay(Nil, 96, 32, 32) == NoNodes;
    var ns := Lay(es, 32, 32, 32);
    assert ns.next == Lay(file, 64, 32, 32) && Fits(ns.next) && Fits(ns);
    assert Extent(file) == 32;
    hide Space;
    LayInPlaceIff(es, 32, 32, 32);
    PassesAgreeIff(file, 64, 32, 32);
    FifoBytes(es, ns);
  }

  lemma FifoBytes(es: Entries, ns: Nodes)
    requires es.Cons? && es.e.Other? && ns == Lay(es, 32, 32, 32) && Fits(ns)
    ensures Bytes(ns) == Bytes(ns.next)
  {
  }

  lemma {:induction false} LayEmittable(es: Entries, off: nat, self: nat, parent: nat)
    requires ValidEntries(es) && off > 0
    ensures Emittable(Lay(es, off, self, parent))
  {
    if es.Cons? {
      hide Space;
      assert Align16(2) == 16 && Align16(3) == 16;
      LayEmittable(es.rest, off + EntryExtent(es.e), self, parent);
      if es.e.Dir? {
        LayEmittable(es.e.entries, off + Space(es.e.name, 0), off, self);
      }
    }
  }

  /** `node` is at place `k` in `dir`, and what is behind it starts with the first of `ns`. */
  ghost predicate Before(node: FileNode, dir: FileNode, k: nat, ns: Nodes)
    reads dir`kids, dir.dirlist, dir.dirlist.repr, dir.kids`offset
  {
    && dir.Listed() && k < |dir.kids| && dir.kids[k] == node
    && (ns.Node? <==> k + 1 < |dir.kids|)
    && (ns.Node? ==> dir.kids[k + 1].offset == ns.offset)
  }

  /** The two words of a header that depend on the node's neighbours and kind. */
  method HeaderWords(node: FileNode, ghost dir: FileNode, ghost k: nat, ghost ns: Nodes, ghost own: set<FileNode>,
                     ghost links: set<FileNode>)
    returns (nextfh: nat, spec: nat)
    requires Carries(node, ns, own + links) && Describes(node.kids, ns.kids, own, links) && node.Listed()
    requires Before(node, dir, k, ns.next)
    ensures ns.kind != Special ==> nextfh == NextField(FirstOffset(ns.next, 0), ns.kind, ns.exec) && spec == SpecField(ns)
  {
    hide Or, AndNot;
    nextfh, spec := 0, 0;
    var sibling := node.link.Sibling(dir.dirlist, k);
    if sibling != null {
      nextfh := sibling.node.value.offset;
    }
    if node.exec && (node.isDir || node.isReg) {
      nextfh := Or(nextfh, ROMFH_EXEC);
    }
    if node.origLink != null {
      nextfh := Or(nextfh, ROMFH_HRD);
      nextfh := AndNot(nextfh, ROMFH_EXEC);
      spec := node.origLink.offset;
    } else if node.isDir {
      nextfh := Or(nextfh, ROMFH_DIR);
      spec := FirstInside(node);
    } else if node.isReg {
      nextfh := Or(nextfh, ROMFH_REG);
    }
  }

  /** Where a directory's contents start: at its first node, or at the directory itself if it is empty. */
  method FirstInside(node: FileNode) returns (spec: nat)
    requires node.Listed()
    ensures spec == if node.kids == [] then node.offset else node.kids[0].offset
  {
    var empty := node.dirlist.IsEmpty();
    if empty {
      spec := node.offset;
    } else {
      node.dirlist.Place(1);
      spec := node.dirlist.first.next.node.value.offset;
    }
  }

  lemma WordsFit(ns: Nodes)
    requires Fits(ns) && ns.Node?
    ensures NextField(FirstOffset(ns.next, 0), ns.kind, ns.exec) < 0x1_0000_0000
    ensures SpecField(ns) < 0x1_0000_0000 && ns.size < 0x1_0000_0000
  {
    NextFieldFits(ns);
    assert Fits(ns.kids);
  }

  lemma EmitFacts(ns: Nodes)
    requires Emittable(ns) && ns.Node?
    ensures ns.offset > 0 && 16 + Align16(|ns.name| + 1) <= 4096
  {
  }

  /** `dumpnode`, first half: the node itself. */
  method DumpSelf(o: Output, node: FileNode, ghost dir: FileNode, ghost k: nat, ghost ns: Nodes,
                  ghost own: set<FileNode>, ghost links: set<FileNode>)
    requires o.Valid() && Fits(ns) && Emittable(ns)
    requires Carries(node, ns, own + links) && Describes(node.kids, ns.kids, own, links) && node.Listed()
    requires Before(node, dir, k, ns.next)
    modifies o, o.fixbuf, o.bigbuf
    ensures o.Valid() && o.stream == old(o.stream) + NodeBytes(ns)
    ensures o.astray == (old(o.astray) || (ns.kind != Special && old(|o.stream|) != ns.offset))
  {
    hide Describes, Staged, Header, NextField, SpecField, o.Valid, FileNode.Listed, Before, Align16, Fits, Emittable,
      FirstOffset, IsContents;
    EmitFacts(ns);
    o.DumpPad(node.pad);
    assert Zeros(0) == [];
    var nextfh, spec := HeaderWords(node, dir, k, ns, own, links);
    WordsFit(ns);
    if node.origLink != null || node.isDir {
      o.DumpRi(nextfh, spec, node.size, node.name, node.offset);
    } else if node.isReg {
      o.DumpRi(nextfh, spec, node.size, node.name, node.offset);
      o.DumpFile(node.size, node.readable);
    }
  }

  /** A list in a directory is one node and the list behind it. */
  lemma DescribesStep(list: seq<FileNode>, ns: Nodes, own: set<FileNode>, links: set<FileNode>)
    requires Describes(list, ns, own, links)
    ensures list == [] <==> ns.NoNodes?
    ensures ns.Node? ==>
              && Carries(list[0], ns, own + links)
              && list[0] in own
              && Describes(list[0].kids, ns.kids, own, links) && Describes(list[1..], ns.next, own, links)
  {
    hide Carries;
  }

  lemma NextNode(list: seq<FileNode>, ns: Nodes, own: set<FileNode>, links: set<FileNode>)
    requires Describes(list, ns, own, links) && ns.Node?
    ensures list[0].offset == ns.offset
  {
  }

  lemma EmitStep(ns: Nodes)
    requires Fits(ns) && Emittable(ns) && ns.Node?
    ensures Fits(ns.kids) && Fits(ns.next) && Emittable(ns.kids) && Emittable(ns.next)
    ensures Bytes(ns) == NodeBytes(ns) + Bytes(ns.kids) + Bytes(ns.next)
  {
    hide NodeBytes;
  }

  /** A link of the list leads to its node and on to the next link. */
  lemma LinkAt(dir: FileNode, k: nat)
    requires dir.Listed() && k <= |dir.kids|
    ensures |dir.dirlist.items| == |dir.kids|
    ensures var p := dir.dirlist.Chain()[k + 1];
            && (p.next != null <==> k < |dir.kids|)
            && (k < |dir.kids| ==> p.node == Some(dir.kids[k]) && p.next == dir.dirlist.Chain()[k + 2])
    ensures dir.dirlist.first.next == dir.dirlist.Chain()[1]
  {
    dir.dirlist.Place(1);
    dir.dirlist.Place(k + 1);
  }

  /** `dumpnode` for every node of a list, from its head while there is a next node. */
  method DumpList(o: Output, dir: FileNode, ghost ns: Nodes, ghost own: set<FileNode>, ghost links: set<FileNode>)
    requires o.Valid() && Fits(ns) && Emittable(ns) && Describes(dir.kids, ns, own, links)
    requires dir.Listed() && AllListed(own)
    modifies o, o.fixbuf, o.bigbuf
    ensures o.Valid() && o.stream == old(o.stream) + Bytes(ns)
    ensures o.astray == (old(o.astray) || !InPlace(ns, old(|o.stream|)))
    decreases ns, 1
  {
    hide *;
    ghost var rest, start, k: nat := ns, o.stream, 0;
    LinkAt(dir, 0);
    var p := dir.dirlist.first.next;
    while p.next != null
      invariant k <= |dir.kids| == |dir.dirlist.items| && p == dir.dirlist.Chain()[k + 1] && (rest == ns || rest < ns)
      invariant o.Valid() && Fits(rest) && Emittable(rest) && Describes(dir.kids[k..], rest, own, links)
      invariant dir.Listed() && AllListed(own)
      invariant o.stream + Bytes(rest) == start + Bytes(ns)
      invariant (o.astray || !InPlace(rest, |o.stream|)) == (old(o.astray) || !InPlace(ns, |start|))
      decreases |dir.kids| - k
    {
      LinkAt(dir, k);
      AtPlace(dir, k, rest, own, links);
      EmitStep(rest);
      DumpNode(o, p.node.value, dir, k, rest, own, links);
      rest, k := rest.next, k + 1;
      p := p.next;
    }
    LinkAt(dir, k);
    DescribesStep(dir.kids[k..], rest, own, links);
    InPlaceStep(rest, |o.stream|);
    assert Bytes(NoNodes) == [] by { BytesNone(); }
  }

  /** What a list still to be dumped says of its first node. */
  lemma AtPlace(dir: FileNode, k: nat, ns: Nodes, own: set<FileNode>, links: set<FileNode>)
    requires dir.Listed() && AllListed(own) && k < |dir.kids| && Describes(dir.kids[k..], ns, own, links)
    ensures ns.Node? && Carries(dir.kids[k], ns, own + links) && Describes(dir.kids[k].kids, ns.kids, own, links)
    ensures dir.kids[k].Listed() && Before(dir.kids[k], dir, k, ns.next)
    ensures Describes(dir.kids[k + 1..], ns.next, own, links)
  {
    hide Carries, Describes;
    DescribesStep(dir.kids[k..], ns, own, links);
    assert dir.kids[k..][1..] == dir.kids[k + 1..];
    DescribesStep(dir.kids[k + 1..], ns.next, own, links);
    if k + 1 < |dir.kids| {
      NextNode(dir.kids[k + 1..], ns.next, own, links);
    }
  }

  lemma BytesNone()
    ensures Bytes(NoNodes) == []
  {
  }

  /** `dumpnode`: the node itself, then everything in it. */
  method DumpNode(o: Output, node: FileNode, ghost dir: FileNode, ghost k: nat, ghost ns: Nodes,
                  ghost own: set<FileNode>, ghost links: set<FileNode>)
    requires o.Valid() && ns.Node? && Fits(ns) && Emittable(ns) && Fits(ns.kids)
    requires Carries(node, ns, own + links) && Describes(node.kids, ns.kids, own, links)
    requires node.Listed() && Before(node, dir, k, ns.next) && AllListed(own)
    modifies o, o.fixbuf, o.bigbuf
    ensures o.Valid() && o.stream == old(o.stream) + NodeBytes(ns) + Bytes(ns.kids)
    ensures o.stream + Bytes(ns.next) == old(o.stream) + Bytes(ns)
    ensures Fits(ns.next) && Emittable(ns.next)
    ensures (o.astray || !InPlace(ns.next, |o.stream|)) == (old(o.astray) || !InPlace(ns, old(|o.stream|)))
    decreases ns, 0
  {
    hide *;
    EmitStep(ns);
    InPlaceStep(ns, |o.stream|);
    DumpSelf(o, node, dir, k, ns, own, links);
    DumpList(o, node, ns.kids, own, links);
  }

  /** `dumpall`: the volume header, every node, and zeros up to the block size. */
  method DumpAll(o: Output, root: FileNode, lastoff: Word, ghost ns: Nodes, ghost own: set<FileNode>)
    requires o.Valid() && o.stream == [] && Fits(ns) && Emittable(ns) && Describes(root.kids, ns, own, {root})
    requires root.offset == 0 && 16 + Align16(|root.name| + 1) <= 4096 && root.Listed() && AllListed(own)
    modifies o, o.fixbuf, o.bigbuf
    ensures o.Valid() && o.stream == VolumeHeader(root.name, lastoff) + Bytes(ns) + Zeros(Padding(lastoff))
    ensures o.astray == (old(o.astray) || !InPlace(ns, Space(root.name, 0)))
  {
    hide *;
    VolumeHeaderIs(root.name, lastoff);
    o.DumpRi(0x2d72_6f6d, 0x3166_732d, lastoff, root.name, root.offset);
    DumpList(o, root, ns, own, {root});
    o.DumpPad(if lastoff % 1024 != 0 then 1024 - lastoff % 1024 else 0);
  }

  lemma VolumeHeaderIs(volume: seq<Byte>, lastoff: Word)
    ensures VolumeHeader(volume, lastoff) == RawHeader(0x2d72_6f6d, 0x3166_732d, lastoff, volume)
    ensures |VolumeHeader(volume, lastoff)| == Space(volume, 0)
    ensures Padding(lastoff) == if lastoff % 1024 != 0 then 1024 - lastoff % 1024 else 0
  {
  }

  lemma {:induction false} ValidWithoutDots(es: Entries)
    requires ValidEntries(es)
    ensures ValidEntries(WithoutDots(es)) && (NoOther(es) <==> NoOther(WithoutDots(es)))
  {
    if es.Cons? {
      ValidWithoutDots(es.rest);
    }
  }

  lemma {:induction false} ValidIsNulFree(es: Entries)
    requires ValidEntries(es)
    ensures NulFree(es)
  {
    if es.Cons? {
      ValidIsNulFree(es.rest);
      if es.e.Dir? {
        ValidIsNulFree(es.e.entries);
      }
    }
  }

  lemma RootEmittable(exec: bool, upExec: bool, es: Entries, first: nat)
    requires ValidEntries(es) && first > 0
    ensures Emittable(Lay(RootListing(exec, upExec, es), first, first, first))
  {
    var up := DotDot(upExec);
    var off1 := first + EntryExtent(Dir(DOT, exec, Nil));
    var off2 := off1 + EntryExtent(up);
    ValidWithoutDots(es);
    LayEmittable(WithoutDots(es), off2, first, first);
    assert Align16(2) == 16 && Align16(3) == 16;
    var rest := Lay(Cons(up, WithoutDots(es)), off1, first, first);
    assert rest.next == Lay(WithoutDots(es), off2, first, first) && Emittable(rest);
    assert Lay(Nil, first + Space(DOT, 0), first, first) == NoNodes;
    hide Space, EntryExtent;
  }

  lemma RootClean(exec: bool, upExec: bool, es: Entries)
    requires ValidEntries(es)
    ensures var listing := RootListing(exec, upExec, es);
            listing.Cons? && !listing.e.Gone? && NulFree(listing) && (NoOther(es) <==> NoOther(listing))
  {
    ValidWithoutDots(es);
    ValidIsNulFree(WithoutDots(es));
  }

  /** The file reads as a volume of that name with what should be read of the root's entries. */
  predicate TreeRead(file: seq<Byte>, volume: seq<Byte>, exec: bool, es: Entries) {
    var r := ReadVolume(file);
    r.Some? && r.value.0 == volume && RootReadAs(exec, es, r.value.1)
  }

  lemma RootReadsBackIff(volume: seq<Byte>, exec: bool, upExec: bool, es: Entries)
    requires 0 !in volume && ValidEntries(es)
    requires var listing := RootListing(exec, upExec, es);
             LastOffset(volume, listing) < 0x8000_0000 && Fits(RootNodes(volume, listing))
    ensures TreeRead(Image(volume, RootListing(exec, upExec, es)), volume, exec, es) <==> NoOther(es)
  {
    hide ReadVolume, RootListing, RootReadAs, Image, LastOffset, RootNodes, Fits, ValidEntries, NoOther, NulFree, ReadAs;
    var listing := RootListing(exec, upExec, es);
    RootClean(exec, upExec, es);
    ImageReadsBack(volume, listing);
    var r := ReadVolume(Image(volume, listing));
    if r.Some? {
      RootIs(exec, upExec, es, r.value.1);
    }
  }

  /** What a whole run must have left behind, whatever short reads occurred. */
  lemma RunFacts(volume: seq<Byte>, exec: bool, upExec: bool, es: Entries)
    requires 0 !in volume && ValidEntries(es)
    requires var listing := RootListing(exec, upExec, es);
             LastOffset(volume, listing) < 0x8000_0000 && Fits(RootNodes(volume, listing))
    ensures var listing := RootListing(exec, upExec, es);
            && (TreeRead(Image(volume, listing), volume, exec, es) <==> NoOther(es))
            && (|Stream(volume, listing)| == LastOffset(volume, listing) + Padding(LastOffset(volume, listing))
                <==> NoOther(es))
            && (NoOther(es) ==> |Stream(volume, listing)| >= 512 && OthersLast(listing))
    ensures var listing := RootListing(exec, upExec, es);
            InPlace(RootNodes(volume, listing), Space(volume, 0)) <==> OthersLast(listing)
  {
    var listing := RootListing(exec, upExec, es);
    var first := Space(volume, 0);
    assert RootNodes(volume, listing) == Lay(listing, first, first, first);
    hide *;
    RootClean(exec, upExec, es);
    RootReadsBackIff(volume, exec, upExec, es);
    ImageLength(volume, listing);
    if NoOther(es) {
      ImageFacts(volume, listing);
      NoOtherLast(listing);
    }
    LayInPlaceIff(listing, first, first, first);
  }

  lemma StreamIs(volume: seq<Byte>, listing: Entries)
    requires LastOffset(volume, listing) < 0x8000_0000 && Fits(RootNodes(volume, listing))
    ensures var lastoff := LastOffset(volume, listing);
            Stream(volume, listing)
            == VolumeHeader(volume, lastoff) + Bytes(RootNodes(volume, listing)) + Zeros(Padding(lastoff))
    ensures Image(volume, listing) == Staged(Stream(volume, listing))
  {
    hide Bytes, VolumeHeader, Staged, Padding;
  }

  /**
   * A whole run. The file is the image of the tree, always; it reads back as the tree, and ends where the first pass
   * ended, exactly if the tree holds nothing but directories and regular files. Some header is not where the
   * first pass put it exactly if one is emitted behind an entry of another kind.
   */
  method Run(volume: seq<Byte>, exec: bool, upExec: bool, es: Entries)
    returns (file: seq<Byte>, atoffs: nat, ghost flushes: nat, ghost astray: bool)
    requires 0 !in volume && 16 + Align16(|volume| + 1) <= 4096 && ValidEntries(es)
    requires LastOffset(volume, RootListing(exec, upExec, es)) < 0x8000_0000
    ensures var listing := RootListing(exec, upExec, es);
            Fits(RootNodes(volume, listing)) && file == Image(volume, listing)
    ensures var listing := RootListing(exec, upExec, es);
            && (TreeRead(file, volume, exec, es) <==> NoOther(es))
            && (atoffs == LastOffset(volume, listing) + Padding(LastOffset(volume, listing)) <==> NoOther(es))
    ensures NoOther(es) ==> flushes == 1 && !astray
    ensures astray <==> !OthersLast(RootListing(exec, upExec, es))
  {
    hide Describes, Staged, Bytes, InPlace, OthersLast, Emittable, Fits, Padding, TreeRead, RootListing, Lay, VolumeHeader,
      Extent, Align16, NoOther, ValidEntries, Stream, Image, RootNodes, LastOffset, FileNode.Listed, AllListed;
    ghost var listing := RootListing(exec, upExec, es);
    ghost var first := Space(volume, 0);
    RootFits(volume, listing);
    LastOffsetParts(volume, listing);
    StreamIs(volume, listing);
    RootEmittable(exec, upExec, es, first);
    RunFacts(volume, exec, upExec, es);
    var root := new FileNode(volume, 0);
    root.parent := root;
    ghost var own;
    var lastoff: nat;
    lastoff, own := ProcessDir(root, exec, upExec, es, SpaceNeeded(root));
    var o := new Output();
    DumpAll(o, root, lastoff, RootNodes(volume, listing), own);
    assert o.stream == Stream(volume, listing);
    file, atoffs, flushes, astray := o.out, o.atoffs, o.flushes, o.astray;
  }
}
