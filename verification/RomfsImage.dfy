// The directory tree genromfs is given, the offsets its first pass assigns and
// the bytes its second pass emits, as functions.

module RomfsImage {
  import opened Common
  import opened RomfsFormat

  // ----- The input -----

  /** A directory listing, in the order the directory is read. */
  datatype Entries = Nil | Cons(e: Entry, rest: Entries)

  datatype Entry =
    | Dot(exec: bool)
    | DotDot(exec: bool)
    | File(name: seq<Byte>, exec: bool, size: nat, readable: seq<Byte>)  // `readable`: what reading will yield
    | Dir(name: seq<Byte>, exec: bool, entries: Entries)
    | Other(name: seq<Byte>)                                             // neither directory nor regular file
    | Gone(name: seq<Byte>)                                              // its lstat fails

  const DOT: seq<Byte> := [46]
  const DOTDOT: seq<Byte> := [46, 46]

  /** File names hold no NUL, fit the header buffer, and only the two special entries have the special names. */
  predicate ValidName(name: seq<Byte>) {
    0 !in name && 16 + Align16(|name| + 1) <= 4096 && name != DOT && name != DOTDOT
  }

  predicate ValidEntries(es: Entries) {
    match es
    case Nil => true
    case Cons(e, rest) =>
      && ValidEntries(rest)
      && match e
         case Dot(_) => true
         case DotDot(_) => true
         case File(name, _, _, _) => ValidName(name)
         case Dir(name, _, sub) => ValidName(name) && ValidEntries(sub)
         case Other(name) => ValidName(name)
         case Gone(name) => ValidName(name)
  }

  /** Every entry that can be looked at is a directory or a regular file. */
  predicate NoOther(es: Entries) {
    match es
    case Nil => true
    case Cons(e, rest) => !e.Other? && (e.Dir? ==> NoOther(e.entries)) && NoOther(rest)
  }

  // ----- The first pass: nodes and offsets -----

  /** A list of sibling nodes as the first pass leaves them. */
  datatype Nodes =
    | NoNodes
    | Node(name: seq<Byte>, kind: Kind, exec: bool, offset: nat, size: nat, readable: seq<Byte>, target: nat,
           kids: Nodes, next: Nodes)

  /** `spaceneeded` */
  function Space(name: seq<Byte>, size: nat): (n: nat)
    ensures n % 16 == 0 && n >= 32
  {
    16 + Align16(|name| + 1) + Align16(size)
  }

  function NameOf(e: Entry): seq<Byte> {
    match e
    case Dot(_) => DOT
    case DotDot(_) => DOTDOT
    case _ => e.name
  }

  function KindOf(e: Entry): Kind {
    match e
    case File(_, _, _, _) => Regular
    case Dir(_, _, _) => Directory
    case Other(_) => Special
    case _ => Link
  }

  function ExecOf(e: Entry): bool {
    match e
    case Other(_) => false
    case Gone(_) => false
    case _ => e.exec
  }

  function SizeOf(e: Entry): nat {
    if e.File? then e.size else 0
  }

  function ReadableOf(e: Entry): seq<Byte> {
    if e.File? then e.readable else []
  }

  /** "." links to the offset `self` of the directory, ".." to the offset `parent` of the one above. */
  function TargetOf(e: Entry, self: nat, parent: nat): nat {
    match e
    case Dot(_) => self
    case DotDot(_) => parent
    case _ => 0
  }

  /** The room the first pass sets aside for an entry and all below it. */
  function EntryExtent(e: Entry): (n: nat)
    ensures n % 16 == 0
    decreases e
  {
    if e.Gone? then 0
    else Space(NameOf(e), SizeOf(e)) + if e.Dir? then Extent(e.entries) else 0
  }

  function Extent(es: Entries): (n: nat)
    ensures n % 16 == 0
    decreases es
  {
    if es.Nil? then 0 else EntryExtent(es.e) + Extent(es.rest)
  }

  /** The nodes of a listing whose first header goes to `off`. */
  function Lay(es: Entries, off: nat, self: nat, parent: nat): (ns: Nodes)
    ensures ns.Node? ==> ns.offset == off
  {
    match es
    case Nil => NoNodes
    case Cons(e, rest) =>
      if e.Gone? then Lay(rest, off, self, parent)
      else
        Node(NameOf(e), KindOf(e), ExecOf(e), off, SizeOf(e), ReadableOf(e), TargetOf(e, self, parent),
             if e.Dir? then Lay(e.entries, off + Space(e.name, 0), off, self) else NoNodes,
             Lay(rest, off + EntryExtent(e), self, parent))
  }

  // ----- The second pass: bytes -----

  /** Offsets and sizes fit the header words. */
  predicate Fits(ns: Nodes) {
    ns.Node? ==>
      && ns.offset % 16 == 0 && ns.offset + Space(ns.name, ns.size) < 0x8000_0000 && ns.target < 0x8000_0000
      && Fits(ns.kids) && Fits(ns.next)
  }

  /** The offset a next or spec pointer gets: the first node of a list, or a stand-in for an empty one. */
  function FirstOffset(ns: Nodes, otherwise: nat): nat {
    if ns.Node? then ns.offset else otherwise
  }

  lemma NextFieldFits(ns: Nodes)
    requires Fits(ns) && ns.Node?
    ensures NextField(FirstOffset(ns.next, 0), ns.kind, ns.exec) < 0x1_0000_0000
  {
    var next := FirstOffset(ns.next, 0);
    if ns.kind != Special {
      NextFieldValue(next, ns.kind, ns.exec);
    }
  }

  function SpecField(ns: Nodes): nat
    requires ns.Node?
  {
    match ns.kind
    case Link => ns.target
    case Directory => FirstOffset(ns.kids, ns.offset)
    case _ => 0
  }

  function NodeHeader(ns: Nodes): (s: seq<Byte>)
    requires Fits(ns) && ns.Node?
    ensures |s| == 16 + Align16(|ns.name| + 1)
  {
    NextFieldFits(ns);
    assert Fits(ns.kids);
    Header(NextField(FirstOffset(ns.next, 0), ns.kind, ns.exec), SpecField(ns), ns.size, ns.name)
  }

  /** What the file turns out to hold: what could be read of it, cut at its size, then zeros. */
  function FileBytes(size: nat, readable: seq<Byte>): (s: seq<Byte>)
    ensures |s| == size
  {
    if |readable| < size then readable + Zeros(size - |readable|) else readable[..size]
  }

  /** Byte by byte: as much as could be read, zeros for the rest. */
  predicate IsContents(bytes: seq<Byte>, size: nat, readable: seq<Byte>) {
    |bytes| == size && forall i :: 0 <= i < size ==> bytes[i] == if i < |readable| then readable[i] else 0
  }

  lemma FileContents(size: nat, readable: seq<Byte>)
    ensures IsContents(FileBytes(size, readable), size, readable)
  {
  }

  /** The bytes of a node itself. */
  function NodeBytes(ns: Nodes): (s: seq<Byte>)
    requires Fits(ns) && ns.Node?
    ensures ns.kind != Special && (ns.kind != Regular ==> ns.size == 0) ==> |s| == Space(ns.name, ns.size)
  {
    match ns.kind
    case Special => []
    case Regular => NodeHeader(ns) + FileBytes(ns.size, ns.readable) + Zeros(Align16(ns.size) - ns.size)
    case _ => NodeHeader(ns)
  }

  /** The bytes of a list of nodes: each one, then everything below it, then its siblings. */
  function Bytes(ns: Nodes): seq<Byte>
    requires Fits(ns)
  {
    if ns.NoNodes? then [] else NodeBytes(ns) + Bytes(ns.kids) + Bytes(ns.next)
  }

  /** `ns` is the node the first pass makes of entry `e` at `off`. */
  predicate IsNodeOf(ns: Nodes, e: Entry, off: nat, self: nat, parent: nat) {
    && ns.Node? && ns.offset == off
    && ns.name == NameOf(e) && ns.kind == KindOf(e) && ns.exec == ExecOf(e) && ns.size == SizeOf(e)
    && ns.readable == ReadableOf(e) && ns.target == TargetOf(e, self, parent)
    && ns.kids == if e.Dir? then Lay(e.entries, off + Space(e.name, 0), off, self) else NoNodes
  }

  lemma LayStep(es: Entries, off: nat, self: nat, parent: nat)
    requires es.Cons? && !es.e.Gone?
    ensures var ns := Lay(es, off, self, parent);
            IsNodeOf(ns, es.e, off, self, parent) && ns.next == Lay(es.rest, off + EntryExtent(es.e), self, parent)
  {
  }

  lemma BytesStep(ns: Nodes, e: Entry, off: nat, self: nat, parent: nat)
    requires IsNodeOf(ns, e, off, self, parent) && !e.Gone? && Fits(ns)
    ensures Fits(ns.kids) && Fits(ns.next)
    ensures |Bytes(ns)| == |NodeBytes(ns)| + |Bytes(ns.kids)| + |Bytes(ns.next)|
    ensures |NodeBytes(ns)| == if e.Other? then 0 else Space(NameOf(e), SizeOf(e))
    ensures !e.Dir? ==> |Bytes(ns.kids)| == 0
  {
    hide Lay, FileBytes, NodeHeader, Extent;
  }

  lemma ExtentStep(es: Entries)
    requires es.Cons?
    ensures Extent(es) == EntryExtent(es.e) + Extent(es.rest)
    ensures NoOther(es) <==> !es.e.Other? && (es.e.Dir? ==> NoOther(es.e.entries)) && NoOther(es.rest)
    ensures EntryExtent(es.e)
            == if es.e.Gone? then 0
               else Space(NameOf(es.e), SizeOf(es.e)) + if es.e.Dir? then Extent(es.e.entries) else 0
  {
    hide Space;
  }

  lemma NothingToEmit(es: Entries, off: nat, self: nat, parent: nat)
    requires es.Nil?
    ensures Lay(es, off, self, parent) == NoNodes && |Bytes(NoNodes)| == 0 && Extent(es) == 0 && NoOther(es)
  {
  }

  lemma GoneSkipped(es: Entries, off: nat, self: nat, parent: nat)
    requires es.Cons? && es.e.Gone?
    ensures Lay(es, off, self, parent) == Lay(es.rest, off, self, parent)
  {
    hide Space;
  }

  /** The two passes agree on how long a listing is exactly when every entry is a directory or a regular file. */
  lemma {:induction false} PassesAgreeIff(es: Entries, off: nat, self: nat, parent: nat)
    requires Fits(Lay(es, off, self, parent))
    ensures |Bytes(Lay(es, off, self, parent))| <= Extent(es)
    ensures |Bytes(Lay(es, off, self, parent))| == Extent(es) <==> NoOther(es)
  {
    var ns := Lay(es, off, self, parent);
    hide *;
    if es.Nil? {
      NothingToEmit(es, off, self, parent);
    } else {
      ExtentStep(es);
      if es.e.Gone? {
        GoneSkipped(es, off, self, parent);
        PassesAgreeIff(es.rest, off, self, parent);
      } else {
        LayStep(es, off, self, parent);
        BytesStep(ns, es.e, off, self, parent);
        PassesAgreeIff(es.rest, off + EntryExtent(es.e), self, parent);
        if es.e.Dir? {
          KidsOf(ns, es.e, off, self, parent);
          PassesAgreeIff(es.e.entries, off + Space(es.e.name, 0), off, self);
        }
        SpacePositive(es.e);
      }
    }
  }

  lemma KidsOf(ns: Nodes, e: Entry, off: nat, self: nat, parent: nat)
    requires IsNodeOf(ns, e, off, self, parent) && e.Dir?
    ensures ns.kids == Lay(e.entries, off + Space(e.name, 0), off, self)
    ensures NameOf(e) == e.name && SizeOf(e) == 0
  {
  }

  lemma SpacePositive(e: Entry)
    ensures Space(NameOf(e), SizeOf(e)) > 0
  {
  }

  lemma FitsStep(ns: Nodes, e: Entry, off: nat, self: nat, parent: nat)
    requires IsNodeOf(ns, e, off, self, parent) && off % 16 == 0 && off + Space(NameOf(e), SizeOf(e)) < 0x8000_0000
    requires self < 0x8000_0000 && parent < 0x8000_0000 && Fits(ns.kids) && Fits(ns.next)
    ensures Fits(ns)
  {
    hide Space, Lay;
  }

  lemma {:induction false} LayFits(es: Entries, off: nat, self: nat, parent: nat)
    requires off % 16 == 0 && off + Extent(es) < 0x8000_0000 && self < 0x8000_0000 && parent < 0x8000_0000
    ensures Fits(Lay(es, off, self, parent))
  {
    var ns := Lay(es, off, self, parent);
    hide *;
    if es.Nil? {
      NothingToEmit(es, off, self, parent);
      NothingFits();
    } else {
      ExtentStep(es);
      if es.e.Gone? {
        GoneSkipped(es, off, self, parent);
        LayFits(es.rest, off, self, parent);
      } else {
        LayStep(es, off, self, parent);
        LayFits(es.rest, off + EntryExtent(es.e), self, parent);
        if es.e.Dir? {
          KidsOf(ns, es.e, off, self, parent);
          LayFits(es.e.entries, off + Space(es.e.name, 0), off, self);
        } else {
          NoKids(ns, es.e, off, self, parent);
          NothingFits();
        }
        FitsStep(ns, es.e, off, self, parent);
      }
    }
  }

  lemma NothingFits()
    ensures Fits(NoNodes)
  {
  }

  lemma NoKids(ns: Nodes, e: Entry, off: nat, self: nat, parent: nat)
    requires IsNodeOf(ns, e, off, self, parent) && !e.Dir?
    ensures ns.kids == NoNodes
  {
  }

  // ----- The volume -----

  /** A listing without its "." and ".." entries. */
  function WithoutDots(es: Entries): Entries {
    match es
    case Nil => Nil
    case Cons(e, rest) => if e.Dot? || e.DotDot? then WithoutDots(rest) else Cons(e, WithoutDots(rest))
  }

  /**
   * The listing of the root: "." first, as a directory with nothing below it, then ".." as a link to it,
   * then the rest as read.
   */
  function RootListing(exec: bool, upExec: bool, es: Entries): Entries {
    Cons(Dir(DOT, exec, Nil), Cons(DotDot(upExec), WithoutDots(es)))
  }

  function RootNodes(volume: seq<Byte>, listing: Entries): Nodes {
    var first := Space(volume, 0);
    Lay(listing, first, first, first)
  }

  /** Where the first pass ends. */
  function LastOffset(volume: seq<Byte>, listing: Entries): nat {
    Space(volume, 0) + Extent(listing)
  }

  function Padding(lastoff: nat): nat {
    if lastoff % 1024 == 0 then 0 else 1024 - lastoff % 1024
  }

  /** The least that ends at a multiple of 1024. */
  lemma PaddingIs(lastoff: nat, n: nat)
    ensures n == Padding(lastoff) <==> n < 1024 && (lastoff + n) % 1024 == 0
  {
  }

  /** A volume starts with the eight characters -rom1fs-. */
  lemma Magic(volume: seq<Byte>, lastoff: Word)
    ensures VolumeHeader(volume, lastoff)[..8] == [45, 114, 111, 109, 49, 102, 115, 45]
  {
    var raw := RawHeader(0x2d72_6f6d, 0x3166_732d, lastoff, volume);
    assert raw[..8] == Be32(0x2d72_6f6d) + Be32(0x3166_732d);
  }

  function VolumeHeader(volume: seq<Byte>, lastoff: Word): (s: seq<Byte>)
    ensures |s| == Space(volume, 0)
  {
    RawHeader(0x2d72_6f6d, 0x3166_732d, lastoff, volume)
  }

  /** Everything the second pass emits, in order, before any staging. */
  function Stream(volume: seq<Byte>, listing: Entries): seq<Byte>
    requires LastOffset(volume, listing) < 0x8000_0000 && Fits(RootNodes(volume, listing))
  {
    var lastoff := LastOffset(volume, listing);
    VolumeHeader(volume, lastoff) + Bytes(RootNodes(volume, listing)) + Zeros(Padding(lastoff))
  }

  /**
   * What reaches the file: the first 512 bytes are held back until they are complete and get the volume checksum
   * then; fewer than that are never written.
   */
  function Staged(s: seq<Byte>): seq<Byte> {
    if |s| < 512 then [] else FixSum(s[..512], Min(512, FromBe32(s[8..]))) + s[512..]
  }

  function Image(volume: seq<Byte>, listing: Entries): seq<Byte>
    requires LastOffset(volume, listing) < 0x8000_0000 && Fits(RootNodes(volume, listing))
  {
    Staged(Stream(volume, listing))
  }

  lemma RootFits(volume: seq<Byte>, listing: Entries)
    requires LastOffset(volume, listing) < 0x8000_0000
    ensures Fits(RootNodes(volume, listing))
  {
    var first := Space(volume, 0);
    LayFits(listing, first, first, first);
  }

  lemma StreamLength(volume: seq<Byte>, listing: Entries)
    requires LastOffset(volume, listing) < 0x8000_0000 && Fits(RootNodes(volume, listing))
    ensures |Stream(volume, listing)|
            == Space(volume, 0) + |Bytes(RootNodes(volume, listing))| + Padding(LastOffset(volume, listing))
  {
    hide Bytes, RootNodes, VolumeHeader, Space, Extent, Zeros;
  }

  lemma StagedLength(s: seq<Byte>)
    ensures |Staged(s)| == if |s| < 512 then 0 else |s|
  {
  }

  lemma LastOffsetParts(volume: seq<Byte>, listing: Entries)
    ensures var first, lastoff := Space(volume, 0), LastOffset(volume, listing);
            && lastoff == first + Extent(listing) && first > 0 && (lastoff + Padding(lastoff)) % 1024 == 0
            && (lastoff + Padding(lastoff) >= 512)
            && RootNodes(volume, listing) == Lay(listing, first, first, first)
  {
    hide Extent, Lay;
  }

  /** The image ends where the first pass ended, rounded up to 1024, exactly when nothing in it is special. */
  lemma ImageLength(volume: seq<Byte>, listing: Entries)
    requires LastOffset(volume, listing) < 0x8000_0000 && Fits(RootNodes(volume, listing))
    ensures var lastoff := LastOffset(volume, listing);
            && (|Stream(volume, listing)| == lastoff + Padding(lastoff) <==> NoOther(listing))
            && (NoOther(listing) ==>
                  |Image(volume, listing)| == lastoff + Padding(lastoff) && |Image(volume, listing)| % 1024 == 0)
  {
    var first := Space(volume, 0);
    var lastoff := LastOffset(volume, listing);
    LastOffsetParts(volume, listing);
    assert Image(volume, listing) == Staged(Stream(volume, listing));
    hide *;
    PassesAgreeIff(listing, first, first, first);
    StreamLength(volume, listing);
    StagedLength(Stream(volume, listing));
  }
}
