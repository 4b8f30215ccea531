// A reader of ROMFS images, and the proof that it gets back what was put in.

module RomfsReader {
  import opened RomfsFormat
  import opened RomfsImage
  import opened Common

  function Need(b: bool): Option<()> {
    if b then Some(()) else None
  }

  // ----- Reading -----

  function NameAt(img: seq<Byte>, at: nat): Option<seq<Byte>>
    decreases |img| - at
  {
    if at >= |img| then None
    else if img[at] == 0 then Some([])
    else
      var more :- NameAt(img, at + 1);
      Some([img[at]] + more)
  }

  /** A header as the reader sees it, its checksum verified. */
  datatype Head = Head(nextfh: Word, spec: Word, size: Word, name: seq<Byte>, len: nat)

  function ReadHead(img: seq<Byte>, off: nat): (r: Option<Head>)
    ensures r.Some? ==> off + r.value.len <= |img|
  {
    var _ :- Need(off + 16 <= |img|);
    var name :- NameAt(img, off + 16);
    var len := 16 + Align16(|name| + 1);
    var _ :- Need(off + len <= |img|);
    var _ :- Need(WordSum(img[off..off + len]) % 0x1_0000_0000 == 0);
    Some(Head(FromBe32(img[off..]), FromBe32(img[off + 4..]), FromBe32(img[off + 8..]), name, len))
  }

  /**
   * The list whose first header is at `off`: `self` is the offset "." must link to, `parent` the one for "..".
   * A directory whose spec is its own offset has nothing below it; every other pointer must lead forward.
   */
  function ReadList(img: seq<Byte>, off: nat, self: nat, parent: nat): Option<Entries>
    decreases |img| - off, 1
  {
    var h :- ReadHead(img, off);
    var e :- ReadEntry(img, off, h, self, parent);
    var next := h.nextfh / 16 * 16;
    if next == 0 then Some(Cons(e, Nil))
    else
      var _ :- Need(next > off && off < |img|);
      var rest :- ReadList(img, next, self, parent);
      Some(Cons(e, rest))
  }

  function ReadEntry(img: seq<Byte>, off: nat, h: Head, self: nat, parent: nat): Option<Entry>
    decreases |img| - off, 0
  {
    var exec := h.nextfh / 8 % 2 == 1;
    match h.nextfh % 8
    case 0 =>
      if h.name == [0x2E] && h.spec == self then Some(Dot(false))
      else if h.name == [0x2E, 0x2E] && h.spec == parent then Some(DotDot(false))
      else None
    case 1 =>
      if h.spec == off then Some(Dir(h.name, exec, Nil))
      else
        var _ :- Need(h.spec > off && off < |img|);
        var kids :- ReadList(img, h.spec, off, self);
        Some(Dir(h.name, exec, kids))
    case 2 =>
      var _ :- Need(off + h.len + h.size <= |img|);
      Some(File(h.name, exec, h.size, img[off + h.len..off + h.len + h.size]))
    case _ => None
  }

  // ----- What should come back -----

  /** A listing as it reads from the image: nothing that vanished, files as they were read, links without exec bits. */
  function Clean(es: Entries): Entries {
    match es
    case Nil => Nil
    case Cons(Gone(_), rest) => Clean(rest)
    case Cons(Dot(_), rest) => Cons(Dot(false), Clean(rest))
    case Cons(DotDot(_), rest) => Cons(DotDot(false), Clean(rest))
    case Cons(File(name, exec, size, readable), rest) =>
      Cons(File(name, exec, size, FileBytes(size, readable)), Clean(rest))
    case Cons(Dir(name, exec, sub), rest) => Cons(Dir(name, exec, Clean(sub)), Clean(rest))
    case Cons(Other(name), rest) => Cons(Other(name), Clean(rest))
  }

  /** Entry `r` is what should be read of entry `e`. */
  predicate EntryReadAs(e: Entry, r: Entry)
    decreases e, 0
  {
    match e
    case Dot(_) => r == Dot(false)
    case DotDot(_) => r == DotDot(false)
    case File(name, exec, size, readable) =>
      r.File? && r.name == name && r.exec == exec && r.size == size && IsContents(r.readable, size, readable)
    case Dir(name, exec, sub) => r.Dir? && r.name == name && r.exec == exec && ReadAs(sub, r.entries)
    case _ => false
  }

  /** Listing `t` is what should be read of listing `es`: every entry that could be looked at, in order. */
  predicate ReadAs(es: Entries, t: Entries)
    decreases es, 1
  {
    match es
    case Nil => t == Nil
    case Cons(e, rest) => if e.Gone? then ReadAs(rest, t) else t.Cons? && EntryReadAs(e, t.e) && ReadAs(rest, t.rest)
  }

  /** The same at the root, where "." and ".." come first, as a directory and a link, and not as they are read. */
  predicate RootReadAs(exec: bool, es: Entries, t: Entries) {
    && t.Cons? && t.e == Dir([0x2E], exec, Nil)
    && t.rest.Cons? && t.rest.e == DotDot(false)
    && RestReadAs(es, t.rest.rest)
  }

  predicate RestReadAs(es: Entries, t: Entries) {
    match es
    case Nil => t == Nil
    case Cons(e, rest) =>
      if e.Gone? || e.Dot? || e.DotDot? then RestReadAs(rest, t)
      else t.Cons? && EntryReadAs(e, t.e) && RestReadAs(rest, t.rest)
  }

  /** The clean listing is one, if there is one. */
  lemma {:induction false} CleanReadAs(es: Entries)
    ensures ReadAs(es, Clean(es)) <==> NoOther(es)
  {
    if es.Cons? {
      CleanReadAs(es.rest);
      if es.e.File? {
        FileContents(es.e.size, es.e.readable);
      }
      if es.e.Dir? {
        CleanReadAs(es.e.entries);
      }
    }
  }

  /** And there is no other. */
  lemma {:induction false} ReadAsClean(es: Entries, t: Entries)
    requires ReadAs(es, t)
    ensures t == Clean(es) && NoOther(es)
    decreases es
  {
    if es.Cons? {
      ReadAsClean(es.rest, if es.e.Gone? then t else t.rest);
      if es.e.File? {
        FileContents(es.e.size, es.e.readable);
      }
      if es.e.Dir? {
        ReadAsClean(es.e.entries, t.e.entries);
      }
    }
  }

  lemma {:induction false} RestIs(es: Entries, t: Entries)
    ensures ReadAs(WithoutDots(es), t) <==> RestReadAs(es, t)
    decreases es
  {
    hide EntryReadAs;
    if es.Cons? {
      if es.e.Dot? || es.e.DotDot? || es.e.Gone? {
        RestIs(es.rest, t);
      } else if t.Cons? {
        RestIs(es.rest, t.rest);
      }
    }
  }

  lemma RootIs(exec: bool, upExec: bool, es: Entries, t: Entries)
    ensures ReadAs(RootListing(exec, upExec, es), t) <==> RootReadAs(exec, es, t)
  {
    var rest := Cons(DotDot(upExec), WithoutDots(es));
    assert RootListing(exec, upExec, es) == Cons(Dir(DOT, exec, Nil), rest);
    if t.Cons? && t.rest.Cons? {
      RestIs(es, t.rest.rest);
      assert ReadAs(rest, t.rest) <==> EntryReadAs(DotDot(upExec), t.rest.e) && ReadAs(WithoutDots(es), t.rest.rest);
    }
  }

  function CleanEntry(e: Entry): Entry {
    match e
    case Dot(_) => Dot(false)
    case DotDot(_) => DotDot(false)
    case File(name, exec, size, readable) => File(name, exec, size, FileBytes(size, readable))
    case Dir(name, exec, sub) => Dir(name, exec, Clean(sub))
    case _ => e
  }

  predicate NulFree(es: Entries) {
    es.Cons? ==>
      && 0 !in NameOf(es.e)
      && (es.e.Dir? ==> NulFree(es.e.entries))
      && NulFree(es.rest)
  }

  predicate Holds(img: seq<Byte>, off: nat, s: seq<Byte>) {
    off + |s| <= |img| && img[off..off + |s|] == s
  }

  lemma HoldsParts(img: seq<Byte>, off: nat, a: seq<Byte>, b: seq<Byte>)
    requires Holds(img, off, a + b)
    ensures Holds(img, off, a) && Holds(img, off + |a|, b)
  {
    assert img[off..off + |a|] == (a + b)[..|a|];
    assert img[off + |a|..off + |a| + |b|] == (a + b)[|a|..];
  }

  // ----- Headers -----

  lemma {:induction false} NameFound(img: seq<Byte>, at: nat, name: seq<Byte>)
    requires 0 !in name && Holds(img, at, name + [0])
    ensures NameAt(img, at) == Some(name)
    decreases |name|
  {
    var s := name + [0];
    assert img[at] == img[at..at + |s|][0];
    if name != [] {
      assert s == [name[0]] + (name[1..] + [0]);
      HoldsParts(img, at, [name[0]], name[1..] + [0]);
      NameFound(img, at + 1, name[1..]);
      assert name == [name[0]] + name[1..];
    }
  }

  lemma HeaderWords(nextfh: Word, spec: Word, size: Word, name: seq<Byte>)
    ensures var h := Header(nextfh, spec, size, name);
            && h[..12] == Be32(nextfh) + Be32(spec) + Be32(size)
            && h[16..] == PaddedName(name)
            && SumsToZero(h)
  {
    var raw := RawHeader(nextfh, spec, size, name);
    var h := Header(nextfh, spec, size, name);
    FixSumZero(raw, |raw|);
    assert h[..|h|] == h;
    assert raw[..12] == Be32(nextfh) + Be32(spec) + Be32(size);
    assert raw[16..] == PaddedName(name);
  }

  /** Where the name of a header in the image is. */
  lemma NameHeld(img: seq<Byte>, off: nat, h: seq<Byte>, name: seq<Byte>)
    requires Holds(img, off, h) && |h| >= 16 && h[16..] == PaddedName(name)
    ensures Holds(img, off + 16, name + [0])
  {
    assert h == h[..16] + h[16..];
    HoldsParts(img, off, h[..16], h[16..]);
    var fill := Zeros(Align16(|name| + 1) - |name|);
    assert fill == [0] + fill[1..];
    assert PaddedName(name) == (name + [0]) + fill[1..];
    HoldsParts(img, off + 16, name + [0], fill[1..]);
  }

  /** A header in the image reads back as the words and the name it was made of. */
  lemma HeadReadBack(img: seq<Byte>, off: nat, nextfh: Word, spec: Word, size: Word, name: seq<Byte>)
    requires 0 !in name && Holds(img, off, Header(nextfh, spec, size, name))
    ensures ReadHead(img, off) == Some(Head(nextfh, spec, size, name, 16 + Align16(|name| + 1)))
  {
    var h := Header(nextfh, spec, size, name);
    HeaderWords(nextfh, spec, size, name);
    assert off + |h| <= |img| && img[off..off + |h|] == h;
    hide Header, WordSum, Be32, FromBe32, Holds, PaddedName, Align16;
    NameHeld(img, off, h, name);
    NameFound(img, off + 16, name);
    WordsReadBack(img, off, h, nextfh, spec, size);
  }

  lemma WordAt(img: seq<Byte>, at: nat, x: Word)
    requires Holds(img, at, Be32(x))
    ensures FromBe32(img[at..]) == x
  {
    Be32RoundTrip(x);
    forall i | 0 <= i < 4
      ensures img[at..][i] == Be32(x)[i]
    {
      assert img[at..at + 4][i] == Be32(x)[i];
    }
  }

  lemma WordsReadBack(img: seq<Byte>, off: nat, h: seq<Byte>, nextfh: Word, spec: Word, size: Word)
    requires |h| >= 12 && Holds(img, off, h) && h[..12] == Be32(nextfh) + Be32(spec) + Be32(size)
    ensures FromBe32(img[off..]) == nextfh && FromBe32(img[off + 4..]) == spec && FromBe32(img[off + 8..]) == size
  {
    assert h == (Be32(nextfh) + Be32(spec) + Be32(size)) + h[12..];
    HoldsParts(img, off, Be32(nextfh) + Be32(spec) + Be32(size), h[12..]);
    HoldsParts(img, off, Be32(nextfh) + Be32(spec), Be32(size));
    HoldsParts(img, off, Be32(nextfh), Be32(spec));
    WordAt(img, off, nextfh);
    WordAt(img, off + 4, spec);
    WordAt(img, off + 8, size);
  }

  // ----- The round trip -----

  /** The words of the header of a node. */
  function HeadOf(ns: Nodes): Head
    requires Fits(ns) && ns.Node?
  {
    NextFieldFits(ns);
    assert Fits(ns.kids);
    Head(NextField(FirstOffset(ns.next, 0), ns.kind, ns.exec), SpecField(ns), ns.size, ns.name,
         16 + Align16(|ns.name| + 1))
  }

  lemma FileReadBack(img: seq<Byte>, ns: Nodes)
    requires Fits(ns) && ns.Node? && ns.kind == Regular
    requires Holds(img, ns.offset, NodeBytes(ns))
    ensures Holds(img, ns.offset, NodeHeader(ns))
    ensures Holds(img, ns.offset + HeadOf(ns).len, FileBytes(ns.size, ns.readable))
  {
    hide Header, NextField;
    var h, data, fill := NodeHeader(ns), FileBytes(ns.size, ns.readable), Zeros(Align16(ns.size) - ns.size);
    assert NodeBytes(ns) == h + (data + fill);
    HoldsParts(img, ns.offset, h, data + fill);
    HoldsParts(img, ns.offset + |h|, data, fill);
  }

  lemma NodeReadBack(img: seq<Byte>, ns: Nodes)
    requires Fits(ns) && ns.Node? && ns.kind != Special && 0 !in ns.name
    requires Holds(img, ns.offset, NodeBytes(ns))
    ensures ReadHead(img, ns.offset) == Some(HeadOf(ns))
    ensures ns.kind == Regular ==> Holds(img, ns.offset + HeadOf(ns).len, FileBytes(ns.size, ns.readable))
  {
    hide Header, NextField, ReadHead, FileBytes;
    if ns.kind == Regular {
      FileReadBack(img, ns);
    }
    var h := HeadOf(ns);
    HeadReadBack(img, ns.offset, h.nextfh, h.spec, h.size, ns.name);
  }

  lemma NodesParts(img: seq<Byte>, ns: Nodes)
    requires Fits(ns) && ns.Node?
    requires Holds(img, ns.offset, Bytes(ns))
    ensures Holds(img, ns.offset, NodeBytes(ns))
    ensures Holds(img, ns.offset + |NodeBytes(ns)|, Bytes(ns.kids))
    ensures Holds(img, ns.offset + |NodeBytes(ns)| + |Bytes(ns.kids)|, Bytes(ns.next))
  {
    hide *;
    BytesOf(ns);
    var n, kids, next := NodeBytes(ns), Bytes(ns.kids), Bytes(ns.next);
    HoldsParts(img, ns.offset, n + kids, next);
    HoldsParts(img, ns.offset, n, kids);
  }

  lemma BytesOf(ns: Nodes)
    requires Fits(ns) && ns.Node?
    ensures Fits(ns.kids) && Fits(ns.next) && Bytes(ns) == NodeBytes(ns) + Bytes(ns.kids) + Bytes(ns.next)
  {
    hide NodeBytes;
  }

  lemma NodeLengths(ns: Nodes, e: Entry, off: nat, self: nat, parent: nat)
    requires IsNodeOf(ns, e, off, self, parent) && Fits(ns)
    requires !e.Gone? && !e.Other? && (e.Dir? ==> NoOther(e.entries))
    ensures |NodeBytes(ns)| == Space(NameOf(e), SizeOf(e))
    ensures |NodeBytes(ns)| + |Bytes(ns.kids)| == EntryExtent(e)
  {
    hide *;
    BytesStep(ns, e, off, self, parent);
    ExtentStep(Cons(e, Nil));
    if e.Dir? {
      KidsOf(ns, e, off, self, parent);
      PassesAgreeIff(e.entries, off + Space(e.name, 0), off, self);
    }
  }

  lemma ExtentsAligned(e: Entry, off: nat)
    requires off % 16 == 0
    ensures (off + EntryExtent(e)) % 16 == 0 && (off + Space(NameOf(e), 0)) % 16 == 0
  {
    hide *;
  }

  /** A listing is stored at `off` as the two passes put it there. */
  predicate StoredAt(img: seq<Byte>, es: Entries, off: nat, self: nat, parent: nat) {
    && off % 16 == 0 && off > 0
    && Fits(Lay(es, off, self, parent))
    && Holds(img, off, Bytes(Lay(es, off, self, parent)))
  }

  /** Where a listing is stored, its first entry is, and then what is below it, and then the rest. */
  lemma StoredParts(img: seq<Byte>, es: Entries, off: nat, self: nat, parent: nat)
    requires StoredAt(img, es, off, self, parent) && NoOther(es) && es.Cons? && !es.e.Gone?
    ensures Holds(img, off, NodeBytes(Lay(es, off, self, parent)))
    ensures StoredAt(img, es.rest, off + EntryExtent(es.e), self, parent)
    ensures es.e.Dir? ==> StoredAt(img, es.e.entries, off + Space(es.e.name, 0), off, self)
  {
    hide *;
    var ns := Lay(es, off, self, parent);
    StoredFacts(img, es, off, self, parent);
    LayStep(es, off, self, parent);
    ExtentStep(es);
    BytesStep(ns, es.e, off, self, parent);
    NodesParts(img, ns);
    NodeLengths(ns, es.e, off, self, parent);
    ExtentsAligned(es.e, off);
    Stored(img, es.rest, off + EntryExtent(es.e), self, parent);
    if es.e.Dir? {
      KidsOf(ns, es.e, off, self, parent);
      Stored(img, es.e.entries, off + Space(es.e.name, 0), off, self);
    }
  }

  lemma StoredFacts(img: seq<Byte>, es: Entries, off: nat, self: nat, parent: nat)
    requires StoredAt(img, es, off, self, parent) && es.Cons? && !es.e.Gone?
    ensures var ns := Lay(es, off, self, parent);
            off % 16 == 0 && off > 0 && Fits(ns) && ns.Node? && ns.offset == off && Holds(img, off, Bytes(ns))
  {
    hide Bytes, Fits;
  }

  lemma Stored(img: seq<Byte>, es: Entries, off: nat, self: nat, parent: nat)
    requires off % 16 == 0 && off > 0 && Fits(Lay(es, off, self, parent))
    requires Holds(img, off, Bytes(Lay(es, off, self, parent)))
    ensures StoredAt(img, es, off, self, parent)
  {
  }

  /** The reader gets a listing back from where the first pass put it; a listing without nodes needs no reading. */
  predicate ReadsBack(img: seq<Byte>, es: Entries, off: nat, self: nat, parent: nat) {
    if Lay(es, off, self, parent).NoNodes? then Clean(es) == Nil
    else ReadList(img, off, self, parent) == Some(Clean(es))
  }

  lemma ListFacts(es: Entries)
    requires NoOther(es) && NulFree(es) && es.Cons?
    ensures NoOther(es.rest) && NulFree(es.rest) && !es.e.Other? && 0 !in NameOf(es.e)
    ensures es.e.Dir? ==> NoOther(es.e.entries) && NulFree(es.e.entries)
  {
  }

  lemma NothingToRead(img: seq<Byte>, off: nat, self: nat, parent: nat)
    ensures ReadsBack(img, Nil, off, self, parent)
  {
  }

  /** An entry that vanished leaves no trace in the layout, nor in what is expected back. */
  lemma GoneLeavesNothing(img: seq<Byte>, es: Entries, off: nat, self: nat, parent: nat)
    requires es.Cons? && es.e.Gone?
    ensures StoredAt(img, es, off, self, parent) <==> StoredAt(img, es.rest, off, self, parent)
    ensures ReadsBack(img, es, off, self, parent) <==> ReadsBack(img, es.rest, off, self, parent)
  {
    assert Lay(es, off, self, parent) == Lay(es.rest, off, self, parent);
    assert Clean(es) == Clean(es.rest);
    hide Lay, Clean, ReadList, Bytes;
  }

  /** Reading a list at the offset it was laid out at gives what should be read of the listing. */
  lemma ListReadBack(img: seq<Byte>, es: Entries, off: nat, self: nat, parent: nat)
    requires StoredAt(img, es, off, self, parent) && NoOther(es) && NulFree(es)
    ensures ReadsBack(img, es, off, self, parent)
    ensures Clean(es) != Nil ==>
              ReadList(img, off, self, parent).Some? && ReadAs(es, ReadList(img, off, self, parent).value)
  {
    ListRead(img, es, off, self, parent);
    CleanReadAs(es);
    hide ReadList, ReadAs, Clean;
  }

  lemma {:induction false} ListRead(img: seq<Byte>, es: Entries, off: nat, self: nat, parent: nat)
    requires StoredAt(img, es, off, self, parent) && NoOther(es) && NulFree(es)
    ensures ReadsBack(img, es, off, self, parent)
    decreases es
  {
    hide *;
    if es.Nil? {
      NothingToRead(img, off, self, parent);
    } else {
      ListFacts(es);
      if es.e.Gone? {
        GoneLeavesNothing(img, es, off, self, parent);
        ListRead(img, es.rest, off, self, parent);
      } else {
        StoredParts(img, es, off, self, parent);
        ListRead(img, es.rest, off + EntryExtent(es.e), self, parent);
        if es.e.Dir? {
          ListRead(img, es.e.entries, off + Space(es.e.name, 0), off, self);
        }
        ListStep(img, es, off, self, parent);
      }
    }
  }

  /** The step of the round trip: the reader's first entry, and where it goes next. */
  lemma ListStep(img: seq<Byte>, es: Entries, off: nat, self: nat, parent: nat)
    requires StoredAt(img, es, off, self, parent) && es.Cons? && !es.e.Gone? && !es.e.Other? && 0 !in NameOf(es.e)
    requires Holds(img, off, NodeBytes(Lay(es, off, self, parent)))
    requires ReadsBack(img, es.rest, off + EntryExtent(es.e), self, parent)
    requires es.e.Dir? ==> ReadsBack(img, es.e.entries, off + Space(es.e.name, 0), off, self)
    ensures ReadsBack(img, es, off, self, parent)
  {
    hide *;
    var ns := Lay(es, off, self, parent);
    StoredFacts(img, es, off, self, parent);
    LayStep(es, off, self, parent);
    KindFacts(ns, es.e, off, self, parent);
    NodeReadBack(img, ns);
    NextFits(ns);
    HeadInside(img, off);
    EntryReadBack(img, es.e, ns, off, self, parent);
    NextStep(img, es, ns, off, self, parent);
  }

  lemma KindFacts(ns: Nodes, e: Entry, off: nat, self: nat, parent: nat)
    requires IsNodeOf(ns, e, off, self, parent) && !e.Other?
    ensures ns.kind != Special && ns.name == NameOf(e) && ns.offset == off
  {
    hide Lay;
  }

  lemma HeadInside(img: seq<Byte>, off: nat)
    requires ReadHead(img, off).Some?
    ensures off < |img|
  {
  }

  lemma ReadListCons(img: seq<Byte>, off: nat, self: nat, parent: nat, h: Head, e: Entry, rest: Entries)
    requires ReadHead(img, off) == Some(h) && ReadEntry(img, off, h, self, parent) == Some(e)
    requires var next := h.nextfh / 16 * 16;
             if next == 0 then rest == Nil
             else off < next && off < |img| && ReadList(img, next, self, parent) == Some(rest)
    ensures ReadList(img, off, self, parent) == Some(Cons(e, rest))
  {
    hide ReadHead, ReadEntry;
  }

  /** The reader follows the next pointer to where the rest of the listing is. */
  lemma NextStep(img: seq<Byte>, es: Entries, ns: Nodes, off: nat, self: nat, parent: nat)
    requires es.Cons? && !es.e.Gone? && Fits(ns) && ns.Node? && ns.kind != Special && off < |img|
    requires ns == Lay(es, off, self, parent) && ns.next == Lay(es.rest, off + EntryExtent(es.e), self, parent)
    requires FirstOffset(ns.next, 0) % 16 == 0
    requires ReadHead(img, off) == Some(HeadOf(ns))
    requires ReadEntry(img, off, HeadOf(ns), self, parent) == Some(CleanEntry(es.e))
    requires ReadsBack(img, es.rest, off + EntryExtent(es.e), self, parent)
    ensures ReadsBack(img, es, off, self, parent)
  {
    hide ReadHead, ReadEntry, ReadList, CleanEntry, EntryExtent, NextField, HeadOf, Fits, Clean, Lay, ReadsBack;
    HeadNext(ns);
    NextWhere(img, es, ns, off, self, parent);
    CleanStep(es);
    ReadsOn(img, es, off, self, parent);
    hide *;
    ReadListCons(img, off, self, parent, HeadOf(ns), CleanEntry(es.e), Clean(es.rest));
  }

  /** A next pointer of zero means that nothing is left; any other leads to the rest. */
  lemma NextWhere(img: seq<Byte>, es: Entries, ns: Nodes, off: nat, self: nat, parent: nat)
    requires es.Cons? && !es.e.Gone? && ns.Node? && ns.next == Lay(es.rest, off + EntryExtent(es.e), self, parent)
    requires ReadsBack(img, es.rest, off + EntryExtent(es.e), self, parent)
    ensures var next := FirstOffset(ns.next, 0);
            if next == 0 then Clean(es.rest) == Nil
            else off < next && ReadList(img, next, self, parent) == Some(Clean(es.rest))
  {
    hide ReadList, Clean, EntryExtent, Lay;
    CleanStep(es);
  }

  lemma HeadNext(ns: Nodes)
    requires Fits(ns) && ns.Node? && ns.kind != Special && FirstOffset(ns.next, 0) % 16 == 0
    ensures HeadOf(ns).nextfh / 16 * 16 == FirstOffset(ns.next, 0)
  {
    NextFieldParts(FirstOffset(ns.next, 0), ns.kind, ns.exec);
  }

  lemma ReadsOn(img: seq<Byte>, es: Entries, off: nat, self: nat, parent: nat)
    ensures Lay(es, off, self, parent).Node? && ReadList(img, off, self, parent) == Some(Clean(es))
            ==> ReadsBack(img, es, off, self, parent)
  {
  }

  lemma NextFits(ns: Nodes)
    requires Fits(ns) && ns.Node?
    ensures FirstOffset(ns.next, 0) % 16 == 0
  {
    assert Fits(ns.next);
  }

  lemma CleanStep(es: Entries)
    requires es.Cons? && !es.e.Gone?
    ensures Clean(es) == Cons(CleanEntry(es.e), Clean(es.rest)) && EntryExtent(es.e) > 0
  {
  }

  lemma LinkEntry(img: seq<Byte>, e: Entry, off: nat, h: Head, self: nat, parent: nat)
    requires (e.Dot? || e.DotDot?) && h.nextfh % 8 == 0
    requires h.name == NameOf(e) && h.spec == TargetOf(e, self, parent)
    ensures ReadEntry(img, off, h, self, parent) == Some(CleanEntry(e))
  {
    hide ReadList, Clean, FileBytes;
  }

  lemma FileEntry(img: seq<Byte>, e: Entry, off: nat, h: Head, self: nat, parent: nat)
    requires e.File? && h.nextfh % 8 == 2 && h.nextfh / 8 % 2 == ExecBit(Regular, e.exec)
    requires h.name == e.name && h.size == e.size
    requires Holds(img, off + h.len, FileBytes(e.size, e.readable))
    ensures ReadEntry(img, off, h, self, parent) == Some(CleanEntry(e))
  {
    hide ReadList, Clean, FileBytes;
  }

  lemma DirEntry(img: seq<Byte>, e: Entry, off: nat, h: Head, self: nat, parent: nat)
    requires e.Dir? && h.nextfh % 8 == 1 && h.nextfh / 8 % 2 == ExecBit(Directory, e.exec) && off < |img|
    requires h.name == e.name
    requires h.spec == FirstOffset(Lay(e.entries, off + Space(e.name, 0), off, self), off)
    requires ReadsBack(img, e.entries, off + Space(e.name, 0), off, self)
    ensures ReadEntry(img, off, h, self, parent) == Some(CleanEntry(e))
  {
    hide ReadList, Clean, FileBytes, Lay;
    var kids := Lay(e.entries, off + Space(e.name, 0), off, self);
    LayOffset(e.entries, off + Space(e.name, 0), off, self);
  }

  lemma LayOffset(es: Entries, off: nat, self: nat, parent: nat)
    ensures Lay(es, off, self, parent).Node? ==> Lay(es, off, self, parent).offset == off
  {
  }

  lemma EntryReadBack(img: seq<Byte>, e: Entry, ns: Nodes, off: nat, self: nat, parent: nat)
    requires IsNodeOf(ns, e, off, self, parent) && Fits(ns) && !e.Gone? && !e.Other?
    requires FirstOffset(ns.next, 0) % 16 == 0 && off < |img|
    requires ns.kind == Regular ==> Holds(img, off + HeadOf(ns).len, FileBytes(ns.size, ns.readable))
    requires e.Dir? ==> ReadsBack(img, e.entries, off + Space(e.name, 0), off, self)
    ensures ReadEntry(img, off, HeadOf(ns), self, parent) == Some(CleanEntry(e))
  {
    var h := HeadOf(ns);
    NextFieldParts(FirstOffset(ns.next, 0), ns.kind, ns.exec);
    hide Fits, NextField, ReadList, ReadEntry, Clean, CleanEntry, FileBytes, ReadsBack, Holds, Space, Lay;
    match e {
      case File(_, _, _, _) => FileEntry(img, e, off, h, self, parent);
      case Dir(_, _, _) => DirEntry(img, e, off, h, self, parent);
      case _ => LinkEntry(img, e, off, h, self, parent);
    }
  }

  // ----- The volume -----

  /** A whole image: magic, size and checksum of the volume header, its name, and the root listing. */
  function ReadVolume(img: seq<Byte>): Option<(seq<Byte>, Entries)> {
    var _ :- Need(|img| >= 16 && FromBe32(img) == 0x2d72_6f6d && FromBe32(img[4..]) == 0x3166_732d);
    var size := FromBe32(img[8..]);
    var _ :- Need(size <= |img| && WordSum(img[..Min(512, size)]) % 0x1_0000_0000 == 0);
    var name :- NameAt(img, 16);
    var first := 16 + Align16(|name| + 1);
    var listing :- ReadList(img, first, first, first);
    Some((name, listing))
  }

  /** Holding back and patching the first 512 bytes changes bytes 12 to 15 and nothing else. */
  lemma StagedParts(s: seq<Byte>)
    requires |s| >= 512
    ensures |Staged(s)| == |s| && Staged(s)[..12] == s[..12] && Staged(s)[16..] == s[16..]
    ensures 16 <= FromBe32(s[8..]) ==> SumsToZero(Staged(s)[..Min(512, FromBe32(s[8..]))])
  {
    var n := Min(512, FromBe32(s[8..]));
    var f := FixSum(s[..512], n);
    assert Staged(s)[16..] == f[16..] + s[512..] && s[16..] == s[..512][16..] + s[512..];
    assert Staged(s)[..12] == f[..12] && s[..12] == s[..512][..12];
    if 16 <= n {
      FixSumZero(s[..512], n);
      assert Staged(s)[..n] == f[..n];
    }
  }

  lemma HoldsBehindPatch(s: seq<Byte>, at: nat, part: seq<Byte>)
    requires |s| >= 512 && at >= 16 && Holds(s, at, part)
    ensures Holds(Staged(s), at, part)
  {
    StagedParts(s);
    var i := Staged(s);
    hide Staged;
    forall k | 0 <= k < |part|
      ensures i[at + k] == part[k]
    {
      assert i[16..][at - 16 + k] == i[at + k] && s[16..][at - 16 + k] == s[at + k];
      assert s[at..at + |part|][k] == s[at + k];
    }
    assert i[at..at + |part|] == part;
  }

  lemma StreamParts(volume: seq<Byte>, listing: Entries)
    requires LastOffset(volume, listing) < 0x8000_0000 && Fits(RootNodes(volume, listing))
    ensures var s := Stream(volume, listing);
            && Holds(s, 0, VolumeHeader(volume, LastOffset(volume, listing)))
            && Holds(s, Space(volume, 0), Bytes(RootNodes(volume, listing)))
  {
    var head := VolumeHeader(volume, LastOffset(volume, listing));
    var nodes, fill := Bytes(RootNodes(volume, listing)), Zeros(Padding(LastOffset(volume, listing)));
    var s := Stream(volume, listing);
    assert s == head + nodes + fill && |head| == Space(volume, 0);
    hide *;
    WholeHeld(head + nodes + fill);
    HoldsParts(s, 0, head + nodes, fill);
    HoldsParts(s, 0, head, nodes);
  }

  lemma WholeHeld(s: seq<Byte>)
    ensures Holds(s, 0, s)
  {
  }

  /** What the reader first looks at: the magic, the size and the name. */
  lemma VolumeWords(s: seq<Byte>, volume: seq<Byte>, lastoff: Word)
    requires 0 !in volume && Holds(s, 0, VolumeHeader(volume, lastoff))
    ensures Holds(s, 0, Be32(0x2d72_6f6d) + Be32(0x3166_732d) + Be32(lastoff))
    ensures FromBe32(s) == 0x2d72_6f6d && FromBe32(s[4..]) == 0x3166_732d && FromBe32(s[8..]) == lastoff
    ensures Holds(s, 16, PaddedName(volume))
  {
    var a, b, c, ck := Be32(0x2d72_6f6d), Be32(0x3166_732d), Be32(lastoff), Be32(0x5555_5555);
    var name := PaddedName(volume);
    assert VolumeHeader(volume, lastoff) == a + b + c + ck + name;
    hide *;
    HoldsParts(s, 0, a + b + c + ck, name);
    HoldsParts(s, 0, a + b + c, ck);
    HoldsParts(s, 0, a + b, c);
    HoldsParts(s, 0, a, b);
    WordAt(s, 0, 0x2d72_6f6d);
    WordAt(s, 4, 0x3166_732d);
    WordAt(s, 8, lastoff);
    assert s[0..] == s;
  }

  lemma NamePadded(s: seq<Byte>, at: nat, name: seq<Byte>)
    requires 0 !in name && Holds(s, at, PaddedName(name))
    ensures NameAt(s, at) == Some(name)
  {
    var fill := Zeros(Align16(|name| + 1) - |name|);
    assert fill == [0] + fill[1..];
    assert PaddedName(name) == (name + [0]) + fill[1..];
    HoldsParts(s, at, name + [0], fill[1..]);
    NameFound(s, at, name);
  }

  /** The words before the checksum survive the patch. */
  lemma WordsBeforePatch(s: seq<Byte>, w: seq<Byte>)
    requires |s| >= 512 && |w| == 12 && Holds(s, 0, w)
    ensures Holds(Staged(s), 0, w)
  {
    StagedParts(s);
    hide Staged;
    assert Staged(s)[0..12] == Staged(s)[..12] && s[0..12] == s[..12];
  }

  lemma RootStored(volume: seq<Byte>, listing: Entries, img: seq<Byte>)
    requires Fits(RootNodes(volume, listing)) && Holds(img, Space(volume, 0), Bytes(RootNodes(volume, listing)))
    ensures StoredAt(img, listing, Space(volume, 0), Space(volume, 0), Space(volume, 0))
    ensures Space(volume, 0) == 16 + Align16(|volume| + 1)
  {
    hide Lay, Bytes, Fits, Holds;
  }

  lemma ReadVolumeSteps(img: seq<Byte>, volume: seq<Byte>, size: Word, first: nat, listing: Entries)
    requires |img| >= 16 && FromBe32(img) == 0x2d72_6f6d && FromBe32(img[4..]) == 0x3166_732d
    requires FromBe32(img[8..]) == size && size <= |img| && SumsToZero(img[..Min(512, size)])
    requires NameAt(img, 16) == Some(volume) && first == 16 + Align16(|volume| + 1)
    requires ReadList(img, first, first, first) == Some(listing)
    ensures ReadVolume(img) == Some((volume, listing))
  {
    hide ReadList, NameAt, WordSum, FromBe32;
  }

  lemma RootReadsBack(img: seq<Byte>, listing: Entries, off: nat)
    requires ReadsBack(img, listing, off, off, off) && listing.Cons? && !listing.e.Gone?
    ensures ReadList(img, off, off, off) == Some(Clean(listing))
  {
    LayStep(listing, off, off, off);
    hide Lay, ReadList, Clean;
  }

  /** The header of a stream that is long enough to be written, as it reads from the image. */
  lemma VolumeReadBack(volume: seq<Byte>, listing: Entries, s: seq<Byte>)
    requires LastOffset(volume, listing) < 0x8000_0000 && Fits(RootNodes(volume, listing))
    requires s == Stream(volume, listing) && |s| >= 512 && 0 !in volume && LastOffset(volume, listing) >= 16
    ensures var img, lastoff := Staged(s), LastOffset(volume, listing);
            && |img| == |s|
            && FromBe32(img) == 0x2d72_6f6d && FromBe32(img[4..]) == 0x3166_732d && FromBe32(img[8..]) == lastoff
            && SumsToZero(img[..Min(512, lastoff)]) && NameAt(img, 16) == Some(volume)
            && Holds(img, Space(volume, 0), Bytes(RootNodes(volume, listing)))
  {
    hide *;
    var img, lastoff := Staged(s), LastOffset(volume, listing);
    var a, b, c := Be32(0x2d72_6f6d), Be32(0x3166_732d), Be32(lastoff);
    StreamParts(volume, listing);
    VolumeWords(s, volume, lastoff);
    StagedParts(s);
    WordsBeforePatch(s, a + b + c);
    HoldsParts(img, 0, a + b, c);
    HoldsParts(img, 0, a, b);
    WordAt(img, 0, 0x2d72_6f6d);
    WordAt(img, 4, 0x3166_732d);
    WordAt(img, 8, lastoff);
    assert img[0..] == img;
    HoldsBehindPatch(s, 16, PaddedName(volume));
    NamePadded(img, 16, volume);
    HoldsBehindPatch(s, Space(volume, 0), Bytes(RootNodes(volume, listing)));
  }

  /**
   * A reader of the finished image recovers the volume name and exactly the tree that went in, if and only if there
   * are only directories and regular files in it.
   */
  lemma ImageReadsBack(volume: seq<Byte>, listing: Entries)
    requires 0 !in volume && listing.Cons? && !listing.e.Gone? && NulFree(listing)
    requires LastOffset(volume, listing) < 0x8000_0000 && Fits(RootNodes(volume, listing))
    ensures var r := ReadVolume(Image(volume, listing));
            r.Some? && r.value.0 == volume && ReadAs(listing, r.value.1) <==> NoOther(listing)
  {
    hide *;
    CleanReadAs(listing);
    if NoOther(listing) {
      TreeReadsBack(volume, listing);
    } else {
      var r := ReadVolume(Image(volume, listing));
      if r.Some? && ReadAs(listing, r.value.1) {
        ReadAsClean(listing, r.value.1);
      }
    }
  }

  lemma TreeReadsBack(volume: seq<Byte>, listing: Entries)
    requires 0 !in volume && listing.Cons? && !listing.e.Gone? && NoOther(listing) && NulFree(listing)
    requires LastOffset(volume, listing) < 0x8000_0000 && Fits(RootNodes(volume, listing))
    ensures ReadVolume(Image(volume, listing)) == Some((volume, Clean(listing)))
  {
    hide *;
    var s, first, lastoff := Stream(volume, listing), Space(volume, 0), LastOffset(volume, listing);
    ImageFacts(volume, listing);
    ImageLength(volume, listing);
    VolumeReadBack(volume, listing, s);
    RootStored(volume, listing, Staged(s));
    ListReadBack(Staged(s), listing, first, first, first);
    RootReadsBack(Staged(s), listing, first);
    ReadVolumeSteps(Staged(s), volume, lastoff, first, Clean(listing));
  }

  lemma ImageFacts(volume: seq<Byte>, listing: Entries)
    requires LastOffset(volume, listing) < 0x8000_0000 && Fits(RootNodes(volume, listing))
    ensures Image(volume, listing) == Staged(Stream(volume, listing))
    ensures var lastoff := LastOffset(volume, listing);
            && Space(volume, 0) <= lastoff && 16 <= lastoff
            && lastoff <= lastoff + Padding(lastoff) && lastoff + Padding(lastoff) >= 1024
  {
    hide Stream, Staged, Space, Extent;
  }
}
