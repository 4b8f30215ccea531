// The output side of genromfs: a file whose first 512 bytes are staged until
// the volume checksum can be put into them.

module RomfsWriter {
  import opened Common
  import opened RomfsFormat
  import opened RomfsImage

  // ----- Checksums in place -----

  /** `romfs_checksum`: 32-bit sum of the first size/4 big-endian words of a buffer. */
  method RomfsChecksum(buf: array<Byte>, size0: nat) returns (sum: Word)
    requires size0 <= buf.Length
    ensures sum == WordSum(buf[..size0]) % 0x1_0000_0000
  {
    var size, ptr := size0 / 4, 0;
    sum := 0;
    while size > 0
      invariant 0 <= ptr && 0 <= size && ptr + 4 * size <= size0 < ptr + 4 * size + 4
      invariant (sum + WordSum(buf[ptr..size0])) % 0x1_0000_0000 == WordSum(buf[..size0]) % 0x1_0000_0000
    {
      var w := FromBe32(buf[ptr..ptr + 4]);
      ghost var rest := buf[ptr..size0];
      assert rest[4..] == buf[ptr + 4..size0] && FromBe32(rest) == w;
      SumStep(sum, w, WordSum(rest[4..]));
      sum := (sum + w) % 0x1_0000_0000;
      ptr := ptr + 4;
      size := size - 1;
    }
  }

  lemma SumStep(sum: nat, w: nat, rest: nat)
    ensures ((sum + w) % 0x1_0000_0000 + rest) % 0x1_0000_0000 == (sum + (w + rest)) % 0x1_0000_0000
  {
  }

  /** `fixsum` on a buffer. */
  method Fixsum(buf: array<Byte>, size: nat)
    requires 16 <= buf.Length && size <= buf.Length
    modifies buf
    ensures buf[..] == FixSum(old(buf[..]), size)
  {
    ghost var s := buf[..];
    StoreWord(buf, 12, 0);
    ghost var zeroed := buf[..];
    var sum := RomfsChecksum(buf, size);
    assert buf[..size] == zeroed[..size];
    StoreWord(buf, 12, (0x1_0000_0000 - sum as int) % 0x1_0000_0000);
    assert zeroed == s[..12] + Be32(0) + s[16..];
    assert zeroed[..12] == s[..12] && zeroed[16..] == s[16..];
  }

  method StoreWord(buf: array<Byte>, at: nat, x: Word)
    requires at + 4 <= buf.Length
    modifies buf
    ensures buf[..] == old(buf[..at]) + Be32(x) + old(buf[at + 4..])
  {
    var w := Be32(x);
    buf[at], buf[at + 1], buf[at + 2], buf[at + 3] := w[0], w[1], w[2], w[3];
  }

  // ----- The output -----

  lemma StagedGrows(s: seq<Byte>, data: seq<Byte>)
    requires |s| >= 512
    ensures Staged(s + data) == Staged(s) + data
  {
    assert (s + data)[..512] == s[..512] && (s + data)[512..] == s[512..] + data;
    assert FromBe32((s + data)[8..]) == FromBe32(s[8..]);
  }

  class Output {
    var atoffs: nat
    var out: seq<Byte>                // what has reached the file
    const fixbuf: array<Byte>
    const bigbuf: array<Byte>
    ghost var stream: seq<Byte>       // everything dumped so far
    ghost var flushes: nat            // how often the staging buffer was written
    ghost var astray: bool            // some header did not go to the offset its node was given

    ghost predicate Valid()
      reads this, fixbuf
    {
      && fixbuf.Length == 512 && bigbuf.Length == 4096 && fixbuf != bigbuf
      && atoffs == |stream|
      && out == Staged(stream)
      && (atoffs < 512 ==> fixbuf[..atoffs] == stream)
      && flushes == (if atoffs < 512 then 0 else 1)
    }

    constructor ()
      ensures Valid() && stream == [] && !astray && fresh(fixbuf) && fresh(bigbuf)
    {
      atoffs, out, stream, flushes, astray := 0, [], [], 0, false;
      fixbuf, bigbuf := new Byte[512](_ => 0), new Byte[4096](_ => 0);
    }

    /** `dumpdata`: stage, flush once, then write straight through. */
    method DumpData(data: seq<Byte>)
      requires Valid()
      modifies `atoffs, `out, `stream, `flushes, fixbuf
      ensures Valid() && stream == old(stream) + data
    {
      var len := |data|;
      if len == 0 {
        assert stream + data == stream;
        return;
      }
      if atoffs >= 512 {
        StagedGrows(stream, data);
        out := out + data;
        atoffs := atoffs + len;
        stream := stream + data;
        return;
      }
      var tocopy := if len < 512 - atoffs then len else 512 - atoffs;
      ghost var before := stream;
      CopyIn(data[..tocopy], atoffs);
      atoffs := atoffs + tocopy;
      stream := stream + data[..tocopy];
      assert data == data[..tocopy] + data[tocopy..];
      len := len - tocopy;
      if atoffs == 512 {
        Flush();
      }
      if len > 0 {
        StagedGrows(stream, data[tocopy..]);
        out := out + data[tocopy..];
        atoffs := atoffs + len;
        stream := stream + data[tocopy..];
      }
      assert stream == before + data;
    }

    /** The staging buffer is full: fix the volume checksum and write it. */
    method Flush()
      requires fixbuf.Length == 512 && |stream| == 512 && fixbuf[..] == stream && out == []
      modifies this`out, this`flushes, fixbuf
      ensures out == Staged(stream) && flushes == old(flushes) + 1
    {
      var size := FromBe32(fixbuf[8..12]);
      assert stream[..512] == stream && FromBe32(stream[8..]) == size;
      Fixsum(fixbuf, if 512 < size then 512 else size);
      out := out + fixbuf[..];
      flushes := flushes + 1;
    }

    /** Data into the staging buffer from place `at` on. */
    method CopyIn(data: seq<Byte>, at: nat)
      requires fixbuf.Length == 512 && at + |data| <= 512
      modifies fixbuf
      ensures fixbuf[..at + |data|] == old(fixbuf[..at]) + data
    {
      for i := 0 to |data|
        invariant fixbuf[..at] == old(fixbuf[..at])
        invariant fixbuf[at..at + i] == data[..i]
      {
        fixbuf[at + i] := data[i];
      }
    }

    /** Data into the file buffer from place `at` on. */
    method Compose(data: seq<Byte>, at: nat)
      requires bigbuf.Length == 4096 && at + |data| <= 4096
      modifies bigbuf
      ensures bigbuf[..at + |data|] == old(bigbuf[..at]) + data
    {
      for i := 0 to |data|
        invariant bigbuf[..at] == old(bigbuf[..at])
        invariant bigbuf[at..at + i] == data[..i]
      {
        bigbuf[at + i] := data[i];
      }
    }

    method DumpZero(len: nat)
      requires Valid() && len <= 4096
      modifies `atoffs, `out, `stream, `flushes, fixbuf, bigbuf
      ensures Valid() && stream == old(stream) + Zeros(len)
    {
      DumpChunk(Zeros(len));
    }

    /** What goes before a node that had to be aligned. */
    method DumpPad(pad: nat)
      requires Valid() && pad <= 4096
      modifies `atoffs, `out, `stream, `flushes, fixbuf, bigbuf
      ensures Valid() && stream == old(stream) + Zeros(pad)
    {
      if pad != 0 {
        DumpZero(pad);
      } else {
        assert stream + Zeros(0) == stream;
      }
    }

    /** The header and the padded name, side by side in the big buffer. */
    method ComposeRi(ri: seq<Byte>, name: seq<Byte>) returns (len: nat)
      requires bigbuf.Length == 4096 && |ri| == 16 && 16 + Align16(|name| + 1) <= 4096
      modifies bigbuf
      ensures len == 16 + Align16(|name| + 1) && bigbuf[..len] == ri + PaddedName(name)
    {
      len := |name| + 1;
      Compose(ri, 0);
      assert bigbuf[..0] == [];
      Compose(name + [0], 16);
      var fill := if len % 16 == 0 then 0 else 16 - len % 16;
      assert PaddedName(name) == (name + [0]) + Zeros(fill);
      if len % 16 != 0 {
        Compose(Zeros(fill), 16 + len);
        len := len + fill;
      }
      len := len + 16;
    }

    /** `dumpri`: compose header and padded name, fix the checksum unless the node is the volume itself. */
    method DumpRi(nextfh: Word, spec: Word, size: Word, name: seq<Byte>, offset: nat)
      requires Valid() && 16 + Align16(|name| + 1) <= 4096
      modifies this, fixbuf, bigbuf
      ensures Valid()
      ensures stream == old(stream) + if offset != 0 then Header(nextfh, spec, size, name)
                                      else RawHeader(nextfh, spec, size, name)
      ensures astray == (old(astray) || old(|stream|) != offset)
    {
      hide Staged, FixSum, Be32;
      var len := ComposeRi(Be32(nextfh) + Be32(spec) + Be32(size) + Be32(0x5555_5555), name);
      assert bigbuf[..len] == RawHeader(nextfh, spec, size, name);
      if offset != 0 {
        ghost var whole := bigbuf[..];
        Fixsum(bigbuf, len);
        FixSumPrefix(whole, len);
        assert bigbuf[..len] == Header(nextfh, spec, size, name);
      }
      astray := astray || atoffs != offset;
      DumpData(bigbuf[..len]);
    }

    /** `fread`: some bytes, at most as many as asked for; none only when there are no more. */
    method Fread(readable: seq<Byte>, offset: nat, avail: nat) returns (len: nat)
      requires avail > 0
      ensures len <= avail && offset + len <= (if offset < |readable| then |readable| else offset)
      ensures len == 0 ==> offset >= |readable|
    {
      if offset >= |readable| {
        return 0;
      }
      var most := if |readable| - offset < avail then |readable| - offset else avail;
      len :| 1 <= len <= most;
    }

    /** The reading loop: whatever arrives, in chunks of whatever length, until there is no more or enough. */
    method DumpReadable(max: nat, readable: seq<Byte>) returns (offset: nat)
      requires Valid()
      modifies `atoffs, `out, `stream, `flushes, fixbuf, bigbuf
      ensures Valid()
      ensures offset == Min(max, |readable|) && stream == old(stream) + readable[..offset]
    {
      hide Staged, Valid;
      ghost var before := stream;
      offset := 0;
      while offset < max
        invariant Valid()
        invariant offset <= max && offset <= |readable| && stream == before + readable[..offset]
      {
        var avail := if max - offset < 4096 then max - offset else 4096;
        var len := Fread(readable, offset, avail);
        if len == 0 {
          break;
        }
        DumpChunk(readable[offset..offset + len]);
        assert readable[..offset] + readable[offset..offset + len] == readable[..offset + len];
        offset := offset + len;
      }
    }

    method DumpChunk(data: seq<Byte>)
      requires Valid() && |data| <= 4096
      modifies `atoffs, `out, `stream, `flushes, fixbuf, bigbuf
      ensures Valid() && stream == old(stream) + data
    {
      hide Staged;
      Compose(data, 0);
      assert bigbuf[..0] == [];
      DumpData(bigbuf[..|data|]);
    }

    /** The filling loop. */
    method DumpZeros(offset0: nat, max: nat)
      requires Valid() && offset0 <= max
      modifies `atoffs, `out, `stream, `flushes, fixbuf, bigbuf
      ensures Valid()
      ensures stream == old(stream) + Zeros(max - offset0)
    {
      hide Staged, Valid;
      ghost var before := stream;
      var offset := offset0;
      while offset < max
        invariant Valid()
        invariant offset0 <= offset <= max && stream == before + Zeros(offset - offset0)
      {
        var avail := if max - offset < 4096 then max - offset else 4096;
        DumpZero(avail);
        assert Zeros(offset - offset0) + Zeros(avail) == Zeros(offset + avail - offset0);
        offset := offset + avail;
      }
    }

    /** The contents of a regular file: what can be read of it, then zeros up to a multiple of 16. */
    method DumpFile(size: nat, readable: seq<Byte>)
      requires Valid()
      modifies `atoffs, `out, `stream, `flushes, fixbuf, bigbuf
      ensures Valid()
      ensures stream == old(stream) + FileBytes(size, readable) + Zeros(Align16(size) - size)
      ensures IsContents(stream[old(|stream|)..], Align16(size), if |readable| < size then readable else readable[..size])
    {
      hide Staged, Valid;
      FileContents(size, readable);
      var offset := DumpReadable(size, readable);
      DumpZeros(offset, Align16(size));
      assert readable[..offset] + Zeros(Align16(size) - offset)
          == FileBytes(size, readable) + Zeros(Align16(size) - size);
    }
  }

  /** Fixing a header at the front of a larger buffer. */
  lemma FixSumPrefix(s: seq<Byte>, n: nat)
    requires 16 <= n <= |s|
    ensures FixSum(s, n)[..n] == FixSum(s[..n], n)
  {
    var t := s[..n];
    assert (t[..12] + Be32(0) + t[16..])[..n] == (s[..12] + Be32(0) + s[16..])[..n];
    assert s[..12] == t[..12];
  }
}
