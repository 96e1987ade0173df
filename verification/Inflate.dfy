/**
  The decompressor: output buffer, block parsers and the top-level loop
  (kernel/src/include/ssfn.h:590-763), proved against the reference inflate of InflateSpec.
 */
module Inflate {
  import opened Bits
  import opened BitStream
  import opened Canonical
  import opened HuffmanTable
  import opened InflateSpec
  import opened BitReader

  class Decoder {
    const reader: Reader
    const zLength: Huffman
    const zDistance: Huffman
    const stale: Stale     // what the output buffer's memory holds before it is written
    var buf: array<Byte>   // zout_start up to zout_end
    var zout: nat          // index of the next output byte
    ghost var out: Output  // everything emitted so far

    constructor (input: seq<Byte>, ghost end: nat, stale: Stale)
      requires end % 8 == 0 && end + 32 <= 8 * |input|
      ensures Valid() && reader.input == input && reader.end == end && reader.Pos() == 0
      ensures out == NO_OUTPUT && this.stale == stale
      ensures fresh(reader) && fresh(buf) && fresh(zLength.Repr()) && fresh(zDistance.Repr())
    {
      reader := new Reader(input, end);
      zLength := new Huffman();
      zDistance := new Huffman();
      this.stale := stale;
      var memory := OldMemory(8, stale);
      buf := memory;
      zout := 0;
      out := NO_OUTPUT;
    }

    ghost predicate Separate()
      reads this
    {
      && buf !in zLength.Repr() && buf !in zDistance.Repr() && zLength.Repr() !! zDistance.Repr()
      && zLength.Shape() && zDistance.Shape()
    }

    /** The buffer has the size it must have for output o: eight, or what the font header found declares. */
    ghost predicate Sized(o: Output)
      reads this
    {
      if |o.bytes| <= 8 then buf.Length == 8
      else HasMagic(FontHeader(o, stale)) && buf.Length == DeclaredSize(FontHeader(o, stale))
    }

    /** The buffer holds the output, and old memory behind it. */
    ghost predicate Written()
      reads this, buf
    {
      && zout <= buf.Length && buf[..zout] == out.bytes && (zout <= 8 ==> out.begun == 8)
      && (forall i :: zout <= i < buf.Length ==> buf[i] == stale(i))
    }

    ghost predicate Holds()
      reads this, buf
    {
      Written() && Sized(out)
    }

    ghost predicate Valid()
      reads this, buf, reader
    {
      Separate() && Holds() && reader.Valid()
    }

    // ----- Output -----

    /** Enlarges the eight-byte buffer to the size that a font header in it declares. */
    method Expand() returns (ok: bool)
      requires Separate() && Written() && zout <= 8 <= buf.Length
      requires buf.Length == 8 && HasMagic(buf[..8]) ==> DeclaredSize(buf[..8]) >= 8
      modifies this`buf
      ensures Separate() && Written() && (buf == old(buf) || fresh(buf))
      ensures ok <==> old(buf.Length) == 8 && HasMagic(old(buf[..8]))
      ensures ok ==> buf.Length == DeclaredSize(old(buf[..8]))
    {
      if buf.Length != 8 { return false; }
      if buf[0] != 'S' as int || buf[1] != 'F' as int || buf[2] != 'N' as int { return false; }
      var limit := Word16(buf[4], buf[5]) + 0x1_0000 * Word16(buf[6], buf[7]);
      var q := OldMemory(limit, stale);
      forall i | 0 <= i < 8 { q[i] := buf[i]; }
      buf := q;
      ok := true;
    }

    /** Makes room for a token's bytes. */
    method Reserve(n: nat, ghost chunk: seq<Byte>) returns (ok: bool)
      requires Separate() && Holds() && n == |chunk| && Admissible(Emit(out, chunk), stale)
      modifies this`buf
      ensures Separate() && Written() && (buf == old(buf) || fresh(buf))
      ensures ok <==> Storable(Emit(out, chunk), stale)
      ensures ok ==> zout + n <= buf.Length && Sized(Emit(out, chunk))
    {
      EmitKeepsHeader(out, chunk, stale);
      if zout + n > buf.Length {
        assert zout <= 8 ==> buf[..8] == FontHeader(Emit(out, chunk), stale);
        ok := Expand();
      } else {
        ok := true;
      }
    }

    /** The bytes of chunk have been written behind the output. */
    ghost predicate Appended(before: seq<Byte>, chunk: seq<Byte>)
      reads this, buf
    {
      && zout <= buf.Length && buf[..zout] == before + chunk
      && (forall i :: zout <= i < buf.Length ==> buf[i] == stale(i))
    }

    method EmitLiteral(b: Byte) returns (ok: bool)
      requires Separate() && Holds() && Admissible(Emit(out, [b]), stale)
      modifies this`buf, this`zout, this`out, buf
      ensures Separate() && (buf == old(buf) || fresh(buf))
      ensures ok <==> Storable(Emit(old(out), [b]), stale)
      ensures ok ==> Holds() && out == Emit(old(out), [b])
    {
      hide Storable, Admissible, FontHeader, HasMagic, DeclaredSize;
      ok := Reserve(1, [b]);
      if ok {
        buf[zout] := b;
        zout := zout + 1;
        out := Emit(out, [b]);
      }
    }

    /** The copy loop of a match; distance 1 repeats one byte, and distance 0 leaves the old memory as it is. */
    method CopyMatch(len: nat, dist: nat)
      requires zout + len <= buf.Length && dist <= zout && forall i :: zout <= i < buf.Length ==> buf[i] == stale(i)
      modifies this`zout, buf
      ensures Appended(old(buf[..zout]), MatchBytes(old(buf[..zout]), len, dist, stale)) && zout == old(zout) + len
    {
      hide MatchBytes;
      ghost var start, text, copy := zout, buf[..zout], MatchBytes(buf[..zout], len, dist, stale);
      var i := 0;
      assert text + copy[..0] == text;
      if dist == 1 {
        var v := buf[zout - 1];
        while i < len
          invariant 0 <= i <= len && zout == start + i
          invariant Appended(text, copy[..i])
        {
          RunByte(text, len, i, stale);
          Append(v, text, copy, i);
          i := i + 1;
        }
      } else {
        var p := zout - dist;
        while i < len
          invariant 0 <= i <= len && zout == start + i && p == start - dist + i
          invariant Appended(text, copy[..i])
        {
          CopyStep(text, len, dist, i, buf[..zout], stale);
          Append(buf[p], text, copy, i);
          p := p + 1;
          i := i + 1;
        }
      }
      assert copy[..len] == copy;
    }

    /** *zout++ = v, where v is the next byte of the copy. */
    method Append(v: Byte, ghost text: seq<Byte>, ghost copy: seq<Byte>, ghost i: nat)
      requires zout < buf.Length && i < |copy| && v == copy[i] && Appended(text, copy[..i])
      modifies this`zout, buf
      ensures zout == old(zout) + 1 && Appended(text, copy[..i + 1])
    {
      buf[zout] := v;
      zout := zout + 1;
      assert buf[..zout] == old(buf[..zout]) + [v];
      assert copy[..i] + [v] == copy[..i + 1];
    }

    method EmitMatch(len: nat, dist: nat) returns (ok: bool)
      requires Separate() && Holds() && dist <= |out.bytes|
      requires Admissible(Emit(out, MatchBytes(out.bytes, len, dist, stale)), stale)
      modifies this`buf, this`zout, this`out, buf
      ensures Separate() && (buf == old(buf) || fresh(buf))
      ensures ok <==> Storable(Emit(old(out), MatchBytes(old(out.bytes), len, dist, stale)), stale)
      ensures ok ==> Holds() && out == Emit(old(out), MatchBytes(old(out.bytes), len, dist, stale))
    {
      hide Storable, Admissible, FontHeader, HasMagic, DeclaredSize, MatchBytes;
      ghost var chunk := MatchBytes(out.bytes, len, dist, stale);
      ok := Reserve(len, chunk);
      if ok {
        CopyMatch(len, dist);
        out := Emit(out, chunk);
      }
    }

    /** The copy loop of a stored block. */
    method CopyStored(from: nat, len: nat)
      requires zout + len <= buf.Length && from + len <= |reader.input|
      modifies buf
      ensures buf[..zout + len] == old(buf[..zout]) + reader.input[from..from + len]
      ensures forall i :: zout + len <= i < buf.Length ==> buf[i] == old(buf[i])
    {
      for k := 0 to len
        invariant buf[..zout + k] == old(buf[..zout]) + reader.input[from..from + len][..k]
        invariant forall i :: zout + k <= i < buf.Length ==> buf[i] == old(buf[i])
      {
        buf[zout + k] := reader.input[from + k];
      }
      assert reader.input[from..from + len][..len] == reader.input[from..from + len];
    }

    method EmitStored(from: nat, len: nat) returns (ok: bool)
      requires Separate() && Holds() && from + len <= |reader.input|
      requires Admissible(Emit(out, reader.input[from..from + len]), stale)
      modifies this`buf, this`zout, this`out, buf
      ensures Separate() && (buf == old(buf) || fresh(buf))
      ensures ok <==> Storable(Emit(old(out), reader.input[from..from + len]), stale)
      ensures ok ==> Holds() && out == Emit(old(out), reader.input[from..from + len])
    {
      hide Storable, Admissible, FontHeader, HasMagic, DeclaredSize;
      ghost var chunk := reader.input[from..from + len];
      ok := Reserve(len, chunk);
      if ok {
        CopyStored(from, len);
        zout := zout + len;
        out := Emit(out, chunk);
      }
    }

    // ----- Compressed blocks -----

    /** Reads a field of n extra bits, if it has any, and adds it to a base. */
    method ReadExtra(base: nat, n: nat) returns (v: nat)
      requires reader.Valid() && n <= 13 && reader.Pos() + n <= reader.end
      modifies reader
      ensures reader.Valid() && reader.Pos() == old(reader.Pos()) + n
      ensures v == base + Lsb(reader.input, old(reader.Pos()), n)
    {
      v := base;
      if n > 0 {
        var extra := reader.Receive(n);
        v := v + extra;
      }
    }

    /** Reads the rest of a match after its length symbol; reports a bad code. */
    method NextMatch(ghost dl: seq<nat>, z: nat) returns (ok: bool, len: nat, dist: nat)
      requires reader.Valid() && zDistance.Represents(dl) && |dl| <= 32 && z < 31
      requires !ReadMatch(dl, reader.input, reader.end, reader.Pos(), z).TruncatedItem?
      modifies reader
      ensures reader.Valid()
      ensures var r := ReadMatch(dl, reader.input, reader.end, old(reader.Pos()), z);
        if r.Match? then ok && len == r.len && dist == r.dist && reader.Pos() == r.pos else !ok
    {
      hide ReadMatch, LengthBase, LengthExtra, DistBase, DistExtra, Decode, Lsb, Matches, Huffman.LengthRows,
          Huffman.SymbolRows, Huffman.FastRows, Kraft, CodeLengths;
      ghost var q := reader.Pos() + LengthExtra(z);
      MatchSteps(dl, reader.input, reader.end, reader.Pos(), z, q);
      len := ReadExtra(LengthBase(z), LengthExtra(z));
      var d := reader.HuffmanDecode(zDistance, dl);
      if d < 0 { return false, len, 0; }
      dist := ReadExtra(DistBase(d), DistExtra(d));
      ok := true;
    }

    /** Reads one item; -1 reports a bad code, and otherwise z, len and dist describe the item. */
    method NextItem(ghost ll: seq<nat>, ghost dl: seq<nat>) returns (z: int, len: nat, dist: nat)
      requires reader.Valid() && zLength.Represents(ll) && zDistance.Represents(dl)
      requires |ll| <= 288 && |dl| <= 32
      requires !ReadItem(ll, dl, reader.input, reader.end, reader.Pos()).TruncatedItem?
      modifies reader
      ensures reader.Valid()
      ensures ItemReturned(ReadItem(ll, dl, reader.input, reader.end, old(reader.Pos())), z, len, dist, reader.Pos())
    {
      hide ReadMatch, Decode, Lsb, Matches, Kraft, Huffman.LengthRows, Huffman.SymbolRows, Huffman.FastRows;
      len, dist := 0, 0;
      z := reader.HuffmanDecode(zLength, ll);
      if z > 256 {
        var ok;
        ok, len, dist := NextMatch(dl, z - 257);
        if !ok { z := -1; }
      }
    }

    lemma HoldsStorable()
      requires Holds()
      ensures Storable(out, stale)
    {}

    /** The symbol loop of a compressed block. */
    method ParseHuffmanBlock(ghost ll: seq<nat>, ghost dl: seq<nat>) returns (ok: bool)
      requires Valid() && zLength.Represents(ll) && zDistance.Represents(dl) && |ll| <= 288 && |dl| <= 32
      requires Decodable(Body(ll, dl, reader.input, reader.end, reader.Pos(), out, stale), stale)
      modifies this`buf, this`zout, this`out, buf, reader
      ensures Separate() && (buf == old(buf) || fresh(buf))
      ensures var r := Body(ll, dl, reader.input, reader.end, old(reader.Pos()), old(out), stale);
        (ok <==> r.Done? && Storable(r.out, stale)) && (ok ==> Valid() && out == r.out && reader.Pos() == r.pos)
    {
      hide Body, ReadItem, Decode, Lsb, Matches, Kraft, CodeLengths, Storable, Admissible, MatchBytes, HasMagic,
          DeclaredSize, FontHeader;
      hide Huffman.LengthRows, Huffman.SymbolRows, Huffman.FastRows;
      ghost var r := Body(ll, dl, reader.input, reader.end, reader.Pos(), out, stale);
      while true
        invariant Valid() && (buf == old(buf) || fresh(buf))
        invariant Body(ll, dl, reader.input, reader.end, reader.Pos(), out, stale) == r
        decreases reader.end - reader.Pos()
      {
        BodyStep(ll, dl, reader.input, reader.end, reader.Pos(), out, stale);
        var z, len, dist := NextItem(ll, dl);
        if z < 256 {
          if z < 0 { return false; }
          ok := EmitLiteral(z);
          if !ok { return; }
        } else {
          if z == 256 {
            HoldsStorable();
            return true;
          }
          if zout < dist { return false; }
          ok := EmitMatch(len, dist);
          if !ok { return; }
        }
      }
    }

    // ----- Stored blocks -----

    /** The header bytes that are already in the bit buffer. */
    method BufferedBytes(ghost i: nat) returns (header: seq<Byte>)
      requires reader.Valid() && reader.numBits % 8 == 0 && reader.numBits <= 24
      requires reader.Pos() == 8 * i && 8 * i + 32 <= reader.end
      modifies reader
      ensures reader.Valid() && reader.numBits == 0 && |header| <= 3 && reader.Pos() == 8 * (i + |header|)
      ensures header == reader.input[i..i + |header|]
    {
      hide Lsb;
      header := [];
      while reader.numBits > 0
        invariant reader.Valid() && reader.numBits % 8 == 0 && reader.numBits <= 24 - 8 * |header|
        invariant reader.Pos() == 8 * (i + |header|) && i + |header| <= |reader.input|
        invariant header == reader.input[i..i + |header|]
        decreases reader.numBits
      {
        ByteIndex(reader.Pos(), i + |header|);
        var b := reader.TakeByte();
        SliceMore(reader.input, i, i + |header|);
        header := header + [b];
      }
    }

    /** Reads the four header bytes: first those already in the bit buffer, then the rest from memory. */
    method ReadHeader() returns (header: seq<Byte>)
      requires reader.Valid() && reader.numBits % 8 == 0 && reader.numBits <= 24
      requires reader.Pos() % 8 == 0 && reader.Pos() + 32 <= reader.end
      modifies reader
      ensures reader.Valid() && reader.numBits == 0 && reader.Pos() == old(reader.Pos()) + 32
      ensures header == reader.input[old(reader.Pos()) / 8..old(reader.Pos()) / 8 + 4]
    {
      hide Lsb;
      ghost var i := reader.Pos() / 8;
      assert reader.Pos() == 8 * i;
      header := BufferedBytes(i);
      while |header| < 4
        invariant reader.Valid() && reader.numBits == 0 && |header| <= 4
        invariant reader.Pos() == 8 * (i + |header|) && i + |header| <= |reader.input|
        invariant header == reader.input[i..i + |header|]
      {
        ByteIndex(reader.Pos(), i + |header|);
        var b := reader.Get8();
        SliceMore(reader.input, i, i + |header|);
        header := header + [b];
      }
    }

    /** A stored block, after its three header bits: at most three whole bytes are still buffered. */
    method ParseUncompressedBlock() returns (ok: bool)
      requires Valid() && reader.numBits <= 31
      requires Decodable(Stored(reader.input, reader.end, reader.Pos(), out), stale)
      modifies this`buf, this`zout, this`out, buf, reader
      ensures Separate() && (buf == old(buf) || fresh(buf))
      ensures var r := Stored(reader.input, reader.end, old(reader.Pos()), old(out));
        (ok <==> r.Done? && Storable(r.out, stale)) && (ok ==> Valid() && out == r.out && reader.Pos() == r.pos)
    {
      hide Lsb, Xor, Pow2, Storable, Admissible, Stored, Word16, HasMagic, DeclaredSize, FontHeader, Decoder.Written,
          Decoder.Sized;
      ghost var q := AlignUp8(reader.Pos());
      StoredSteps(reader.input, reader.end, reader.Pos(), out);
      reader.AlignToByte();
      var header := ReadHeader();
      var len := Word16(header[0], header[1]);
      var nlen := Word16(header[2], header[3]);
      HeaderWords(reader.input, q / 8, header);
      assert Pow2(16) == 0x1_0000 && Xor(len, 0xFFFF) == 0xFFFF - len by {
        Pow2Values();
        WordBound(header[0], header[1]);
        XorOnes(len, 16);
      }
      if nlen != Xor(len, 0xFFFF) { return false; }
      ok := EmitStored(reader.zbuffer, len);
      if ok { reader.Skip(len); }
    }

    // ----- Dynamic codes -----

    /** The lengths of the code-length code. */
    method ReadCodeLengthCode(hclen: nat) returns (c: seq<nat>)
      requires reader.Valid() && hclen <= 19 && reader.Pos() + 3 * hclen <= reader.end
      modifies reader
      ensures reader.Valid() && reader.Pos() == old(reader.Pos()) + 3 * hclen
      ensures c == CodeLengthCode(reader.input, old(reader.Pos()), hclen)
    {
      hide Lsb;
      c := seq(19, _ => 0);
      for i := 0 to hclen
        invariant reader.Valid() && reader.Pos() == old(reader.Pos()) + 3 * i
        invariant c == CodeLengthCode(reader.input, old(reader.Pos()), i)
      {
        var s := reader.Receive(3);
        c := c[DEZIGZAG[i] := s];
      }
    }

    /** The repeat count of code-length symbol c, which must be 16, 17 or 18. */
    method ReadRepeat(c: nat) returns (times: nat)
      requires reader.Valid() && 16 <= c <= 18 && reader.Pos() + RepeatBits(c) <= reader.end
      modifies reader
      ensures reader.Valid() && reader.Pos() == old(reader.Pos()) + RepeatBits(c)
      ensures times == RepeatBase(c) + Lsb(reader.input, old(reader.Pos()), RepeatBits(c))
    {
      hide Lsb;
      if c == 16 {
        times := ReadExtra(3, 2);
      } else if c == 17 {
        times := ReadExtra(3, 3);
      } else {
        times := ReadExtra(11, 7);
      }
    }

    /** Expands the run-length coded code lengths into lencodes, never past entry ntot. */
    method ExpandLengths(z: Huffman, ghost cl: seq<nat>, ntot: nat, lencodes: array<nat>) returns (ok: bool)
      requires reader.Valid() && z.Represents(cl) && |cl| == 19
      requires ntot <= lencodes.Length && lencodes !in z.Repr()
      requires !ReadLengths(cl, reader.input, reader.end, reader.Pos(), ntot, []).TruncatedLengths?
      modifies reader, lencodes
      ensures reader.Valid()
      ensures forall i :: ntot <= i < lencodes.Length ==> lencodes[i] == old(lencodes[i])
      ensures var r := ReadLengths(cl, reader.input, reader.end, old(reader.Pos()), ntot, []);
        (ok <==> r.LengthList?) && (ok ==> lencodes[..ntot] == r.lens && reader.Pos() == r.pos)
    {
      hide ReadLengths, Decode, Lsb, Kraft, Matches, CodeLengths;
      hide Huffman.LengthRows, Huffman.SymbolRows, Huffman.FastRows;
      NoLengths();
      ghost var r := ReadLengths(cl, reader.input, reader.end, reader.Pos(), ntot, []);
      var n := 0;
      assert lencodes[..n] == [];
      while n < ntot
        invariant reader.Valid() && n <= ntot && CodeLengths(lencodes[..n])
        invariant forall i :: ntot <= i < lencodes.Length ==> lencodes[i] == old(lencodes[i])
        invariant ReadLengths(cl, reader.input, reader.end, reader.Pos(), ntot, lencodes[..n]) == r
        decreases reader.end - reader.Pos()
      {
        LengthsStep(cl, reader.input, reader.end, reader.Pos(), ntot, lencodes[..n]);
        ghost var acc := lencodes[..n];
        var c := reader.HuffmanDecode(z, cl);
        if c < 0 || c >= 19 { return false; }
        if c < 16 {
          lencodes[n] := c;
          n := n + 1;
          assert lencodes[..n] == acc + [c];
        } else {
          var times := ReadRepeat(c);
          if c == 16 && n == 0 { return false; }
          var fill := if c == 16 then lencodes[n - 1] else 0;
          if ntot - n < times { return false; }
          forall i | n <= i < n + times { lencodes[i] := fill; }
          n := n + times;
          assert lencodes[..n] == acc + Repeat(fill, times);
        }
      }
      LengthsEnd(cl, reader.input, reader.end, reader.Pos(), ntot, lencodes[..n]);
      ok := true;
    }

    method ReadHeaderCounts() returns (hlit: nat, hdist: nat, hclen: nat)
      requires reader.Valid() && reader.Pos() + 14 <= reader.end
      modifies reader
      ensures reader.Valid() && reader.Pos() == old(reader.Pos()) + 14
      ensures Counts(hlit, hdist, hclen) == ReadCounts(reader.input, old(reader.Pos()))
    {
      hide Lsb;
      hlit := ReadExtra(257, 5);
      hdist := ReadExtra(1, 5);
      hclen := ReadExtra(4, 4);
    }

    /** Builds both tables of a dynamic block from its full list of lengths. */
    method BuildBoth(lencodes: array<nat>, hlit: nat, ntot: nat) returns (ok: bool)
      requires Separate() && hlit <= 288 && hlit <= ntot <= hlit + 32 && ntot <= lencodes.Length
      requires lencodes !in zLength.Repr() && lencodes !in zDistance.Repr() && CodeLengths(lencodes[..ntot])
      modifies zLength.Repr(), zDistance.Repr()
      ensures var lens := old(lencodes[..ntot]);
        && (ok <==> Kraft(lens[..hlit]) && Kraft(lens[hlit..]))
        && (ok ==> zLength.Represents(lens[..hlit]) && zDistance.Represents(lens[hlit..]))
    {
      hide Kraft, Huffman.LengthRows, Huffman.SymbolRows, Huffman.FastRows;
      ghost var lens := lencodes[..ntot];
      assert lencodes[..hlit] == lens[..hlit] && lencodes[hlit..ntot] == lens[hlit..];
      ok := zLength.Build(lencodes[..hlit]);
      if !ok { return; }
      ok := zDistance.Build(lencodes[hlit..ntot]);
    }

    /** Builds the code-length code and reads the list of lengths with it. */
    method ReadLengthList(codelengthSizes: seq<nat>, ntot: nat, lencodes: array<nat>) returns (ok: bool)
      requires reader.Valid() && |codelengthSizes| == 19 && CodeLengths(codelengthSizes) && ntot <= lencodes.Length
      requires Kraft(codelengthSizes) ==>
        !ReadLengths(codelengthSizes, reader.input, reader.end, reader.Pos(), ntot, []).TruncatedLengths?
      modifies reader, lencodes
      ensures reader.Valid()
      ensures var r := ReadLengths(codelengthSizes, reader.input, reader.end, old(reader.Pos()), ntot, []);
        && (ok <==> Kraft(codelengthSizes) && r.LengthList?)
        && (ok ==> lencodes[..ntot] == r.lens && reader.Pos() == r.pos)
    {
      hide ReadLengths, Decode, Lsb, Kraft, Matches, Huffman.LengthRows, Huffman.SymbolRows, Huffman.FastRows;
      var zCodelength := new Huffman();
      ok := zCodelength.Build(codelengthSizes);
      if !ok { return; }
      ok := ExpandLengths(zCodelength, codelengthSizes, ntot, lencodes);
    }

    /** Builds the tables of a dynamic block, given the lengths of its code-length code. */
    method ReadBothCodes(codelengthSizes: seq<nat>, hlit: nat, hdist: nat) returns (ok: bool)
      requires reader.Valid() && Separate() && hlit <= 288 && hdist <= 32
      requires |codelengthSizes| == 19 && CodeLengths(codelengthSizes)
      requires !CodesAfter(codelengthSizes, reader.input, reader.end, reader.Pos(), hlit, hdist).TruncatedCodes?
      modifies reader, zLength.Repr(), zDistance.Repr()
      ensures reader.Valid()
      ensures var r := CodesAfter(codelengthSizes, reader.input, reader.end, old(reader.Pos()), hlit, hdist);
        && (ok <==> r.Codes?)
        && (ok ==> reader.Pos() == r.pos && zLength.Represents(r.ll) && zDistance.Represents(r.dl))
    {
      hide CodesAfter, ReadLengths, Kraft, Huffman.LengthRows, Huffman.SymbolRows, Huffman.FastRows;
      CodesSteps(codelengthSizes, reader.input, reader.end, reader.Pos(), hlit, hdist);
      var ntot := hlit + hdist;
      var lencodes := new nat[455];
      ok := ReadLengthList(codelengthSizes, ntot, lencodes);
      if !ok { return; }
      ok := BuildBoth(lencodes, hlit, ntot);
    }

    /** Reads the codes of a dynamic block and builds their tables. */
    method ComputeHuffmanCodes() returns (ok: bool)
      requires reader.Valid() && Separate()
      requires !DynamicCodes(reader.input, reader.end, reader.Pos()).TruncatedCodes?
      modifies reader, zLength.Repr(), zDistance.Repr()
      ensures reader.Valid()
      ensures var r := DynamicCodes(reader.input, reader.end, old(reader.Pos()));
        && (ok <==> r.Codes?)
        && (ok ==> reader.Pos() == r.pos && zLength.Represents(r.ll) && zDistance.Represents(r.dl))
    {
      hide CodesAfter, ReadCounts, CodeLengthCode, Lsb, Kraft;
      hide Huffman.LengthRows, Huffman.SymbolRows, Huffman.FastRows;
      var hlit, hdist, hclen := ReadHeaderCounts();
      var codelengthSizes := ReadCodeLengthCode(hclen);
      ok := ReadBothCodes(codelengthSizes, hlit, hdist);
    }

    // ----- The stream -----

    /** Builds the fixed codes; they always satisfy the Kraft inequality. */
    method BuildFixed() returns (ok: bool)
      requires Separate()
      modifies zLength.Repr(), zDistance.Repr()
      ensures ok && zLength.Represents(FixedLengths()) && zDistance.Represents(FixedDistances())
    {
      hide Kraft, KraftSum, Huffman.LengthRows, Huffman.SymbolRows, Huffman.FastRows, FixedLengths, FixedDistances;
      var lengths, distances := InitDefaults();
      FixedKraft(lengths, distances);
      ok := zLength.Build(lengths);
      if !ok { return; }
      ok := zDistance.Build(distances);
    }

    /** One block after its three header bits. */
    method ParseBlock(kind: nat) returns (ok: bool)
      requires Valid() && reader.numBits <= 31 && kind < 4
      requires Decodable(Block(reader.input, reader.end, reader.Pos(), kind, out, stale), stale)
      modifies this`buf, this`zout, this`out, buf, reader, zLength.Repr(), zDistance.Repr()
      ensures Separate() && (buf == old(buf) || fresh(buf))
      ensures var r := Block(reader.input, reader.end, old(reader.Pos()), kind, old(out), stale);
        (ok <==> r.Done? && Storable(r.out, stale)) && (ok ==> Valid() && out == r.out && reader.Pos() == r.pos)
    {
      hide Stored, Body, DynamicCodes, Lsb, Storable, Admissible, FixedLengths, FixedDistances, Kraft;
      hide Huffman.LengthRows, Huffman.SymbolRows, Huffman.FastRows;
      if kind == 0 {
        ok := ParseUncompressedBlock();
      } else if kind == 3 {
        ok := false;
      } else {
        ghost var ll, dl;
        if kind == 1 {
          ok := BuildFixed();
          ll, dl := FixedLengths(), FixedDistances();
        } else {
          ghost var codes := DynamicCodes(reader.input, reader.end, reader.Pos());
          ok := ComputeHuffmanCodes();
          if !ok { return; }
          ll, dl := codes.ll, codes.dl;
        }
        ok := ParseHuffmanBlock(ll, dl);
      }
    }

    /** The whole stream: blocks until one is marked final. */
    method ParseZlib() returns (ok: bool)
      requires Valid() && reader.Pos() == 0 && out == NO_OUTPUT
      requires Decodable(InflateSpec.Inflate(reader.input, reader.end, stale), stale)
      modifies this`buf, this`zout, this`out, buf, reader, zLength.Repr(), zDistance.Repr()
      ensures var r := InflateSpec.Inflate(reader.input, reader.end, stale);
        (ok <==> r.Done? && Storable(r.out, stale)) && (ok ==> Valid() && out == r.out)
    {
      hide Block, Blocks, Lsb, Storable, Admissible, HasMagic, DeclaredSize, FontHeader, Decoder.Sized, Decoder.Written;
      ghost var r := InflateSpec.Inflate(reader.input, reader.end, stale);
      var final := 0;
      while final == 0
        invariant Valid() && (buf == old(buf) || fresh(buf)) && final < 2
        invariant final == 0 ==> Blocks(reader.input, reader.end, reader.Pos(), out, stale) == r
        invariant final == 1 ==> r.Done? && r.out == out && Storable(out, stale)
        decreases 1 - final, reader.end - reader.Pos()
      {
        BlockStep(reader.input, reader.end, reader.Pos(), out, stale);
        final := reader.Receive(1);
        var kind := reader.Receive(2);
        ok := ParseBlock(kind);
        if !ok { return; }
      }
      ok := true;
    }
  }

  /** Memory from the allocator, before anything is written to it. */
  method OldMemory(n: nat, stale: Stale) returns (a: array<Byte>)
    ensures fresh(a) && a.Length == n && forall i :: 0 <= i < n ==> a[i] == stale(i)
  {
    a := new Byte[n];
    forall i | 0 <= i < n { a[i] := stale(i); }
  }

  method InitDefaults() returns (lengths: seq<nat>, distances: seq<nat>)
    ensures lengths == FixedLengths() && distances == FixedDistances()
  {
    lengths, distances := [], [];
    for i := 0 to 144
      invariant |lengths| == i && forall j :: 0 <= j < i ==> lengths[j] == FixedLength(j)
    {
      lengths := lengths + [8];
    }
    for i := 144 to 256
      invariant |lengths| == i && forall j :: 0 <= j < i ==> lengths[j] == FixedLength(j)
    {
      lengths := lengths + [9];
    }
    for i := 256 to 280
      invariant |lengths| == i && forall j :: 0 <= j < i ==> lengths[j] == FixedLength(j)
    {
      lengths := lengths + [7];
    }
    for i := 280 to 288
      invariant |lengths| == i && forall j :: 0 <= j < i ==> lengths[j] == FixedLength(j)
    {
      lengths := lengths + [8];
    }
    for i := 0 to 32
      invariant |distances| == i && forall j :: 0 <= j < i ==> distances[j] == 5
    {
      distances := distances + [5];
    }
  }

  /**
    Decompresses a gzip body. The input is the compressed data followed by at least four further bytes;
    the data ends or is refused within it. Succeeds exactly when the stream is valid and its output fits
    eight bytes or is a font, and then returns the inflated bytes. stale is what the memory of the output
    buffer, from the allocator, holds.
   */
  method ZlibDecode(input: seq<Byte>, ghost dataLength: nat, stale: Stale)
      returns (ok: bool, start: array<Byte>, size: nat)
    requires dataLength + 4 <= |input| && Decodable(InflateSpec.Inflate(input, 8 * dataLength, stale), stale)
    ensures var r := InflateSpec.Inflate(input, 8 * dataLength, stale);
      && (ok <==> r.Done? && Storable(r.out, stale))
      && (ok ==> size == |r.out.bytes| <= start.Length && start[..size] == r.out.bytes)
  {
    hide InflateSpec.Inflate, InflateSpec.Blocks, Storable, Admissible, Lsb;
    var a := new Decoder(input, 8 * dataLength, stale);
    ok := a.ParseZlib();
    start, size := a.buf, a.zout;
  }

  /** One block of the stream: its header, its kind, and how the rest follows. */
  lemma BlockStep(input: seq<Byte>, end: nat, p: nat, out: Output, stale: Stale)
    requires p <= end <= 8 * |input| && Decodable(Blocks(input, end, p, out, stale), stale)
    ensures p + 3 <= end && Lsb(input, p, 1) < 2 && Lsb(input, p + 1, 2) < 4
    ensures var r, b := Blocks(input, end, p, out, stale), Block(input, end, p + 3, Lsb(input, p + 1, 2), out, stale);
      && Decodable(b, stale)
      && (!b.Done? ==> !r.Done?)
      && (Storable(r.out, stale) ==> Storable(b.out, stale))
      && (b.Done? ==> p + 3 < b.pos <= end)
      && (b.Done? && Lsb(input, p, 1) == 0 ==> r == Blocks(input, end, b.pos, b.out, stale))
      && (b.Done? && Lsb(input, p, 1) == 1 ==> r == b)
  {
    LsbBound(input, p, 1);
    LsbBound(input, p + 1, 2);
    SameHeader(Block(input, end, p + 3, Lsb(input, p + 1, 2), out, stale).out, Blocks(input, end, p, out, stale).out,
        stale);
  }

  lemma FixedKraft(lengths: seq<nat>, distances: seq<nat>)
    requires lengths == FixedLengths() && distances == FixedDistances()
    ensures CodeLengths(lengths) && Kraft(lengths) && |lengths| == 288
    ensures CodeLengths(distances) && Kraft(distances) && |distances| == 32
  {
    hide KraftSum;
    FixedLengthsComplete(lengths);
    FixedDistancesComplete(distances);
  }

  lemma NoLengths()
    ensures CodeLengths([])
  {}

  lemma ByteIndex(p: nat, i: nat)
    requires p == 8 * i
    ensures p / 8 == i && p % 8 == 0
  {}

  lemma SliceMore(s: seq<Byte>, i: nat, j: nat)
    requires i <= j < |s|
    ensures s[i..j] + [s[j]] == s[i..j + 1]
  {}

  lemma LengthsEnd(cl: seq<nat>, input: seq<Byte>, end: nat, p: nat, total: nat, acc: seq<nat>)
    requires p <= end <= 8 * |input| && |acc| == total && CodeLengths(acc) && |cl| == 19
    ensures ReadLengths(cl, input, end, p, total, acc) == LengthList(acc, p)
  {}

  /** One code-length symbol. */
  lemma LengthsStep(cl: seq<nat>, input: seq<Byte>, end: nat, p: nat, total: nat, acc: seq<nat>)
    requires p <= end <= 8 * |input| && |acc| < total && CodeLengths(acc) && |cl| == 19
    requires !ReadLengths(cl, input, end, p, total, acc).TruncatedLengths?
    ensures var r, d := ReadLengths(cl, input, end, p, total, acc), Decode(cl, input, end, p);
      && d != NeedBits
      && (d.NoCode? ==> r.BadLengths?)
      && (d.Symbol? && d.sym < 16 ==>
           d.len > 0 && CodeLengths(acc + [d.sym])
           && r == ReadLengths(cl, input, end, p + d.len, total, acc + [d.sym]))
      && (d.Symbol? && d.sym >= 16 ==>
           var q := p + d.len;
           d.len > 0 && d.sym < 19 && q + RepeatBits(d.sym) <= end &&
           var times := RepeatBase(d.sym) + Lsb(input, q, RepeatBits(d.sym));
           if (d.sym == 16 && acc == []) || |acc| + times > total then r.BadLengths?
           else
             var fill := if d.sym == 16 then acc[|acc| - 1] else 0;
             CodeLengths(acc + Repeat(fill, times))
             && r == ReadLengths(cl, input, end, q + RepeatBits(d.sym), total, acc + Repeat(fill, times)))
  {
  }

  /** Decoding does not run out of data, and its output can be laid out. */
  predicate Decodable(r: Outcome, stale: Stale) {
    !r.Truncated? && Admissible(r.out, stale)
  }

  /** The header that the buffer grew by is not changed by later output. */
  lemma SameHeader(out: Output, out': Output, stale: Stale)
    requires Extends(out, out')
    ensures |out.bytes| > 8 ==> FontHeader(out', stale) == FontHeader(out, stale)
    ensures Admissible(out', stale) ==> Admissible(out, stale)
    ensures Storable(out', stale) ==> Storable(out, stale)
  {
    if |out.bytes| > 8 {
      assert forall i :: 0 <= i < 8 ==> FontHeader(out', stale)[i] == FontHeader(out, stale)[i];
      assert FontHeader(out', stale) == FontHeader(out, stale);
    }
  }

  /** The body goes on at bit q with output out', towards the same outcome r. */
  ghost predicate GoesOn(ll: seq<nat>, dl: seq<nat>, input: seq<Byte>, end: nat, q: nat, out': Output, r: Outcome,
      stale: Stale)
    requires end <= 8 * |input| && |ll| <= 288 && |dl| <= 32
  {
    && q <= end && Body(ll, dl, input, end, q, out', stale) == r
    && Admissible(out', stale) && (Storable(r.out, stale) ==> Storable(out', stale))
  }

  /** One item of a block's body. */
  lemma BodyStep(ll: seq<nat>, dl: seq<nat>, input: seq<Byte>, end: nat, p: nat, out: Output, stale: Stale)
    requires p <= end <= 8 * |input| && |ll| <= 288 && |dl| <= 32
    requires Decodable(Body(ll, dl, input, end, p, out, stale), stale)
    ensures var item, r := ReadItem(ll, dl, input, end, p), Body(ll, dl, input, end, p, out, stale);
      && !item.TruncatedItem?
      && (item.Literal? ==> p < item.pos && GoesOn(ll, dl, input, end, item.pos, Emit(out, [item.value]), r, stale))
      && (item.Match? && item.dist > |out.bytes| ==> r.Bad?)
      && (item.Match? && item.dist <= |out.bytes| ==>
           p < item.pos
           && GoesOn(ll, dl, input, end, item.pos, Emit(out, MatchBytes(out.bytes, item.len, item.dist, stale)), r,
               stale))
      && (item.EndOfBlock? ==> r == Done(out, item.pos))
      && (item.BadItem? ==> r.Bad?)
  {
    hide ReadItem, Admissible, Storable, MatchBytes;
    var item, r := ReadItem(ll, dl, input, end, p), Body(ll, dl, input, end, p, out, stale);
    if item.Literal? {
      SameHeader(Emit(out, [item.value]), r.out, stale);
    } else if item.Match? && item.dist <= |out.bytes| {
      SameHeader(Emit(out, MatchBytes(out.bytes, item.len, item.dist, stale)), r.out, stale);
    }
  }

  /** Reading a match step by step: what each step needs, and the match it ends with. */
  lemma MatchSteps(dl: seq<nat>, input: seq<Byte>, end: nat, p: nat, z: nat, q: nat)
    requires p <= end <= 8 * |input| && z < 31 && |dl| <= 32 && q == p + LengthExtra(z)
    requires !ReadMatch(dl, input, end, p, z).TruncatedItem?
    ensures q <= end && Decode(dl, input, end, q) != NeedBits
    ensures var r, code := ReadMatch(dl, input, end, p, z), Decode(dl, input, end, q);
      if code.NoCode? then r == BadItem else
      code.sym < 32 && q + code.len + DistExtra(code.sym) <= end
        && r == Match(LengthBase(z) + Lsb(input, p, LengthExtra(z)),
                      DistBase(code.sym) + Lsb(input, q + code.len, DistExtra(code.sym)),
                      q + code.len + DistExtra(code.sym))
  {
    hide LengthBase, LengthExtra, DistBase, DistExtra, Decode, Lsb;
  }

  /** A stored block, step by step. */
  lemma StoredSteps(input: seq<Byte>, end: nat, p: nat, out: Output)
    requires p <= end <= 8 * |input| && !Stored(input, end, p, out).Truncated?
    ensures var q, b := AlignUp8(p), AlignUp8(p) / 8;
      q + 32 <= end &&
      var len, nlen := Word16(input[b], input[b + 1]), Word16(input[b + 2], input[b + 3]);
      if nlen != 0xFFFF - len then Stored(input, end, p, out) == Bad(out)
      else
        q + 32 + 8 * len <= end && Stored(input, end, p, out) ==
            Done(Emit(out, input[b + 4..b + 4 + len]), q + 32 + 8 * len)
  {
    hide Word16, Emit;
  }

  lemma HeaderWords(input: seq<Byte>, b: nat, header: seq<Byte>)
    requires b + 4 <= |input| && header == input[b..b + 4]
    ensures Word16(header[0], header[1]) == Word16(input[b], input[b + 1])
    ensures Word16(header[2], header[3]) == Word16(input[b + 2], input[b + 3])
  {}

  lemma WordBound(low: Byte, high: Byte)
    ensures 0 <= Word16(low, high) < 0x1_0000
  {}

  /** The codes of a dynamic block, step by step. */
  lemma CodesSteps(cl: seq<nat>, input: seq<Byte>, end: nat, p: nat, hlit: nat, hdist: nat)
    requires p <= end <= 8 * |input| && |cl| == 19 && CodeLengths(cl)
    requires !CodesAfter(cl, input, end, p, hlit, hdist).TruncatedCodes?
    ensures var r, l := CodesAfter(cl, input, end, p, hlit, hdist), ReadLengths(cl, input, end, p, hlit + hdist, []);
      && (!Kraft(cl) ==> r.BadCodes?)
      && (Kraft(cl) ==> !l.TruncatedLengths? && (l.BadLengths? ==> r.BadCodes?))
      && (Kraft(cl) && l.LengthList? ==>
           if Kraft(l.lens[..hlit]) && Kraft(l.lens[hlit..]) then r == Codes(l.lens[..hlit], l.lens[hlit..], l.pos)
               else r.BadCodes?)
  {
    hide ReadLengths, Kraft, CodeLengths;
  }

  /** How a decoded item is reported. */
  predicate ItemReturned(item: Item, z: int, len: nat, dist: nat, pos: int) {
    match item
    case Literal(b, q) => z == b && pos == q
    case EndOfBlock(q) => z == 256 && pos == q
    case Match(l, d, q) => z > 256 && len == l && dist == d && pos == q
    case BadItem => z == -1
    case TruncatedItem => true
  }

  /** Output that stays within the buffer keeps the header that the buffer grew by. */
  lemma EmitKeepsHeader(out: Output, chunk: seq<Byte>, stale: Stale)
    ensures |out.bytes| > 8 ==> FontHeader(Emit(out, chunk), stale) == FontHeader(out, stale)
  {
    SameHeader(out, Emit(out, chunk), stale);
  }

  /** At distance 1 every byte of a match is the last byte before it. */
  lemma RunByte(text: seq<Byte>, len: nat, i: nat, stale: Stale)
    requires |text| > 0 && i < len
    ensures MatchBytes(text, len, 1, stale)[i] == text[|text| - 1]
  {}

  /** Byte i of a match, read dist places back from where it goes. */
  lemma CopyStep(text: seq<Byte>, len: nat, dist: nat, i: nat, sofar: seq<Byte>, stale: Stale)
    requires dist <= |text| && i < len && sofar == text + MatchBytes(text, len, dist, stale)[..i]
    ensures MatchBytes(text, len, dist, stale)[i] == if dist == 0 then stale(|text| + i) else sofar[|text| + i - dist]
  {
    if dist > 0 { CopiedFromBefore(text, len, dist, i); }
  }
}
