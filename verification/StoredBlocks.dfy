/**
  The inverse of inflating for stored blocks (RFC 1951, section 3.2.4): data cut into chunks, each written as
  a stored block, inflates to the data, and the decoder returns it.
 */
module StoredBlocks {
  import opened Bits
  import opened BitStream
  import opened InflateSpec
  import Inflate

  /** One stored block: three header bits and padding, the length, its complement, the bytes. */
  function StoredBlock(chunk: seq<Byte>, last: bool): (s: seq<Byte>)
    requires |chunk| < 0x1_0000
    ensures |s| == 5 + |chunk|
  {
    var (low, high) := (|chunk| % 0x100, |chunk| / 0x100);
    [if last then 1 else 0, low, high, 0xFF - low, 0xFF - high] + chunk
  }

  ghost predicate Chunks(chunks: seq<seq<Byte>>) {
    |chunks| > 0 && forall i :: 0 <= i < |chunks| ==> |chunks[i]| < 0x1_0000
  }

  function Encoded(chunks: seq<seq<Byte>>): seq<Byte>
    requires Chunks(chunks)
  {
    StoredBlock(chunks[0], |chunks| == 1) + if |chunks| == 1 then [] else Encoded(chunks[1..])
  }

  function EmitAll(out: Output, chunks: seq<seq<Byte>>): Output
    decreases |chunks|
  {
    if chunks == [] then out else EmitAll(Emit(out, chunks[0]), chunks[1..])
  }

  /** The data that the chunks are cut from. */
  function Flatten(chunks: seq<seq<Byte>>): seq<Byte> {
    if chunks == [] then [] else chunks[0] + Flatten(chunks[1..])
  }

  /** Some chunk ends at byte n of the data. */
  predicate CutAt(chunks: seq<seq<Byte>>, n: nat) {
    exists j :: 0 <= j <= |chunks| && |Flatten(chunks[..j])| == n
  }

  lemma {:induction false} EmitAllBytes(out: Output, chunks: seq<seq<Byte>>)
    ensures EmitAll(out, chunks).bytes == out.bytes + Flatten(chunks)
    decreases |chunks|
  {
    if chunks != [] {
      EmitAllBytes(Emit(out, chunks[0]), chunks[1..]);
      assert out.bytes + chunks[0] + Flatten(chunks[1..]) == out.bytes + (chunks[0] + Flatten(chunks[1..]));
    }
  }

  lemma FirstChunk(chunks: seq<seq<Byte>>, n: nat)
    requires chunks != []
    ensures CutAt(chunks, n) <==> n == 0 || (n >= |chunks[0]| && CutAt(chunks[1..], n - |chunks[0]|))
  {
    forall j | 1 <= j <= |chunks| ensures |Flatten(chunks[..j])| == |chunks[0]| + |Flatten(chunks[1..][..j - 1])| {
      assert chunks[..j][1..] == chunks[1..][..j - 1];
    }
    assert Flatten(chunks[..0]) == [];
    if n >= |chunks[0]| && CutAt(chunks[1..], n - |chunks[0]|) {
      var j :| 0 <= j <= |chunks| - 1 && |Flatten(chunks[1..][..j])| == n - |chunks[0]|;
      assert |Flatten(chunks[..j + 1])| == n;
    }
  }

  /** No token straddles byte 8 exactly when the data ends before or some chunk ends there. */
  lemma {:induction false} EmitAllWhole(out: Output, chunks: seq<seq<Byte>>)
    requires |out.bytes| <= 8 ==> out.begun == 8
    ensures Whole(EmitAll(out, chunks)) <==>
      if |out.bytes| > 8 then out.begun >= 8
      else |out.bytes + Flatten(chunks)| <= 8 || CutAt(chunks, 8 - |out.bytes|)
    decreases |chunks|
  {
    if chunks == [] {
    } else {
      FirstChunk(chunks, if |out.bytes| <= 8 then 8 - |out.bytes| else 0);
      hide CutAt;
      EmitAllWhole(Emit(out, chunks[0]), chunks[1..]);
      if |out.bytes| == 8 && |chunks[0]| == 0 { CutAtStart(chunks[1..]); }
    }
  }

  lemma CutAtStart(chunks: seq<seq<Byte>>)
    ensures CutAt(chunks, 0)
  {
    assert Flatten(chunks[..0]) == [];
  }

  /** A byte that is 0 or 1 is a block header of kind 0, final when it is 1. */
  lemma StoredHeader(input: seq<Byte>, i: nat, p: nat, n: nat)
    requires i < |input| && p == 8 * i && n == 8 && input[i] < 2
    ensures Lsb(input, p, 1) == input[i] && Lsb(input, p + 1, 2) == 0
  {
    hide Lsb;
    LsbByte(input, i, p, n);
    LsbSplit(input, p, 1, 7);
    LsbSplit(input, p + 1, 2, 5);
    assert Low(input[i], 1) == input[i] && Shr(input[i], 1) == 0;
  }

  /** Where the parts of a stored block are. */
  lemma StoredParts(input: seq<Byte>, i: nat, chunk: seq<Byte>, last: bool)
    requires |chunk| < 0x1_0000 && i + 5 + |chunk| <= |input|
    requires input[i..i + 5 + |chunk|] == StoredBlock(chunk, last)
    ensures input[i] == if last then 1 else 0
    ensures Word16(input[i + 1], input[i + 2]) == |chunk| && Word16(input[i + 3], input[i + 4]) == 0xFFFF - |chunk|
    ensures input[i + 5..i + 5 + |chunk|] == chunk
  {
    var s := input[i..i + 5 + |chunk|];
    assert input[i] == s[0];
    assert input[i + 1] == s[1];
    assert input[i + 2] == s[2];
    assert input[i + 3] == s[3];
    assert input[i + 4] == s[4];
    assert input[i + 5..i + 5 + |chunk|] == s[5..];
    hide *;
    assert s[5..] == chunk by { StoredTail(chunk, last); }
    StoredWords(chunk, last);
  }

  lemma StoredTail(chunk: seq<Byte>, last: bool)
    requires |chunk| < 0x1_0000
    ensures StoredBlock(chunk, last)[5..] == chunk
  {}

  lemma StoredWords(chunk: seq<Byte>, last: bool)
    requires |chunk| < 0x1_0000
    ensures var s := StoredBlock(chunk, last);
      && s[0] == (if last then 1 else 0)
      && Word16(s[1], s[2]) == |chunk| && Word16(s[3], s[4]) == 0xFFFF - |chunk|
  {}

  /** The block found where a stored block was written is that block. */
  lemma StoredRead(input: seq<Byte>, end: nat, i: nat, chunk: seq<Byte>, last: bool, out: Output)
    requires |chunk| < 0x1_0000 && i + 5 + |chunk| <= |input| && 8 * (i + 5 + |chunk|) <= end <= 8 * |input|
    requires input[i..i + 5 + |chunk|] == StoredBlock(chunk, last)
    ensures Lsb(input, 8 * i, 1) == (if last then 1 else 0) && Lsb(input, 8 * i + 1, 2) == 0
    ensures Stored(input, end, 8 * i + 3, out) == Done(Emit(out, chunk), 8 * (i + 5 + |chunk|))
  {
    hide Lsb, StoredBlock, Word16, Emit;
    StoredParts(input, i, chunk, last);
    StoredHeader(input, i, 8 * i, 8);
    assert AlignUp8(8 * i + 3) == 8 * (i + 1);
  }

  lemma BlockThenRest(input: seq<Byte>, end: nat, p: nat, out: Output, next: Output, q: nat, last: bool, stale: Stale)
    requires p + 3 <= end <= 8 * |input| && q <= end && Lsb(input, p + 1, 2) == 0 &&
        Lsb(input, p, 1) == (if last then 1 else 0)
    requires Stored(input, end, p + 3, out) == Done(next, q)
    ensures p < q && Blocks(input, end, p, out, stale) == if last then Done(next, q)
        else Blocks(input, end, q, next, stale)
  {
    hide Stored;
  }

  lemma EncodedParts(chunks: seq<seq<Byte>>)
    requires Chunks(chunks)
    ensures var n := 5 + |chunks[0]|;
      && n <= |Encoded(chunks)| && Encoded(chunks)[..n] == StoredBlock(chunks[0], |chunks| == 1)
      && (|chunks| == 1 ==> n == |Encoded(chunks)|)
      && (|chunks| > 1 ==> Chunks(chunks[1..]) && Encoded(chunks)[n..] == Encoded(chunks[1..]))
  {
    hide StoredBlock;
  }

  /** Blocks written one after the other inflate to their chunks, whatever was output before them. */
  lemma {:induction false} EncodedBlocks(input: seq<Byte>, end: nat, i: nat, chunks: seq<seq<Byte>>, out: Output,
      stale: Stale)
    requires Chunks(chunks) && end == 8 * (i + |Encoded(chunks)|) && i + |Encoded(chunks)| <= |input|
    requires input[i..i + |Encoded(chunks)|] == Encoded(chunks)
    ensures Blocks(input, end, 8 * i, out, stale) == Done(EmitAll(out, chunks), end)
    decreases |chunks|
  {
    hide Lsb, Stored, StoredBlock, Encoded, Blocks, Emit;
    EncodedParts(chunks);
    var chunk, last := chunks[0], |chunks| == 1;
    var n, whole := 5 + |chunk|, input[i..i + |Encoded(chunks)|];
    assert input[i..i + n] == whole[..n];
    StoredRead(input, end, i, chunk, last, out);
    BlockThenRest(input, end, 8 * i, out, Emit(out, chunk), 8 * (i + n), last, stale);
    if !last {
      assert input[i + n..i + |whole|] == whole[n..];
      EncodedBlocks(input, end, i + n, chunks[1..], Emit(out, chunk), stale);
    } else {
      NoChunks(Emit(out, chunk), chunks[1..]);
    }
  }

  lemma NoChunks(out: Output, chunks: seq<seq<Byte>>)
    requires chunks == []
    ensures EmitAll(out, chunks) == out
  {}

  /**
    Inflating undoes stored encoding: it gives the data the chunks were cut from, and no token straddles byte 8
    exactly when the data ends before or some chunk ends there.
   */
  lemma InflateStored(chunks: seq<seq<Byte>>, after: seq<Byte>, stale: Stale)
    requires Chunks(chunks)
    ensures var input, end := Encoded(chunks) + after, 8 * |Encoded(chunks)|;
      var r := InflateSpec.Inflate(input, end, stale);
      && r == Done(EmitAll(NO_OUTPUT, chunks), end) && r.out.bytes == Flatten(chunks)
      && (Whole(r.out) <==> |Flatten(chunks)| <= 8 || CutAt(chunks, 8))
  {
    hide EmitAll, Flatten, CutAt, Whole, Blocks;
    var input := Encoded(chunks) + after;
    assert input[0..0 + |Encoded(chunks)|] == Encoded(chunks);
    EncodedBlocks(input, 8 * |Encoded(chunks)|, 0, chunks, NO_OUTPUT, stale);
    EmitAllBytes(NO_OUTPUT, chunks);
    EmitAllWhole(NO_OUTPUT, chunks);
    assert [] + Flatten(chunks) == Flatten(chunks);
  }

  /** Data that the decoder has room for: at most eight bytes, or a font. */
  predicate HasRoom(data: seq<Byte>) {
    |data| <= 8 || (HasMagic(data) && |data| <= DeclaredSize(data))
  }

  lemma StoredIsDecodable(chunks: seq<seq<Byte>>, after: seq<Byte>, stale: Stale)
    requires Chunks(chunks) && HasRoom(Flatten(chunks)) && (|Flatten(chunks)| <= 8 || CutAt(chunks, 8))
    ensures var coded := Encoded(chunks);
      var r := InflateSpec.Inflate(coded + after, 8 * |coded|, stale);
      r.Done? && r.out.bytes == Flatten(chunks) && Inflate.Decodable(r, stale) && Storable(r.out, stale)
  {
    hide Encoded, InflateSpec.Inflate, EmitAll, Flatten, CutAt, FontHeader;
    InflateStored(chunks, after, stale);
    if |Flatten(chunks)| > 8 { WholeHeader(EmitAll(NO_OUTPUT, chunks), stale); }
  }

  /** However a font is cut into stored blocks, if a cut is after its header the decoder returns it. */
  method RoundTrip(chunks: seq<seq<Byte>>, after: seq<Byte>, stale: Stale)
      returns (ok: bool, buffer: array<Byte>, size: nat)
    requires Chunks(chunks) && HasRoom(Flatten(chunks)) && (|Flatten(chunks)| <= 8 || CutAt(chunks, 8))
    requires |after| >= 4
    ensures ok && size == |Flatten(chunks)| <= buffer.Length && buffer[..size] == Flatten(chunks)
  {
    hide Encoded, InflateSpec.Inflate, Flatten, CutAt;
    StoredIsDecodable(chunks, after, stale);
    ok, buffer, size := Inflate.ZlibDecode(Encoded(chunks) + after, |Encoded(chunks)|, stale);
  }

  // ----- Every font has such an encoding -----

  const MOST := 0xFFFF  // the most bytes a stored block holds

  function Pieces(data: seq<Byte>): (p: seq<seq<Byte>>)
    ensures Chunks(p)
    decreases |data|
  {
    if |data| <= MOST then [data] else [data[..MOST]] + Pieces(data[MOST..])
  }

  function Cut(data: seq<Byte>): seq<seq<Byte>> {
    if |data| <= 8 then [data] else [data[..8]] + Pieces(data[8..])
  }

  lemma {:induction false} PiecesFlatten(data: seq<Byte>)
    ensures Flatten(Pieces(data)) == data
    decreases |data|
  {
    if |data| <= MOST {
      assert Flatten([data]) == data + Flatten([data][1..]);
    } else {
      PiecesFlatten(data[MOST..]);
      assert ([data[..MOST]] + Pieces(data[MOST..]))[1..] == Pieces(data[MOST..]);
    }
  }

  lemma CutFlatten(data: seq<Byte>)
    ensures Chunks(Cut(data)) && Flatten(Cut(data)) == data && (|data| > 8 ==> CutAt(Cut(data), 8))
  {
    hide Pieces, Chunks, CutAt;
    var p := Cut(data);
    if |data| <= 8 {
      assert Flatten(p) == data + Flatten(p[1..]);
      assert Chunks(p) by { OneChunk(data); }
    } else {
      PiecesFlatten(data[8..]);
      assert p[1..] == Pieces(data[8..]);
      assert Chunks(p) by { MoreChunks(data[..8], Pieces(data[8..])); }
      FirstChunk(p, 8);
      CutAtStart(p[1..]);
    }
  }

  lemma OneChunk(data: seq<Byte>)
    requires |data| <= 8
    ensures Chunks([data])
  {}

  lemma MoreChunks(first: seq<Byte>, rest: seq<seq<Byte>>)
    requires |first| <= 8 && Chunks(rest)
    ensures Chunks([first] + rest)
  {}

  /** A font of any length, encoded and decoded again. */
  method EncodeThenDecode(font: seq<Byte>, after: seq<Byte>, stale: Stale)
      returns (ok: bool, buffer: array<Byte>, size: nat)
    requires HasRoom(font) && |after| >= 4
    ensures ok && size == |font| <= buffer.Length && buffer[..size] == font
  {
    CutFlatten(font);
    ok, buffer, size := RoundTrip(Cut(font), after, stale);
  }
}
