/** The RIFF chunk walk of the animated WebP decoder (the container layout of
    section 2 of RFC 9649): starting after the 12-byte RIFF header, each chunk is
    an ASCII tag, a little-endian 32-bit size and a payload padded to even length.

    The walk is written with 32-bit JVM arithmetic, so a size whose top byte is
    at least 0x80 is negative. A size of -8 or -7 leaves the offset where it is
    and the walk never ends; a walk that reaches a negative offset throws inside
    `copyOfRange`, which the decoder catches. The walks are therefore modelled as
    functions with explicit fuel, and the loops that run them require that some
    amount of fuel suffices. */
module WebPChunks {
  import opened Common

  const TwoTo8: int := 0x100
  const TwoTo16: int := 0x1_0000
  const TwoTo24: int := 0x100_0000
  const TwoTo31: int := 0x8000_0000

  /** The four bytes read as an unsigned little-endian number. */
  function UInt32LE(b0: Byte, b1: Byte, b2: Byte, b3: Byte): (u: int)
    ensures 0 <= u < Int32Modulus
  {
    b0 + TwoTo8 * b1 + TwoTo16 * b2 + TwoTo24 * b3
  }

  /** Wrapping an unsigned 32-bit value subtracts 2^32 exactly when bit 31 is set. */
  lemma ToInt32OfUnsigned(u: int)
    requires 0 <= u < Int32Modulus
    ensures ToInt32(u) == if u < TwoTo31 then u else u - Int32Modulus
  {
    var r := ToInt32(u);
    var expected := if u < TwoTo31 then u else u - Int32Modulus;
    assert IsInt32(expected);
    assert (r - expected) % Int32Modulus == 0;
    assert -Int32Modulus < r - expected < Int32Modulus;
  }

  /** `readInt32LE(data, offset)`: the four bytes at `offset` combined
      little-endian into a signed 32-bit `Int` (the final `shl 24` wraps). */
  function ReadInt32LE(data: seq<Byte>, offset: int): (v: int)
    requires 0 <= offset && offset + 4 <= |data|
    ensures IsInt32(v)
    ensures v < 0 <==> data[offset + 3] >= 0x80
    ensures v >= 0 ==> v == UInt32LE(data[offset], data[offset + 1], data[offset + 2], data[offset + 3])
  {
    var u := UInt32LE(data[offset], data[offset + 1], data[offset + 2], data[offset + 3]);
    ToInt32OfUnsigned(u);
    ToInt32(u)
  }

  /** The little-endian encoding of a 32-bit `Int`: the partner of ReadInt32LE. */
  function WriteInt32LE(v: int): (bytes: seq<Byte>)
    requires IsInt32(v)
    ensures |bytes| == 4
  {
    var u := if v < 0 then v + Int32Modulus else v;
    [u % TwoTo8, (u / TwoTo8) % TwoTo8, (u / TwoTo16) % TwoTo8, u / TwoTo24]
  }

  /** Quotient and remainder are determined by the division equation. */
  lemma DivModUnique(u: int, d: int, q: int, r: int)
    requires d > 0 && 0 <= r < d && u == d * q + r
    ensures u / d == q && u % d == r
  {
    var q' := u / d;
    var r' := u % d;
    assert d * (q' - q) == r - r';
    if q' - q >= 1 {
      MulAtLeast(d, q' - q);
    } else if q - q' >= 1 {
      MulAtLeast(d, q - q');
    }
  }

  lemma MulAtLeast(d: int, k: int)
    requires d > 0 && k >= 1
    ensures d * k >= d
  {
  }

  /** Splitting a 32-bit unsigned value into bytes and joining them again is
      the identity. */
  lemma UInt32LESplit(u: int)
    requires 0 <= u < Int32Modulus
    ensures u / TwoTo24 < TwoTo8
    ensures UInt32LE(u % TwoTo8, (u / TwoTo8) % TwoTo8, (u / TwoTo16) % TwoTo8, u / TwoTo24) == u
  {
    var q1 := u / TwoTo8;
    var q2 := q1 / TwoTo8;
    var q3 := q2 / TwoTo8;
    assert u == u % TwoTo8 + TwoTo8 * q1;
    assert q1 == q1 % TwoTo8 + TwoTo8 * q2;
    assert q2 == q2 % TwoTo8 + TwoTo8 * q3;
    DivModUnique(u, TwoTo16, q2, u % TwoTo8 + TwoTo8 * (q1 % TwoTo8));
    DivModUnique(u, TwoTo24, q3, u % TwoTo8 + TwoTo8 * (q1 % TwoTo8) + TwoTo16 * (q2 % TwoTo8));
  }

  /** Reading back what was written gives the value. */
  lemma ReadWriteRoundTrip(v: int)
    requires IsInt32(v)
    ensures ReadInt32LE(WriteInt32LE(v), 0) == v
  {
    var u := if v < 0 then v + Int32Modulus else v;
    UInt32LESplit(u);
    ToInt32OfUnsigned(u);
  }

  /** Writing what was read gives back the four bytes. */
  lemma WriteReadRoundTrip(data: seq<Byte>, offset: int)
    requires 0 <= offset && offset + 4 <= |data|
    ensures WriteInt32LE(ReadInt32LE(data, offset)) == data[offset..offset + 4]
  {
    var b0, b1, b2, b3 := data[offset], data[offset + 1], data[offset + 2], data[offset + 3];
    var u := UInt32LE(b0, b1, b2, b3);
    ToInt32OfUnsigned(u);
    var t1 := b1 + TwoTo8 * b2 + TwoTo16 * b3;
    DivModUnique(u, TwoTo8, t1, b0);
    DivModUnique(t1, TwoTo8, b2 + TwoTo8 * b3, b1);
    DivModUnique(u, TwoTo16, b2 + TwoTo8 * b3, b0 + TwoTo8 * b1);
    DivModUnique(b2 + TwoTo8 * b3, TwoTo8, b3, b2);
    DivModUnique(u, TwoTo24, b3, b0 + TwoTo8 * b1 + TwoTo16 * b2);
  }

  /** The tags the walks look for. */
  const ANMF: seq<Byte> := [0x41, 0x4E, 0x4D, 0x46]
  const ANIM: seq<Byte> := [0x41, 0x4E, 0x49, 0x4D]

  /** `String(bytes.copyOfRange(offset, offset + 4)) == tag`: four ASCII
      characters decode back to themselves, and nothing else decodes to them,
      so the comparison is byte by byte. */
  predicate IsTag(bytes: seq<Byte>, offset: int, tag: seq<Byte>)
    requires 0 <= offset && offset + 4 <= |bytes| && |tag| == 4
  {
    bytes[offset] == tag[0] && bytes[offset + 1] == tag[1] &&
    bytes[offset + 2] == tag[2] && bytes[offset + 3] == tag[3]
  }

  /** The byte-by-byte comparison is the comparison of the four-byte slice. */
  lemma IsTagIsSliceEquality(bytes: seq<Byte>, offset: int, tag: seq<Byte>)
    requires 0 <= offset && offset + 4 <= |bytes| && |tag| == 4
    ensures IsTag(bytes, offset, tag) <==> bytes[offset..offset + 4] == tag
  {
    if IsTag(bytes, offset, tag) {
      assert forall i :: 0 <= i < 4 ==> bytes[offset..offset + 4][i] == tag[i];
    }
  }

  /** The chunk size stored after the tag at `offset`. */
  function ChunkSize(bytes: seq<Byte>, offset: int): (size: int)
    requires 0 <= offset && offset + 8 <= |bytes|
    ensures IsInt32(size)
    ensures size < 0 <==> bytes[offset + 7] >= 0x80
  {
    ReadInt32LE(bytes, offset + 4)
  }

  /** `offset += 8 + chunkSize + (chunkSize % 2)` in wrapping `Int` arithmetic. */
  function NextOffset(offset: int, size: int): (next: int)
    ensures IsInt32(next)
    ensures IsInt32(offset + 8 + size + TruncRem(size, 2)) ==> next == offset + 8 + size + TruncRem(size, 2)
  {
    ToInt32(offset + 8 + size + TruncRem(size, 2))
  }

  /** A step leaves the offset where it is exactly for sizes -8 and -7 (Kotlin's
      `-7 % 2` is -1). */
  lemma SelfLoopIff(offset: int, size: int)
    requires IsInt32(offset) && IsInt32(size)
    ensures NextOffset(offset, size) == offset <==> size == -8 || size == -7
  {
    var step := 8 + size + TruncRem(size, 2);
    var next := NextOffset(offset, size);
    assert (next - (offset + step)) % Int32Modulus == 0;
    if next == offset {
      assert (-step) % Int32Modulus == 0;
      assert -Int32Modulus < step < Int32Modulus;
      assert step == 0;
    }
  }

  /** With a non-negative size the offset moves forward by at least 8, unless the
      sum leaves the `Int` range, in which case it wraps to a negative value. */
  lemma ForwardStep(offset: int, size: int)
    requires 0 <= offset <= Int32Max - 8 && 0 <= size <= Int32Max
    ensures var next := NextOffset(offset, size);
      next >= offset + 8 || next < 0
  {
    var sum := offset + 8 + size + TruncRem(size, 2);
    ToInt32OfUnsigned(sum);
  }

  /** Where the frame-counting walk ends up. */
  datatype Walk =
    | Finished(anmf: nat)   // the loop exited normally after meeting `anmf` ANMF chunks
    | Threw                 // `copyOfRange` was given a negative offset
    | Running               // the fuel ran out first

  /** The loop of `parseWebPFrameCount` from `offset`, with at most `fuel`
      iterations. */
  function CountWalk(bytes: seq<Byte>, offset: int, fuel: nat): (w: Walk)
    ensures !(offset < |bytes| - 8) ==> w == Finished(0)
    ensures w.Finished? ==> w.anmf <= fuel
    decreases fuel
  {
    if !(offset < |bytes| - 8) then Finished(0)
    else if offset < 0 then Threw
    else if fuel == 0 then Running
    else
      var rest := CountWalk(bytes, NextOffset(offset, ChunkSize(bytes, offset)), fuel - 1);
      if rest.Finished? && IsTag(bytes, offset, ANMF) then Finished(rest.anmf + 1) else rest
  }

  /** The frame-count walk from the start of the first chunk ends. */
  ghost predicate Halts(bytes: seq<Byte>) {
    exists fuel: nat :: CountWalk(bytes, 12, fuel) != Running
  }

  /** More fuel never changes an outcome that was already reached. */
  lemma {:induction false} CountWalkFuelMonotone(bytes: seq<Byte>, offset: int, fuel: nat, more: nat)
    requires fuel <= more
    requires CountWalk(bytes, offset, fuel) != Running
    ensures CountWalk(bytes, offset, more) == CountWalk(bytes, offset, fuel)
    decreases fuel
  {
    if offset < |bytes| - 8 && offset >= 0 {
      var next := NextOffset(offset, ChunkSize(bytes, offset));
      CountWalkFuelMonotone(bytes, next, fuel - 1, more - 1);
    }
  }

  /** Every fuel with which the walk ends gives the same outcome. */
  lemma CountWalkOutcomeUnique(bytes: seq<Byte>, offset: int, fuel: nat)
    requires CountWalk(bytes, offset, fuel) != Running
    ensures forall f: nat :: CountWalk(bytes, offset, f) != Running ==>
      CountWalk(bytes, offset, f) == CountWalk(bytes, offset, fuel)
  {
    forall f: nat | CountWalk(bytes, offset, f) != Running
      ensures CountWalk(bytes, offset, f) == CountWalk(bytes, offset, fuel)
    {
      if f <= fuel {
        CountWalkFuelMonotone(bytes, offset, f, fuel);
      } else {
        CountWalkFuelMonotone(bytes, offset, fuel, f);
      }
    }
  }

  /** The value `parseWebPFrameCount` returns for a walk that ended: the count,
      or null when it is zero or the walk threw. */
  function FrameCountResult(w: Walk): (r: Option<int>)
    requires w != Running
    ensures r.Some? <==> w.Finished? && w.anmf > 0
    ensures r.Some? ==> r.value == w.anmf && r.value >= 1
  {
    if w.Finished? && w.anmf > 0 then Some(w.anmf) else None
  }

  /** Combines the count so far with the outcome of the rest of the walk. */
  function AddCount(count: nat, w: Walk): Walk {
    if w.Finished? then Finished(count + w.anmf) else w
  }

  /** One iteration of the frame-count walk: the count so far plus what the
      walk from here finds is the count after this chunk plus what the walk from
      the next offset finds. */
  lemma CountStep(bytes: seq<Byte>, offset: int, fuel: nat, count: nat)
    requires 0 <= offset < |bytes| - 8
    requires AddCount(count, CountWalk(bytes, offset, fuel)) != Running
    ensures fuel > 0
    ensures AddCount(count + if IsTag(bytes, offset, ANMF) then 1 else 0,
                     CountWalk(bytes, NextOffset(offset, ChunkSize(bytes, offset)), fuel - 1)) ==
            AddCount(count, CountWalk(bytes, offset, fuel))
  {
  }

  /** `parseWebPFrameCount`: walks the chunks counting ANMF tags. For any fuel
      with which the walk ends, the loop returns what that walk found; the
      ghost `fuel` cannot influence the result, so this holds for every such
      fuel. */
  method ParseWebPFrameCount(bytes: seq<Byte>, ghost fuel: nat) returns (r: Option<int>)
    requires CountWalk(bytes, 12, fuel) != Running
    ensures r == FrameCountResult(CountWalk(bytes, 12, fuel))
  {
    ghost var outcome := CountWalk(bytes, 12, fuel);
    ghost var left := fuel;
    var count: nat := 0;
    var offset := 12;
    while offset < |bytes| - 8
      invariant AddCount(count, CountWalk(bytes, offset, left)) == outcome
      decreases left
    {
      if offset < 0 {
        return None;
      }
      var chunkSize := ChunkSize(bytes, offset);
      CountStep(bytes, offset, left, count);
      ghost var next := NextOffset(offset, chunkSize);
      if IsTag(bytes, offset, ANMF) {
        count := count + 1;
      }
      assert AddCount(count, CountWalk(bytes, next, left - 1)) == outcome;
      offset := NextOffset(offset, chunkSize);
      left := left - 1;
    }
    r := if count > 0 then Some(count) else None;
  }

  /** The loop of `parseWebPDuration` ends within `fuel` iterations: it returns
      on the first ANIM or ANMF tag, when the loop guard fails, or by throwing. */
  predicate DurationWalkEnds(bytes: seq<Byte>, offset: int, fuel: nat)
    decreases fuel
  {
    if !(offset < |bytes| - 8) then true
    else if offset < 0 then true
    else if IsTag(bytes, offset, ANIM) || IsTag(bytes, offset, ANMF) then true
    else if fuel == 0 then false
    else DurationWalkEnds(bytes, NextOffset(offset, ChunkSize(bytes, offset)), fuel - 1)
  }

  /** One iteration of the duration walk that meets neither tag. */
  lemma DurationStep(bytes: seq<Byte>, offset: int, fuel: nat)
    requires 0 <= offset < |bytes| - 8
    requires !IsTag(bytes, offset, ANIM) && !IsTag(bytes, offset, ANMF)
    requires DurationWalkEnds(bytes, offset, fuel)
    ensures fuel > 0
    ensures DurationWalkEnds(bytes, NextOffset(offset, ChunkSize(bytes, offset)), fuel - 1)
  {
  }

  /** The duration walk visits the same offsets as the frame-count walk and stops
      no later, so it ends whenever the frame-count walk does. */
  lemma {:induction false} DurationWalkEndsWhenCountWalkDoes(bytes: seq<Byte>, offset: int, fuel: nat)
    requires CountWalk(bytes, offset, fuel) != Running
    ensures DurationWalkEnds(bytes, offset, fuel)
    decreases fuel
  {
    if offset < |bytes| - 8 && offset >= 0 && !IsTag(bytes, offset, ANIM) && !IsTag(bytes, offset, ANMF) {
      DurationWalkEndsWhenCountWalkDoes(bytes, NextOffset(offset, ChunkSize(bytes, offset)), fuel - 1);
    }
  }

  /** `parseWebPDuration`: with any fuel within which the walk ends, the loop
      finishes, and every path yields null. */
  method ParseWebPDuration(bytes: seq<Byte>, ghost fuel: nat) returns (r: Option<int>)
    requires DurationWalkEnds(bytes, 12, fuel)
    ensures r == None
  {
    ghost var left := fuel;
    var offset := 12;
    while offset < |bytes| - 8
      invariant DurationWalkEnds(bytes, offset, left)
      decreases left
    {
      if offset < 0 {
        return None;
      }
      var chunkSize := ChunkSize(bytes, offset);
      if IsTag(bytes, offset, ANIM) {
        return None;
      }
      if IsTag(bytes, offset, ANMF) {
        return None;
      }
      DurationStep(bytes, offset, left);
      offset := NextOffset(offset, chunkSize);
      left := left - 1;
    }
    return None;
  }


  /** From an in-range offset whose chunk size is -8 or -7, the walk never ends. */
  lemma {:induction false} SelfLoopDiverges(bytes: seq<Byte>, offset: int, fuel: nat)
    requires 0 <= offset < |bytes| - 8 && IsInt32(offset)
    requires ChunkSize(bytes, offset) == -8 || ChunkSize(bytes, offset) == -7
    ensures CountWalk(bytes, offset, fuel) == Running
    decreases fuel
  {
    if fuel > 0 {
      SelfLoopIff(offset, ChunkSize(bytes, offset));
      SelfLoopDiverges(bytes, offset, fuel - 1);
    }
  }

  /** A buffer whose first chunk declares size -8 (bytes F8 FF FF FF at 16..20)
      makes the frame-count loop spin forever. */
  lemma MinusEightDiverges(bytes: seq<Byte>)
    requires |bytes| >= 21
    requires bytes[16..20] == [0xF8, 0xFF, 0xFF, 0xFF]
    ensures !Halts(bytes)
  {
    assert bytes[16] == 0xF8 && bytes[17] == 0xFF && bytes[18] == 0xFF && bytes[19] == 0xFF;
    ToInt32OfUnsigned(UInt32LE(0xF8, 0xFF, 0xFF, 0xFF));
    assert ChunkSize(bytes, 12) == -8;
    forall fuel: nat
      ensures CountWalk(bytes, 12, fuel) == Running
    {
      SelfLoopDiverges(bytes, 12, fuel);
    }
  }

  /** The duration walk stalls the same way when the first chunk, of size -8,
      is neither ANIM nor ANMF: no amount of fuel lets it end. */
  lemma {:induction false} MinusEightStallsDurationWalk(bytes: seq<Byte>, fuel: nat)
    requires |bytes| >= 21
    requires bytes[16..20] == [0xF8, 0xFF, 0xFF, 0xFF]
    requires !IsTag(bytes, 12, ANIM) && !IsTag(bytes, 12, ANMF)
    ensures !DurationWalkEnds(bytes, 12, fuel)
    decreases fuel
  {
    assert bytes[16] == 0xF8 && bytes[17] == 0xFF && bytes[18] == 0xFF && bytes[19] == 0xFF;
    ToInt32OfUnsigned(UInt32LE(0xF8, 0xFF, 0xFF, 0xFF));
    assert ChunkSize(bytes, 12) == -8;
    if fuel > 0 {
      SelfLoopIff(12, -8);
      MinusEightStallsDurationWalk(bytes, fuel - 1);
    }
  }

  /** The distance the corrected walks still have to go: the loop body runs
      only at offsets in [0, |bytes| - 8), where this is at least 9. */
  function Remaining(bytes: seq<Byte>, offset: int): nat {
    if 0 <= offset < |bytes| then |bytes| - offset else 0
  }

  /** The frame-count walk with a negative chunk size treated as malformed
      input, like the exception the loop already catches: it ends on every
      buffer. */
  function CheckedWalk(bytes: seq<Byte>, offset: int): (w: Walk)
    requires |bytes| <= Int32Max
    ensures w != Running
    decreases Remaining(bytes, offset)
  {
    if !(offset < |bytes| - 8) then Finished(0)
    else if offset < 0 then Threw
    else
      var size := ChunkSize(bytes, offset);
      if size < 0 then Threw
      else
        ForwardStep(offset, size);
        var rest := CheckedWalk(bytes, NextOffset(offset, size));
        if rest.Finished? && IsTag(bytes, offset, ANMF) then Finished(rest.anmf + 1) else rest
  }

  /** Every chunk header the walk visits from `offset` declares a non-negative
      size. Bytes the walk steps over (payloads) are not constrained. */
  predicate NoNegativeSizeOnWalk(bytes: seq<Byte>, offset: int)
    requires |bytes| <= Int32Max
    decreases Remaining(bytes, offset)
  {
    if !(0 <= offset < |bytes| - 8) then true
    else
      var size := ChunkSize(bytes, offset);
      size >= 0 &&
      (ForwardStep(offset, size);
       NoNegativeSizeOnWalk(bytes, NextOffset(offset, size)))
  }

  /** When the walk meets only non-negative sizes, each step moves forward by
      at least 8 bytes (or wraps to a negative offset and throws), so
      `|bytes| - offset` steps are enough. Buffers are JVM arrays, so their
      length is an `Int`. */
  lemma {:induction false} ForwardWalkEnds(bytes: seq<Byte>, offset: int, fuel: nat)
    requires |bytes| <= Int32Max
    requires NoNegativeSizeOnWalk(bytes, offset)
    requires 0 <= offset && fuel >= |bytes| - offset
    ensures CountWalk(bytes, offset, fuel) != Running
    decreases fuel
  {
    if offset < |bytes| - 8 {
      var size := ChunkSize(bytes, offset);
      var next := NextOffset(offset, size);
      ForwardStep(offset, size);
      if next >= 0 {
        ForwardWalkEnds(bytes, next, fuel - 1);
      }
    }
  }

  /** Hence the frame-count walk ends on every buffer whose walk meets no
      negative size. */
  lemma NonNegativeSizesHalt(bytes: seq<Byte>)
    requires |bytes| <= Int32Max
    requires NoNegativeSizeOnWalk(bytes, 12)
    ensures Halts(bytes)
  {
    ForwardWalkEnds(bytes, 12, |bytes|);
  }

  /** `parseWebPFrameCount` with the negative-size check added. */
  method ParseWebPFrameCountChecked(bytes: seq<Byte>) returns (r: Option<int>)
    requires |bytes| <= Int32Max
    ensures r == FrameCountResult(CheckedWalk(bytes, 12))
  {
    ghost var outcome := CheckedWalk(bytes, 12);
    var count := 0;
    var offset := 12;
    while offset < |bytes| - 8
      invariant AddCount(count, CheckedWalk(bytes, offset)) == outcome
      decreases Remaining(bytes, offset)
    {
      if offset < 0 {
        return None;
      }
      var chunkSize := ChunkSize(bytes, offset);
      if chunkSize < 0 {
        return None;
      }
      if IsTag(bytes, offset, ANMF) {
        count := count + 1;
      }
      ForwardStep(offset, chunkSize);
      offset := NextOffset(offset, chunkSize);
    }
    r := if count > 0 then Some(count) else None;
  }

  /** `parseWebPDuration` with the negative-size check added: it ends on every
      buffer, and still yields null. */
  method ParseWebPDurationChecked(bytes: seq<Byte>) returns (r: Option<int>)
    requires |bytes| <= Int32Max
    ensures r == None
  {
    var offset := 12;
    while offset < |bytes| - 8
      decreases Remaining(bytes, offset)
    {
      if offset < 0 {
        return None;
      }
      var chunkSize := ChunkSize(bytes, offset);
      if chunkSize < 0 {
        return None;
      }
      if IsTag(bytes, offset, ANIM) {
        return None;
      }
      if IsTag(bytes, offset, ANMF) {
        return None;
      }
      ForwardStep(offset, chunkSize);
      offset := NextOffset(offset, chunkSize);
    }
    return None;
  }

  /** When the walk meets no negative size the check never fires: the
      corrected walk ends exactly where the walk as written does. */
  lemma {:induction false} CheckedWalkAgrees(bytes: seq<Byte>, offset: int, fuel: nat)
    requires |bytes| <= Int32Max
    requires NoNegativeSizeOnWalk(bytes, offset)
    requires 0 <= offset && fuel >= |bytes| - offset
    ensures CountWalk(bytes, offset, fuel) == CheckedWalk(bytes, offset)
    decreases fuel
  {
    if offset < |bytes| - 8 {
      var size := ChunkSize(bytes, offset);
      var next := NextOffset(offset, size);
      ForwardStep(offset, size);
      if next >= 0 {
        CheckedWalkAgrees(bytes, next, fuel - 1);
      }
    }
  }

  /** The buffer that spins the walk as written gets a result from the
      corrected one: null, as for any other malformed chunk. */
  lemma MinusEightChecked(bytes: seq<Byte>)
    requires 21 <= |bytes| <= Int32Max
    requires bytes[16..20] == [0xF8, 0xFF, 0xFF, 0xFF]
    ensures CheckedWalk(bytes, 12) == Threw
  {
    assert bytes[16] == 0xF8 && bytes[17] == 0xFF && bytes[18] == 0xFF && bytes[19] == 0xFF;
    ToInt32OfUnsigned(UInt32LE(0xF8, 0xFF, 0xFF, 0xFF));
    assert ChunkSize(bytes, 12) == -8;
  }

  /** The check also changes the answer on some buffers whose walk as written
      ends: an ANMF chunk of size -2 at offset 12 steps back to offset 18, where
      a chunk of size 0 ends the walk. As written the walk counts one frame; the
      corrected walk stops at the negative size. */
  lemma NegativeSizeDisagrees(bytes: seq<Byte>)
    requires |bytes| == 30
    requires IsTag(bytes, 12, ANMF)
    requires bytes[16..20] == [0xFE, 0xFF, 0xFF, 0xFF]
    requires bytes[22..26] == [0, 0, 0, 0]
    ensures CountWalk(bytes, 12, 2) == Finished(1)
    ensures CheckedWalk(bytes, 12) == Threw
  {
    assert bytes[16] == 0xFE && bytes[17] == 0xFF && bytes[18] == 0xFF && bytes[19] == 0xFF;
    assert bytes[22] == 0 && bytes[23] == 0 && bytes[24] == 0 && bytes[25] == 0;
    ToInt32OfUnsigned(UInt32LE(0xFE, 0xFF, 0xFF, 0xFF));
    assert ChunkSize(bytes, 12) == -2;
    assert NextOffset(12, -2) == 18;
    assert ChunkSize(bytes, 18) == 0;
    assert NextOffset(18, 0) == 26;
  }
}
