/**
 * The byte-level part of the WebM header reader (src/formats/webm/webm.rs):
 * the leading-bit counter, the big-endian byte accumulator, and the resumable
 * state of the three variable-size-integer decoders written as values with
 * pure `feed` transitions. The classes in module Webm carry the same state in
 * fields and are proved to step exactly as these transitions do.
 *
 * The code as written counts leading ONE bits where RFC 8794 section 4.1 counts
 * leading zero bits; the model follows the code (see LeadingCountDiverges).
 */
module WebmVint {
  import opened Common

  /** `std::mem::size_of::<usize>()` on a 64-bit target: the most bytes one accumulation may read. */
  const UsizeBytes := 8

  /** `kUnknownElem = u64::MAX`, the size reported for an all-ones size field (RFC 8794 section 6.2). */
  const UnknownElementSize: uint64 := U64Modulus - 1

  // ---------------------------------------------------------------------------
  // get_leading_zeros

  /**
   * What `get_leading_zeros` returns: 8 for a zero byte, otherwise the number
   * of consecutive set bits counted down from bit 7 (so 8 for 0xFF).
   */
  function LeadingCount(value: byte): (n: nat)
    ensures n <= 8
    ensures value == 0 ==> n == 8
  {
    if value == 0 then 8
    else if value < 0x80 then 0
    else if value < 0xC0 then 1
    else if value < 0xE0 then 2
    else if value < 0xF0 then 3
    else if value < 0xF8 then 4
    else if value < 0xFC then 5
    else if value < 0xFE then 6
    else if value < 0xFF then 7
    else 8
  }

  /**
   * For a nonzero byte, LeadingCount is the length of the run of set bits from
   * bit 7 down: the top n bits are set and, unless all eight are, bit 7 - n is
   * clear.
   */
  lemma LeadingCountIsRun(value: byte)
    requires value != 0
    ensures var n := LeadingCount(value);
            && value >= 0x100 - Pow2(8 - n)
            && (n < 8 ==> value < 0x100 - Pow2(7 - n))
  {
    Pow2Byte();
  }

  /** The probe `0x80 >> count` of the counting loop: bit 7 - count, or 0 once count reaches 8. */
  function Probe(count: nat): nat
  {
    if count < 8 then Pow2(7 - count) else 0
  }

  /**
   * The probe as the code computes it: `0x80` is a `u8`, so a shift by 8 or
   * more overflows. A release build masks the shift amount to its low three
   * bits, so the probe after bit 0 is bit 7 again (a debug build panics).
   */
  function ProbeAsWritten(count: nat): nat
  {
    Pow2(7 - count % 8)
  }

  /**
   * For the byte 0xFF every probe as written finds a set bit, so the loop of
   * `get_leading_zeros` never ends; Probe, which reads the shift out past bit 0
   * as 0, stops it at 8.
   */
  lemma AllOnesNeverStops(count: nat)
    ensures HasBit(0xFF, ProbeAsWritten(count))
    ensures count < 8 ==> HasBit(0xFF, Probe(count)) && !HasBit(0xFF, Probe(8))
  {
    AllOnesHasBit(7 - count % 8);
    if count < 8 {
      AllOnesHasBit(7 - count);
    }
  }

  /** Every bit of 0xFF is set. */
  lemma AllOnesHasBit(k: nat)
    requires k < 8
    ensures HasBit(0xFF, Pow2(k))
  {
    Pow2Byte();
    if k == 0 {} else if k == 1 {} else if k == 2 {} else if k == 3 {}
    else if k == 4 {} else if k == 5 {} else if k == 6 {} else {}
  }

  /** `value & probe != 0` for a probe that is zero or a single bit. */
  predicate HasBit(value: byte, probe: nat)
  {
    probe > 0 && (value / probe) % 2 == 1
  }

  /** With the top `count` bits of value set, a set bit 7 - count extends the run by one. */
  lemma ExtendRun(value: byte, count: nat)
    requires count < 8 && value >= 0x100 - Pow2(8 - count) && HasBit(value, Probe(count))
    ensures value >= 0x100 - Pow2(7 - count)
  {
    Pow2Byte();
  }

  /** With the top `count` bits set and bit 7 - count clear, count is the run length. */
  lemma RunEnds(value: byte, count: nat)
    requires value != 0 && count <= 8 && value >= 0x100 - Pow2(8 - count)
    requires !HasBit(value, Probe(count))
    ensures count == LeadingCount(value)
  {
    Pow2Byte();
  }

  /** `get_leading_zeros`: the counting loop over the probes 0x80, 0x40, ... */
  method GetLeadingZeros(value: byte) returns (count: nat)
    ensures count == LeadingCount(value)
  {
    if value == 0 {
      return 8;
    }
    count := 0;
    while HasBit(value, Probe(count))
      invariant count <= 8
      invariant value >= 0x100 - Pow2(8 - count)
      decreases 8 - count
    {
      ExtendRun(value, count);
      count := count + 1;
    }
    RunEnds(value, count);
  }

  /**
   * RFC 8794 section 4.1 takes the width of a VINT from the leading ZERO bits of
   * its first byte; the code counts leading ones. The first byte 0x1A of the
   * EBML header ID has three leading zeros (a 4-byte VINT under the standard),
   * but the code finds no leading one and reads it as a 1-byte ID.
   */
  lemma LeadingCountDiverges()
    ensures LeadingCount(0x1A) == 0
    ensures forall b: byte :: 0x80 <= b < 0xFF ==> LeadingCount(b) >= 1
  {
  }

  // ---------------------------------------------------------------------------
  // accumulate_integer_bytes

  /** The bytes read as one unsigned big-endian number, after the digits already in acc. */
  function BigEndian(acc: nat, bytes: seq<byte>): nat
    decreases |bytes|
  {
    if bytes == [] then acc else BigEndian(acc * 0x100 + bytes[0], bytes[1..])
  }

  lemma {:induction false} BigEndianAppend(acc: nat, a: seq<byte>, b: seq<byte>)
    ensures BigEndian(acc, a + b) == BigEndian(BigEndian(acc, a), b)
    decreases |a|
  {
    if a == [] {
      assert a + b == b;
    } else {
      assert (a + b)[1..] == a[1..] + b;
      BigEndianAppend(acc * 0x100 + a[0], a[1..], b);
    }
  }

  lemma {:induction false} BigEndianCongruent(x: nat, y: nat, bytes: seq<byte>, m: nat)
    requires m > 0 && x % m == y % m
    ensures BigEndian(x, bytes) % m == BigEndian(y, bytes) % m
    decreases |bytes|
  {
    if bytes != [] {
      ShiftInCongruent(x, y, bytes[0], m);
      BigEndianCongruent(x * 0x100 + bytes[0], y * 0x100 + bytes[0], bytes[1..], m);
    }
  }

  lemma {:induction false} BigEndianBound(acc: nat, bytes: seq<byte>)
    ensures BigEndian(acc, bytes) < (acc + 1) * Pow2(8 * |bytes|)
    decreases |bytes|
  {
    if bytes != [] {
      var next := acc * 0x100 + bytes[0];
      var p := Pow2(8 * |bytes[1..]|);
      BigEndianBound(next, bytes[1..]);
      MulLe(next + 1, (acc + 1) * 0x100, p);
      Pow2Byte();
      Pow2Add(8, 8 * |bytes[1..]|);
      assert Pow2(8 * |bytes|) == 0x100 * p;
      assert ((acc + 1) * 0x100) * p == (acc + 1) * (0x100 * p);
    }
  }

  lemma MulLe(a: nat, b: nat, p: nat)
    requires a <= b
    ensures a * p <= b * p
  {
    assert b * p == a * p + (b - a) * p;
  }

  /** What one call of `accumulate_integer_bytes` returns, and the new value of `*integer`. */
  datatype Accumulated = Accumulated(rest: Option<seq<byte>>, integer: nat)

  /**
   * `accumulate_integer_bytes(num_to_read, i, integer)` in closed form, for an
   * integer of the given modulus (2^64 for `u64`, 2^32 for `u32`): a count
   * outside 0..=8 is refused with the integer untouched; otherwise the first
   * min(num_to_read, |i|) bytes are shifted in big-endian, the high bits
   * falling off at the integer's width, and the rest of the input is returned.
   */
  function Accumulate(numToRead: int, i: seq<byte>, integer: nat, modulus: nat): (r: Accumulated)
    requires modulus > 0
    ensures r.rest.Some? <==> 0 <= numToRead <= UsizeBytes
    ensures r.rest.None? ==> r.integer == integer
    ensures r.rest.Some? ==> |r.rest.value| == |i| - Min(numToRead, |i|) && r.integer < modulus
  {
    if numToRead < 0 || numToRead > UsizeBytes then Accumulated(None, integer)
    else
      var k := Min(numToRead, |i|);
      Accumulated(Some(i[k..]), BigEndian(integer, i[..k]) % modulus)
  }

  /**
   * `accumulate_integer_bytes`: the loop that decrements `num_to_read`, stops
   * early when the input runs out (not a failure), and updates `*integer` with
   * `(*integer << 8) | byte` at the integer's width. The `&mut` parameter is
   * an in-out pair: `integer` in, `result` out.
   */
  method AccumulateIntegerBytes(numToRead: int, i: seq<byte>, integer: nat, modulus: nat)
      returns (o: Option<seq<byte>>, result: nat)
    requires modulus >= 0x100 && integer < modulus
    ensures Accumulated(o, result) == Accumulate(numToRead, i, integer, modulus)
    ensures result < modulus
  {
    if numToRead < 0 || numToRead > UsizeBytes {
      return None, integer;
    }
    ModSmall(integer, modulus);
    var n := numToRead;
    var input := i;
    result := integer;
    while n > 0
      invariant 0 <= n <= numToRead
      invariant numToRead - n <= |i| && input == i[numToRead - n..]
      invariant result == BigEndian(integer, i[..numToRead - n]) % modulus
    {
      n := n - 1;
      if |input| < 1 {
        return Some(input), result;
      }
      ghost var done := numToRead - n - 1;
      assert i[..done + 1] == i[..done] + [input[0]];
      BigEndianAppend(integer, i[..done], [input[0]]);
      ModSmall(result, modulus);
      ShiftInCongruent(result, BigEndian(integer, i[..done]), input[0], modulus);
      // (x << 8) | byte at the integer's width: the shift leaves the low 8 bits clear
      result := (result * 0x100 + input[0]) % modulus;
      input := input[1..];
    }
    return Some(input), result;
  }

  // ---------------------------------------------------------------------------
  // The decoders' state as values

  /** Progress of one `feed` call: the decoder's new state and what `feed` returned. */
  datatype Fed<S> = Fed(next: S, rest: Option<seq<byte>>)

  /** `first_byte & 0xf0 != 0`: the first byte's high nibble is not zero. */
  predicate HighNibbleSet(b: byte)
  {
    b / 0x10 != 0
  }

  /** Number of bits kept by the mask `u64::MAX >> (57 - 7 * total_data_bytes)`. */
  function DataBits(totalDataBytes: int): nat
    requires 0 <= totalDataBytes <= 8
  {
    64 - (57 - 7 * totalDataBytes)
  }

  /** The mask keeps at most the 64 bits of a `u64`. */
  lemma DataBitsFit(totalDataBytes: int)
    requires 0 <= totalDataBytes <= 8
    ensures Pow2(DataBits(totalDataBytes)) <= U64Modulus
  {
    Pow2Monotone(DataBits(totalDataBytes), 64);
    Pow2Moduli();
  }

  /**
   * State of `VarIntParser`: `bytes_remaining` is -1 before the first byte,
   * afterwards the number of data bytes still to read; `value` holds the
   * integer read so far with the marker bits masked off.
   */
  datatype VarInt = VarInt(bytesRemaining: int, totalDataBytes: int, value: uint64)
  {
    ghost predicate Valid()
    {
      || (bytesRemaining == -1 && totalDataBytes == 0 && value == 0)
      || (0 <= bytesRemaining <= totalDataBytes <= 8 && value < Pow2(DataBits(totalDataBytes)))
    }

    /** `encoded_length`: the first byte plus the data bytes. */
    function EncodedLength(): int
    {
      totalDataBytes + 1
    }
  }

  /** `VarIntParser::new()`. */
  const VarIntFresh := VarInt(-1, 0, 0)

  /** The part of `VarIntParser::feed` after the first byte: accumulate, account, mask. */
  function VarIntAccumulate(s: VarInt, i: seq<byte>): (r: Fed<VarInt>)
    requires 0 <= s.bytesRemaining <= s.totalDataBytes <= 8
    ensures r.rest.Some? && |r.rest.value| <= |i|
    ensures r.next.Valid()
  {
    var a := Accumulate(s.bytesRemaining, i, s.value, U64Modulus);
    var o := a.rest.value;
    var bits := DataBits(s.totalDataBytes);
    DataBitsFit(s.totalDataBytes);
    Fed(VarInt(s.bytesRemaining - (|i| - |o|), s.totalDataBytes, a.integer % Pow2(bits)), Some(o))
  }

  /**
   * The accumulation step reads min(bytes_remaining, |i|) data bytes, counts
   * them off `bytes_remaining`, and leaves the value those bytes extend it to,
   * masked to the data bits of the width.
   */
  lemma VarIntAccumulateSpec(s: VarInt, i: seq<byte>)
    requires 0 <= s.bytesRemaining <= s.totalDataBytes <= 8
    ensures Pow2(DataBits(s.totalDataBytes)) <= U64Modulus
    ensures var k := Min(s.bytesRemaining, |i|);
            VarIntAccumulate(s, i) ==
              Fed(VarInt(s.bytesRemaining - k, s.totalDataBytes,
                         BigEndian(s.value, i[..k]) % Pow2(DataBits(s.totalDataBytes))),
                  Some(i[k..]))
  {
    DataBitsFit(s.totalDataBytes);
    ModU64ThenPow2(BigEndian(s.value, i[..Min(s.bytesRemaining, |i|)]), DataBits(s.totalDataBytes));
  }

  /**
   * `VarIntParser::feed`. Before the first byte: empty input is returned as it
   * is (need more input), a first byte with a zero high nibble is malformed
   * (`None`, state untouched), any other first byte sets total_data_bytes from
   * `get_leading_zeros`. Then up to `bytes_remaining` data bytes are shifted in
   * and the value is masked to its data bits.
   */
  function VarIntFeed(s: VarInt, i: seq<byte>): (r: Fed<VarInt>)
    requires s.Valid()
    ensures r.next.Valid()
    ensures r.rest.None? <==> s.bytesRemaining < 0 && |i| >= 1 && !HighNibbleSet(i[0])
    ensures r.rest.Some? ==> |r.rest.value| <= |i|
  {
    if s.bytesRemaining < 0 then
      if |i| < 1 then Fed(s, Some(i))
      else if !HighNibbleSet(i[0]) then Fed(s, None)
      else
        var t := LeadingCount(i[0]);
        VarIntAccumulate(VarInt(t, t, i[0]), i[1..])
    else
      VarIntAccumulate(s, i)
  }

  /**
   * What one `VarIntParser::feed` call does: a malformed first byte leaves the
   * state as it was; empty input before the first byte is a no-op; a good first
   * byte fixes total_data_bytes at its leading count; every call then reads as many of
   * the remaining data bytes as the input holds, and returns the input after
   * them. A decoder with nothing left to read is not changed.
   */
  lemma VarIntFeedSpec(s: VarInt, i: seq<byte>)
    requires s.Valid()
    ensures var r := VarIntFeed(s, i);
            && (r.rest.None? ==> r.next == s)
            && (s.bytesRemaining < 0 && i == [] ==> r == Fed(s, Some(i)))
            && (s.bytesRemaining < 0 && |i| >= 1 && HighNibbleSet(i[0]) ==>
                  var t := LeadingCount(i[0]);
                  var k := Min(t, |i| - 1);
                  && r.rest == Some(i[1 + k..])
                  && r.next.totalDataBytes == t
                  && r.next.bytesRemaining == t - k)
            && (s.bytesRemaining >= 0 ==>
                  var k := Min(s.bytesRemaining, |i|);
                  && r.rest == Some(i[k..])
                  && r.next.totalDataBytes == s.totalDataBytes
                  && r.next.bytesRemaining == s.bytesRemaining - k)
            && (s.bytesRemaining == 0 ==> r == Fed(s, Some(i)))
  {
    if s.bytesRemaining < 0 {
      if |i| >= 1 && HighNibbleSet(i[0]) {
        var t := LeadingCount(i[0]);
        VarIntAccumulateSpec(VarInt(t, t, i[0]), i[1..]);
        assert i[1..][Min(t, |i| - 1)..] == i[1 + Min(t, |i| - 1)..];
      }
    } else {
      VarIntAccumulateSpec(s, i);
      if s.bytesRemaining == 0 {
        ModSmall(s.value, Pow2(DataBits(s.totalDataBytes)));
        assert i[..0] == [];
      }
    }
  }

  /**
   * `SizeParser::size`: the all-ones pattern of the encoded width,
   * `u64::MAX >> (57 - 7 * (encoded_length - 1))`, is the unknown-size
   * sentinel `u64::MAX`; any other value is the size itself.
   */
  function SizeOf(v: VarInt): (r: uint64)
    requires v.Valid()
    ensures r == UnknownElementSize || r == v.value
  {
    if v.value == Pow2(DataBits(v.totalDataBytes)) - 1 then UnknownElementSize else v.value
  }

  /**
   * A size is unknown exactly when every one of its 7·n data bits is set, for
   * an encoding n bytes long; otherwise it is the value read.
   */
  lemma SizeOfSentinel(v: VarInt)
    requires v.Valid()
    ensures SizeOf(v) == UnknownElementSize <==> v.value == Pow2(7 * v.EncodedLength()) - 1
    ensures SizeOf(v) != UnknownElementSize ==> SizeOf(v) == v.value
  {
    DataBitsFit(v.EncodedLength() - 1);
    assert DataBits(v.EncodedLength() - 1) == 7 * v.EncodedLength();
  }

  /**
   * State of `IdParser`: `bytes_remaining` is -1 before the first byte; `id`
   * is the `u32` into which every byte read, the first included, is shifted.
   */
  datatype IdState = IdState(bytesRemaining: int, id: uint32)
  {
    ghost predicate Valid()
    {
      || (bytesRemaining == -1 && id == 0)
      || 0 <= bytesRemaining <= 8
    }
  }

  /** `IdParser::new()`. */
  const IdFresh := IdState(-1, 0)

  /** The part of `IdParser::feed` after the first byte: accumulate and account. */
  function IdAccumulate(s: IdState, i: seq<byte>): (r: Fed<IdState>)
    requires 0 <= s.bytesRemaining <= 8
    ensures r.rest.Some? && |r.rest.value| <= |i| && r.next.Valid()
  {
    var a := Accumulate(s.bytesRemaining, i, s.id, U32Modulus);
    var o := a.rest.value;
    Fed(IdState(s.bytesRemaining - (|i| - |o|), a.integer), Some(o))
  }

  /**
   * The accumulation step reads min(bytes_remaining, |i|) bytes, counts them
   * off `bytes_remaining`, and shifts them into the `u32` ID.
   */
  lemma IdAccumulateSpec(s: IdState, i: seq<byte>)
    requires 0 <= s.bytesRemaining <= 8
    ensures var r := IdAccumulate(s, i);
            var k := Min(s.bytesRemaining, |i|);
            && r.rest == Some(i[k..])
            && r.next.bytesRemaining == s.bytesRemaining - k
            && r.next.id == BigEndian(s.id, i[..k]) % U32Modulus
  {
  }

  /**
   * `IdParser::feed`: the same first-byte rules as `VarIntParser::feed`, but the
   * first byte is kept whole in `id` (no marker bits are masked off) and the
   * bytes are shifted into a `u32`.
   */
  function IdFeed(s: IdState, i: seq<byte>): (r: Fed<IdState>)
    requires s.Valid()
    ensures r.next.Valid()
    ensures r.rest.None? <==> s.bytesRemaining < 0 && |i| >= 1 && !HighNibbleSet(i[0])
    ensures r.rest.Some? ==> |r.rest.value| <= |i|
  {
    if s.bytesRemaining < 0 then
      if |i| < 1 then Fed(s, Some(i))
      else if !HighNibbleSet(i[0]) then Fed(s, None)
      else IdAccumulate(IdState(LeadingCount(i[0]), i[0]), i[1..])
    else
      IdAccumulate(s, i)
  }

  /**
   * What one `IdParser::feed` call does: the rules of VarIntFeedSpec, with the
   * first byte and the data bytes read whole into the `u32` ID.
   */
  lemma IdFeedSpec(s: IdState, i: seq<byte>)
    requires s.Valid()
    ensures var r := IdFeed(s, i);
            && (r.rest.None? ==> r.next == s)
            && (s.bytesRemaining < 0 && i == [] ==> r == Fed(s, Some(i)))
            && (s.bytesRemaining < 0 && |i| >= 1 && HighNibbleSet(i[0]) ==>
                  var k := Min(LeadingCount(i[0]), |i| - 1);
                  && r.rest == Some(i[1 + k..])
                  && r.next.bytesRemaining == LeadingCount(i[0]) - k
                  && r.next.id == BigEndian(0, i[..1 + k]) % U32Modulus)
            && (s.bytesRemaining >= 0 ==>
                  var k := Min(s.bytesRemaining, |i|);
                  && r.rest == Some(i[k..])
                  && r.next.bytesRemaining == s.bytesRemaining - k)
            && (s.bytesRemaining == 0 ==> r == Fed(s, Some(i)))
  {
    if s.bytesRemaining < 0 {
      if |i| >= 1 && HighNibbleSet(i[0]) {
        var k := Min(LeadingCount(i[0]), |i| - 1);
        IdAccumulateSpec(IdState(LeadingCount(i[0]), i[0]), i[1..]);
        assert i[1..][k..] == i[1 + k..];
        assert i[..1 + k] == [i[0]] + i[1..][..k];
        assert BigEndian(0, i[..1 + k]) == BigEndian(i[0], i[1..][..k]);
      }
    } else {
      IdAccumulateSpec(s, i);
      if s.bytesRemaining == 0 {
        ModSmall(s.id, U32Modulus);
        assert i[..0] == [];
      }
    }
  }

  // ---------------------------------------------------------------------------
  // Properties of the decoders

  lemma ModIdempotent(x: int, m: int)
    requires m > 0
    ensures (x % m) % m == x % m
  {
    ModSmall(x % m, m);
  }

  /** The accumulation step gives the same result whether its input arrives whole or split. */
  lemma VarIntAccumulateResumable(s: VarInt, a: seq<byte>, b: seq<byte>)
    requires 0 <= s.bytesRemaining <= s.totalDataBytes <= 8
    ensures var f := VarIntAccumulate(s, a);
            VarIntAccumulate(s, a + b) == VarIntAccumulate(f.next, f.rest.value + b)
  {
    if s.bytesRemaining <= |a| {
      VarIntAccumulateFinishes(s, a, b);
    } else {
      VarIntAccumulateRunsOut(s, a, b);
    }
  }

  /** Split after the last data byte: the second call has nothing left to read. */
  lemma VarIntAccumulateFinishes(s: VarInt, a: seq<byte>, b: seq<byte>)
    requires 0 <= s.bytesRemaining <= s.totalDataBytes <= 8 && s.bytesRemaining <= |a|
    ensures var f := VarIntAccumulate(s, a);
            VarIntAccumulate(s, a + b) == VarIntAccumulate(f.next, f.rest.value + b)
  {
    var r := s.bytesRemaining;
    var m := Pow2(DataBits(s.totalDataBytes));
    var f := VarIntAccumulate(s, a);
    VarIntAccumulateAt(s, a, r, m);
    var j := a[r..] + b;
    assert f.rest.value + b == j;
    assert (a + b)[..r] == a[..r];
    assert (a + b)[r..] == j[0..];
    assert j[..0] == [];
    ModSmall(f.next.value, m);
    VarIntAccumulateSame(s, a + b, f.next, j, r, 0, m);
  }

  /** Split before the last data byte: the first call reads all of a. */
  lemma VarIntAccumulateRunsOut(s: VarInt, a: seq<byte>, b: seq<byte>)
    requires 0 <= s.bytesRemaining <= s.totalDataBytes <= 8 && s.bytesRemaining > |a|
    ensures var f := VarIntAccumulate(s, a);
            VarIntAccumulate(s, a + b) == VarIntAccumulate(f.next, f.rest.value + b)
  {
    var m := Pow2(DataBits(s.totalDataBytes));
    DataBitsFit(s.totalDataBytes);
    var t := VarInt(s.bytesRemaining - |a|, s.totalDataBytes, BigEndian(s.value, a) % m);
    ReadsAll(s, a, t, m);
    ContinuesFrom(s, a, b, t, m);
    assert [] + b == b;
  }

  /** A call that runs out of input reads all of it. */
  lemma ReadsAll(s: VarInt, a: seq<byte>, t: VarInt, m: nat)
    requires 0 <= s.bytesRemaining <= s.totalDataBytes <= 8 && s.bytesRemaining > |a|
    requires m == Pow2(DataBits(s.totalDataBytes))
    requires t.bytesRemaining == s.bytesRemaining - |a| && t.totalDataBytes == s.totalDataBytes
    requires t.value == BigEndian(s.value, a) % m
    ensures VarIntAccumulate(s, a) == Fed(t, Some([]))
  {
    VarIntAccumulateAt(s, a, |a|, m);
    assert a[..|a|] == a && a[|a|..] == [];
  }

  /** Reading a + b is reading a and then going on with b from where a stopped. */
  lemma ContinuesFrom(s: VarInt, a: seq<byte>, b: seq<byte>, t: VarInt, m: nat)
    requires 0 <= s.bytesRemaining <= s.totalDataBytes <= 8 && s.bytesRemaining > |a|
    requires m == Pow2(DataBits(s.totalDataBytes))
    requires t.bytesRemaining == s.bytesRemaining - |a| && t.totalDataBytes == s.totalDataBytes
    requires t.value == BigEndian(s.value, a) % m
    ensures VarIntAccumulate(s, a + b) == VarIntAccumulate(t, b)
  {
    var k2 := Min(t.bytesRemaining, |b|);
    DataBitsFit(s.totalDataBytes);
    BigEndianSplitMod(s.value, a, b, k2, m);
    assert a[..|a|] == a;
    assert (a + b)[|a| + k2..] == b[k2..];
    VarIntAccumulateSame(s, a + b, t, b, |a| + k2, k2, m);
  }

  /** Two accumulation steps that read to the same count, value and remainder agree. */
  lemma VarIntAccumulateSame(s: VarInt, i: seq<byte>, t: VarInt, j: seq<byte>, k: nat, l: nat, m: nat)
    requires 0 <= s.bytesRemaining <= s.totalDataBytes <= 8 && 0 <= t.bytesRemaining <= t.totalDataBytes <= 8
    requires k == Min(s.bytesRemaining, |i|) && l == Min(t.bytesRemaining, |j|)
    requires m == Pow2(DataBits(s.totalDataBytes)) && t.totalDataBytes == s.totalDataBytes
    requires s.bytesRemaining - k == t.bytesRemaining - l
    requires BigEndian(s.value, i[..k]) % m == BigEndian(t.value, j[..l]) % m && i[k..] == j[l..]
    ensures VarIntAccumulate(s, i) == VarIntAccumulate(t, j)
  {
    VarIntAccumulateAt(s, i, k, m);
    VarIntAccumulateAt(t, j, l, m);
  }

  /** VarIntAccumulateSpec with the count of bytes read and the modulus named. */
  lemma VarIntAccumulateAt(s: VarInt, i: seq<byte>, k: nat, m: nat)
    requires 0 <= s.bytesRemaining <= s.totalDataBytes <= 8
    requires k == Min(s.bytesRemaining, |i|) && m == Pow2(DataBits(s.totalDataBytes))
    ensures k <= |i| && 0 < m <= U64Modulus
    ensures VarIntAccumulate(s, i) == Fed(VarInt(s.bytesRemaining - k, s.totalDataBytes, BigEndian(s.value, i[..k]) % m), Some(i[k..]))
  {
    VarIntAccumulateSpec(s, i);
  }

  /** Reading a and then k more bytes of b, reducing modulo m in between, is reading them in one go. */
  lemma BigEndianSplitMod(v: nat, a: seq<byte>, b: seq<byte>, k: nat, m: nat)
    requires k <= |b| && m > 0
    ensures BigEndian(v, (a + b)[..|a| + k]) % m == BigEndian(BigEndian(v, a) % m, b[..k]) % m
  {
    var x := BigEndian(v, a);
    assert (a + b)[..|a| + k] == a + b[..k];
    BigEndianAppend(v, a, b[..k]);
    ModIdempotent(x, m);
    BigEndianCongruent(x % m, x, b[..k], m);
  }

  /**
   * Resumability of `VarIntParser::feed`: feeding a + b in one call ends in the
   * same state, with the same remainder, as feeding a and then feeding what the
   * first call left over followed by b. A malformed first byte in a is
   * reported the same way in both.
   */
  lemma VarIntFeedResumable(s: VarInt, a: seq<byte>, b: seq<byte>)
    requires s.Valid()
    ensures var f := VarIntFeed(s, a);
            && (f.rest.None? ==> VarIntFeed(s, a + b) == f)
            && (f.rest.Some? ==> VarIntFeed(s, a + b) == VarIntFeed(f.next, f.rest.value + b))
  {
    if s.bytesRemaining >= 0 {
      VarIntAccumulateResumable(s, a, b);
    } else if a == [] {
      assert a + b == b;
    } else if HighNibbleSet(a[0]) {
      var t := LeadingCount(a[0]);
      assert (a + b)[1..] == a[1..] + b;
      VarIntAccumulateResumable(VarInt(t, t, a[0]), a[1..], b);
    }
  }

  /** Reading the first byte separately from the data bytes. */
  lemma BigEndianFirst(i: seq<byte>, n: nat)
    requires 1 <= n <= |i|
    ensures BigEndian(0, i[..n]) == BigEndian(i[0], i[1..][..n - 1])
  {
    assert i[..n][1..] == i[1..][..n - 1];
  }

  /**
   * A whole size VINT at the front of the input is read by one call from the
   * initial state: n = 1 + get_leading_zeros(first byte) bytes are consumed,
   * nothing remains to be read, `encoded_length` is n, and the value is those n
   * bytes big-endian with everything above the low 7·n bits masked off.
   */
  lemma VarIntDecode(i: seq<byte>)
    requires |i| >= 1 && HighNibbleSet(i[0]) && |i| >= 1 + LeadingCount(i[0])
    ensures var n := 1 + LeadingCount(i[0]);
            var f := VarIntFeed(VarIntFresh, i);
            && f.rest == Some(i[n..])
            && f.next.bytesRemaining == 0
            && f.next.EncodedLength() == n
            && f.next.value == BigEndian(0, i[..n]) % Pow2(7 * n)
            && f.next.value < Pow2(7 * n)
  {
    var t := LeadingCount(i[0]);
    VarIntFeedSpec(VarIntFresh, i);
    VarIntAccumulateSpec(VarInt(t, t, i[0]), i[1..]);
    assert i[1..][t..] == i[1 + t..];
    BigEndianFirst(i, 1 + t);
  }

  /** The accumulation step of `IdParser::feed` split at any point. */
  lemma IdAccumulateResumable(s: IdState, a: seq<byte>, b: seq<byte>)
    requires 0 <= s.bytesRemaining <= 8
    ensures var f := IdAccumulate(s, a);
            IdAccumulate(s, a + b) == IdAccumulate(f.next, f.rest.value + b)
  {
    var r := s.bytesRemaining;
    var f := IdAccumulate(s, a);
    IdAccumulateSpec(s, a);
    IdAccumulateSpec(s, a + b);
    IdAccumulateSpec(f.next, f.rest.value + b);
    if r <= |a| {
      assert (a + b)[..r] == a[..r];
      assert (a + b)[r..] == a[r..] + b;
      ModSmall(f.next.id, U32Modulus);
    } else {
      var k2 := Min(r - |a|, |b|);
      assert a[..|a|] == a;
      assert (a + b)[..|a| + k2] == a + b[..k2];
      assert (a + b)[|a| + k2..] == b[k2..];
      assert f.rest.value + b == b;
      BigEndianAppend(s.id, a, b[..k2]);
      ModIdempotent(BigEndian(s.id, a), U32Modulus);
      BigEndianCongruent(BigEndian(s.id, a) % U32Modulus, BigEndian(s.id, a), b[..k2], U32Modulus);
    }
  }

  /** Resumability of `IdParser::feed`, as for `VarIntParser::feed`. */
  lemma IdFeedResumable(s: IdState, a: seq<byte>, b: seq<byte>)
    requires s.Valid()
    ensures var f := IdFeed(s, a);
            && (f.rest.None? ==> IdFeed(s, a + b) == f)
            && (f.rest.Some? ==> IdFeed(s, a + b) == IdFeed(f.next, f.rest.value + b))
  {
    if s.bytesRemaining >= 0 {
      IdAccumulateResumable(s, a, b);
    } else if a == [] {
      assert a + b == b;
    } else if HighNibbleSet(a[0]) {
      assert (a + b)[1..] == a[1..] + b;
      IdAccumulateResumable(IdState(LeadingCount(a[0]), a[0]), a[1..], b);
    }
  }

  /**
   * A whole ID at the front of the input is read by one call from the initial
   * state: its n = 1 + get_leading_zeros(first byte) bytes are kept whole,
   * marker bits included, as one big-endian `u32`; when n <= 4 nothing is lost,
   * so the ID is exactly the number its bytes spell, the form of the `Id` table.
   */
  lemma IdDecode(i: seq<byte>)
    requires |i| >= 1 && HighNibbleSet(i[0]) && |i| >= 1 + LeadingCount(i[0])
    ensures var n := 1 + LeadingCount(i[0]);
            var f := IdFeed(IdFresh, i);
            && f.rest == Some(i[n..])
            && f.next.bytesRemaining == 0
            && f.next.id == BigEndian(0, i[..n]) % U32Modulus
            && (n <= 4 ==> f.next.id == BigEndian(0, i[..n]))
  {
    var n := 1 + LeadingCount(i[0]);
    IdFeedSpec(IdFresh, i);
    if n <= 4 {
      FitsU32(i[..n]);
    }
  }

  /** Up to four bytes spell a number that a `u32` holds without loss. */
  lemma FitsU32(b: seq<byte>)
    requires |b| <= 4
    ensures BigEndian(0, b) % U32Modulus == BigEndian(0, b)
  {
    BigEndianBound(0, b);
    Pow2Monotone(8 * |b|, 32);
    Pow2Moduli();
    ModSmall(BigEndian(0, b), U32Modulus);
  }

  /**
   * The four bytes of the EBML header ID `kEbml` (0x1A45DFA3) are not read
   * back as that ID: the first byte has no leading one bit, so the decoder
   * stops after it with ID 0x1A and leaves the other three bytes unread.
   */
  lemma EbmlIdMisread(rest: seq<byte>)
    ensures IdFeed(IdFresh, [0x1A, 0x45, 0xDF, 0xA3] + rest)
            == Fed(IdState(0, 0x1A), Some([0x45, 0xDF, 0xA3] + rest))
  {
    var i: seq<byte> := [0x1A, 0x45, 0xDF, 0xA3] + rest;
    IdFeedSpec(IdFresh, i);
    assert i[..1] == [0x1A];
    assert BigEndian(0, [0x1A]) == BigEndian(0x1A, []);
    assert i[1..] == [0x45, 0xDF, 0xA3] + rest;
  }

  /**
   * A first byte from 0x10 to 0x7F has no leading one bit, so it is a whole
   * one-byte size: its value with the top bit masked off is the byte itself,
   * and only 0x7F is the unknown-size pattern.
   */
  lemma OneByteSize(b: byte, rest: seq<byte>)
    requires 0x10 <= b < 0x80
    ensures VarIntFeed(VarIntFresh, [b] + rest) == Fed(VarInt(0, 0, b), Some(rest))
    ensures SizeOf(VarInt(0, 0, b)) == if b == 0x7F then UnknownElementSize else b
  {
    var i: seq<byte> := [b] + rest;
    VarIntFeedSpec(VarIntFresh, i);
    VarIntAccumulateSpec(VarInt(0, 0, b), i[1..]);
    assert i[1..][..0] == [];
    assert i[1..] == rest;
    Pow2Byte();
    ModSmall(b, 128);
  }

  /**
   * Five bytes F0 18 53 80 67 are read as one ID: 0xF0 has four leading one
   * bits, and the `u32` accumulator keeps only the low four bytes, 0x18538067.
   */
  lemma FiveByteIdTruncated(rest: seq<byte>)
    ensures IdFeed(IdFresh, [0xF0, 0x18, 0x53, 0x80, 0x67] + rest)
            == Fed(IdState(0, 0x1853_8067), Some(rest))
  {
    var i: seq<byte> := [0xF0, 0x18, 0x53, 0x80, 0x67] + rest;
    IdFeedSpec(IdFresh, i);
    assert i[..5] == [0xF0, 0x18, 0x53, 0x80, 0x67];
    assert i[5..] == rest;
    assert BigEndian(0, [0xF0, 0x18, 0x53, 0x80, 0x67]) == 0xF0_1853_8067;
  }

  // ---------------------------------------------------------------------------
  // Encoding a size in the decoder's own convention

  /** The k low bytes of x, most significant first. */
  function ToBytes(x: nat, k: nat): (b: seq<byte>)
    ensures |b| == k
  {
    if k == 0 then [] else ToBytes(x / 0x100, k - 1) + [x % 0x100]
  }

  /** k bytes spell back any number below 2^(8·k). */
  lemma {:induction false} ToBytesSpells(x: nat, k: nat)
    requires x < Pow2(8 * k)
    ensures BigEndian(0, ToBytes(x, k)) == x
  {
    if k > 0 {
      Pow2Add(8 * (k - 1), 8);
      Pow2Byte();
      assert x / 0x100 < Pow2(8 * (k - 1));
      ToBytesSpells(x / 0x100, k - 1);
      BigEndianAppend(0, ToBytes(x / 0x100, k - 1), [x % 0x100]);
    }
  }

  /** The number n - 1 one bits, a zero bit and then v in 7·n bits spell. */
  function SizeWord(v: nat, n: nat): nat
    requires 1 <= n
  {
    (Pow2(n - 1) - 1) * Pow2(7 * n + 1) + v
  }

  /**
   * A size v written in n bytes the way the decoder reads them: n - 1 one
   * bits, a zero bit, then v in the remaining 7·n bits. (RFC 8794 section 4
   * writes the width as leading zero bits instead; this is the convention of
   * `get_leading_zeros`.)
   */
  function EncodeSize(v: nat, n: nat): (b: seq<byte>)
    requires 1 <= n <= 8
    ensures |b| == n
  {
    ToBytes(SizeWord(v, n), n)
  }

  /** A byte from 0x100 - 2^(8-k) up to, not including, 0x100 - 2^(7-k) counts k. */
  lemma LeadingCountOfRange(b: byte, k: nat)
    requires k < 8 && b != 0 && 0x100 - Pow2(8 - k) <= b < 0x100 - Pow2(7 - k)
    ensures LeadingCount(b) == k
  {
    Pow2Byte();
    if k == 0 {} else if k == 1 {} else if k == 2 {} else if k == 3 {}
    else if k == 4 {} else if k == 5 {} else if k == 6 {} else {}
  }

  /** The digits already read bound the number from below. */
  lemma {:induction false} BigEndianLower(acc: nat, bytes: seq<byte>)
    ensures BigEndian(acc, bytes) >= acc * Pow2(8 * |bytes|)
    decreases |bytes|
  {
    if bytes != [] {
      var p := Pow2(8 * |bytes[1..]|);
      BigEndianLower(acc * 0x100 + bytes[0], bytes[1..]);
      MulLe(acc * 0x100, acc * 0x100 + bytes[0], p);
      Pow2Byte();
      Pow2Add(8, 8 * |bytes[1..]|);
      assert Pow2(8 * |bytes|) == 0x100 * p;
      assert (acc * 0x100) * p == acc * (0x100 * p);
    }
  }

  /** The first of the bytes spelling x is x's top byte. */
  lemma FirstByte(b: seq<byte>, x: nat, p: nat)
    requires |b| >= 1 && BigEndian(0, b) == x && p == Pow2(8 * (|b| - 1))
    ensures b[0] * p <= x < (b[0] + 1) * p
  {
    BigEndianFirst(b, |b|);
    assert b[..|b|] == b;
    BigEndianLower(b[0], b[1..]);
    BigEndianBound(b[0], b[1..]);
  }

  /** Comparing multiples of a positive p compares the factors. */
  lemma MulOrder(a: int, b: int, p: nat)
    requires p > 0 && a * p < b * p
    ensures a < b
  {
    assert (b - a) * p == b * p - a * p;
  }

  /**
   * The arithmetic of the first byte: with a·q = 0x100, a = 2·c and v < c·p,
   * the top byte f of (q - 1)·a·p + v lies between 0x100 - a and 0x100 - c.
   */
  lemma TopByteRange(f: int, p: nat, v: nat, a: nat, c: nat, q: nat)
    requires p > 0 && q >= 1 && q * a == 0x100 && a == 2 * c && v < c * p
    requires f * p <= (q - 1) * (a * p) + v < (f + 1) * p
    ensures 0x100 - a <= f < 0x100 - c
  {
    assert (q - 1) * (a * p) == (0x100 - a) * p by {
      assert (q - 1) * (a * p) == ((q - 1) * a) * p;
      assert (q - 1) * a == q * a - a;
    }
    MulOrder(0x100 - a, f + 1, p);
    assert (0x100 - a) * p + c * p == (0x100 - c) * p;
    MulOrder(f, 0x100 - c, p);
  }

  /** The powers of two of an n-byte size, as the lemmas below use them. */
  lemma SizePowers(n: nat)
    requires 1 <= n <= 8
    ensures Pow2(n - 1) * Pow2(9 - n) == 0x100
    ensures Pow2(9 - n) == 2 * Pow2(8 - n)
    ensures Pow2(9 - n) * Pow2(8 * (n - 1)) == Pow2(7 * n + 1)
    ensures Pow2(8 - n) * Pow2(8 * (n - 1)) == Pow2(7 * n)
    ensures Pow2(7 * n + 1) == 2 * Pow2(7 * n)
    ensures Pow2(n - 1) * Pow2(7 * n + 1) == Pow2(8 * n)
  {
    Pow2Add(n - 1, 9 - n);
    Pow2Byte();
    Pow2Add(9 - n, 8 * (n - 1));
    Pow2Add(8 - n, 8 * (n - 1));
    Pow2Add(n - 1, 7 * n + 1);
  }

  /** The arithmetic of SizeWordFits: (q - 1)·2w + v with v < w is below q·2w and is v plus a multiple of w. */
  lemma WordArith(x: int, q: int, w: int, v: int, w1: int)
    requires q >= 1 && 0 <= v < w && w1 == 2 * w && x == (q - 1) * w1 + v
    ensures x < q * w1
    ensures x == (2 * (q - 1)) * w + v
  {
    assert (q - 1) * w1 == q * w1 - w1;
  }

  /** The word of an n-byte size fits in n bytes, and its low 7·n bits are v. */
  lemma SizeWordFits(v: nat, n: nat)
    requires 1 <= n <= 8 && v < Pow2(7 * n)
    ensures SizeWord(v, n) < Pow2(8 * n)
    ensures SizeWord(v, n) % Pow2(7 * n) == v
  {
    var q, w := Pow2(n - 1), Pow2(7 * n);
    SizePowers(n);
    WordArith(SizeWord(v, n), q, w, v, Pow2(7 * n + 1));
    ModAddMultiple(2 * (q - 1), w, v);
    ModSmall(v, w);
  }

  /** The first byte of EncodeSize(v, n) lies in the range that counts n - 1. */
  lemma EncodeSizeFirstByte(v: nat, n: nat)
    requires 1 <= n <= 8 && v < Pow2(7 * n)
    ensures var f := EncodeSize(v, n)[0];
            0x100 - Pow2(9 - n) <= f < 0x100 - Pow2(8 - n)
    ensures n == 1 ==> EncodeSize(v, n)[0] == v
  {
    var e := EncodeSize(v, n);
    var p := Pow2(8 * (n - 1));
    SizeWordFits(v, n);
    ToBytesSpells(SizeWord(v, n), n);
    FirstByte(e, SizeWord(v, n), p);
    SizePowers(n);
    TopByteRange(e[0], p, v, Pow2(9 - n), Pow2(8 - n), Pow2(n - 1));
  }

  /**
   * Round trip: a size v < 2^(7·n) written in n bytes (1 <= n <= 8) is read
   * back by one call from a fresh decoder as v, with encoded_length n and
   * whatever follows returned unread. A one-byte size needs v >= 0x10, since
   * the decoder refuses a first byte with a zero high nibble.
   */
  lemma SizeRoundTrip(v: nat, n: nat, rest: seq<byte>)
    requires 1 <= n <= 8 && v < Pow2(7 * n) && (n == 1 ==> v >= 0x10)
    ensures var f := VarIntFeed(VarIntFresh, EncodeSize(v, n) + rest);
            && f.rest == Some(rest)
            && f.next.bytesRemaining == 0 && f.next.EncodedLength() == n
            && f.next.value == v
  {
    var e := EncodeSize(v, n);
    var i := e + rest;
    EncodeSizeFirstByte(v, n);
    assert i[0] == e[0];
    assert HighNibbleSet(i[0]) by {
      Pow2Byte();
      if n > 1 {
        Pow2Monotone(9 - n, 7);
      }
    }
    LeadingCountOfRange(i[0], n - 1);
    VarIntDecode(i);
    assert i[..n] == e && i[n..] == rest;
    SizeWordFits(v, n);
    ToBytesSpells(SizeWord(v, n), n);
  }
}
