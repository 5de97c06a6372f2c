/**
 * The parts of ffi/vmrs.c that do not call into libav:
 * - `read_packet`, the read callback that serves a caller's buffer to libav
 *   as if it were a file, through a cursor (`struct buffer_data`) that it
 *   advances in place;
 * - `vmrs_metadata_free`, which releases and nulls the string fields of a
 *   metadata record;
 * - the input guard at the top of `vmrs_read_info`, and the two entry points
 *   that call it with a buffer or with a file name.
 *
 * C's nullable pointers are nullable references (`BufferData?`,
 * `VmrsMetadata?`) or `Option` values; a `char*` field is an
 * `Option<string>`.
 */
module Vmrs {
  import opened Common

  /** `VMRS_ERROR_INPUT_FAILURE` of `enum vmrs_result` (ffi/vmrs.h), the guard's only error. */
  const ErrorInputFailure: int32 := 1

  /**
   * `struct buffer_data`: `ptr` points `ptr` bytes into the caller's buffer
   * and `size` bytes from there on are still to be served.
   */
  class BufferData {
    const source: array<byte>
    var ptr: nat
    var size: nat

    ghost predicate Valid()
      reads this
    {
      ptr + size <= source.Length
    }

    /** The bytes still to be served. */
    ghost function Remaining(): seq<byte>
      reads this, source
      requires Valid()
    {
      source[ptr..ptr + size]
    }

    /** The set-up in `vmrs_read_info`: the cursor starts at the buffer with its whole size. */
    constructor (buffer: array<byte>, n: uint32)
      requires n <= buffer.Length
      ensures source == buffer && Valid() && ptr == 0 && size == n
      ensures Remaining() == buffer[..n]
    {
      source := buffer;
      ptr := 0;
      size := n;
    }
  }

  /**
   * `read_packet`: with a null `opaque` cursor or a negative request, 0 and no
   * change; otherwise copy min(`buf_size`, `size`) bytes from the front of
   * what remains into `buf`, advance the cursor past them, and return the
   * count.
   */
  method ReadPacket(data: BufferData?, buf: array<byte>, bufSize: int32) returns (n: int32)
    requires data != null ==> data.Valid() && buf != data.source
    requires data != null && bufSize >= 0 ==> bufSize <= buf.Length
    modifies buf, data
    ensures data == null || bufSize < 0 ==> n == 0 && unchanged(buf)
    ensures data != null && bufSize < 0 ==> unchanged(data)
    ensures data != null ==>
              && data.Valid()
              && n == (if bufSize < 0 then 0 else Min(bufSize, old(data.size)))
              && buf[..n] == old(data.Remaining())[..n]
              && data.Remaining() == old(data.Remaining())[n..]
    ensures data != null && bufSize >= 0 ==>
              && buf[n..] == old(buf[n..])
              && data.ptr == old(data.ptr) + n && data.size == old(data.size) - n
  {
    if data == null || bufSize < 0 {
      return 0;
    }
    var realBufSize := Min(bufSize, data.size);
    forall k | 0 <= k < realBufSize {
      buf[k] := data.source[data.ptr + k];
    }
    data.ptr := data.ptr + realBufSize;
    data.size := data.size - realBufSize;
    return realBufSize;
  }

  /**
   * What successive `read_packet` calls with the requests `requests` deliver
   * from `remaining`: each takes as much as it asks for and is left, from the
   * front; a negative request takes nothing.
   */
  function Deliveries(remaining: seq<byte>, requests: seq<int>): (d: seq<seq<byte>>)
    ensures |d| == |requests|
  {
    if requests == [] then []
    else
      var n := Taken(remaining, requests[0]);
      [remaining[..n]] + Deliveries(remaining[n..], requests[1..])
  }

  /** How many bytes one call with the given request takes from `remaining`. */
  function Taken(remaining: seq<byte>, request: int): (n: nat)
    ensures n <= |remaining| && (request >= 0 ==> n <= request)
    ensures request >= 0 && |remaining| >= request ==> n == request
  {
    if request < 0 then 0 else Min(request, |remaining|)
  }

  function Concat(chunks: seq<seq<byte>>): seq<byte>
  {
    if chunks == [] then [] else chunks[0] + Concat(chunks[1..])
  }

  /** One read through the callback: a buffer of the size asked for, then `read_packet` into it. */
  method ReadOnce(data: BufferData, want: int32) returns (got: seq<byte>)
    requires data.Valid()
    modifies data
    ensures data.Valid()
    ensures got == old(data.Remaining())[..Taken(old(data.Remaining()), want)]
    ensures data.Remaining() == old(data.Remaining())[Taken(old(data.Remaining()), want)..]
  {
    var buf := new byte[if want < 0 then 0 else want];
    var n := ReadPacket(data, buf, want);
    got := buf[..n];
  }

  /**
   * libav's reads through the callback: one `read_packet` call per request,
   * each into a fresh buffer of the size asked for, collecting what each call
   * copied. What was delivered and what remains make up the buffer.
   */
  method ReadPackets(data: BufferData, requests: seq<int32>) returns (chunks: seq<seq<byte>>)
    requires data.Valid()
    modifies data
    ensures data.Valid()
    ensures chunks == Deliveries(old(data.Remaining()), requests)
    ensures Concat(chunks) + data.Remaining() == old(data.Remaining())
  {
    ghost var start := data.Remaining();
    chunks := [];
    var k := 0;
    while k < |requests|
      invariant 0 <= k <= |requests| && data.Valid()
      invariant chunks + Deliveries(data.Remaining(), requests[k..]) == Deliveries(start, requests)
      invariant Concat(chunks) + data.Remaining() == start
    {
      ghost var rem := data.Remaining();
      var got := ReadOnce(data, requests[k]);
      DeliversNext(chunks, rem, requests[k..], got, data.Remaining());
      ConcatNext(start, chunks, rem, got, data.Remaining());
      assert requests[k..][1..] == requests[k + 1..];
      chunks := chunks + [got];
      k := k + 1;
    }
    assert requests[k..] == [];
  }

  /**
   * The loop's first invariant survives one call: the call that delivers `got`
   * from `before` and leaves `after` is the next one the requests make.
   */
  lemma DeliversNext(chunks: seq<seq<byte>>, before: seq<byte>, requests: seq<int>, got: seq<byte>, after: seq<byte>)
    requires requests != []
    requires got == before[..Taken(before, requests[0])] && after == before[Taken(before, requests[0])..]
    ensures chunks + Deliveries(before, requests) == (chunks + [got]) + Deliveries(after, requests[1..])
  {
  }

  /** The loop's second invariant survives one call: what was delivered and what remains still make up the buffer. */
  lemma ConcatNext(start: seq<byte>, chunks: seq<seq<byte>>, before: seq<byte>, got: seq<byte>, after: seq<byte>)
    requires |got| <= |before| && got == before[..|got|] && after == before[|got|..]
    requires Concat(chunks) + before == start
    ensures Concat(chunks + [got]) + after == start
  {
    ConcatAppend(chunks, got);
    Regroup(Concat(chunks), got, after, before);
  }

  lemma Regroup(done: seq<byte>, got: seq<byte>, after: seq<byte>, before: seq<byte>)
    requires |got| <= |before| && got == before[..|got|] && after == before[|got|..]
    ensures (done + got) + after == done + before
  {
    assert got + after == before;
  }

  lemma {:induction false} ConcatAppend(chunks: seq<seq<byte>>, c: seq<byte>)
    ensures Concat(chunks + [c]) == Concat(chunks) + c
  {
    if chunks == [] {
      assert [] + [c] == [c];
    } else {
      assert (chunks + [c])[1..] == chunks[1..] + [c];
      ConcatAppend(chunks[1..], c);
    }
  }

  /**
   * Successive calls hand out the buffer in order, without repeating or
   * skipping a byte: what they deliver together is a prefix of it, so the sum
   * of their counts never exceeds its size.
   */
  lemma {:induction false} DeliveriesArePrefix(remaining: seq<byte>, requests: seq<int>)
    ensures var c := Concat(Deliveries(remaining, requests));
            |c| <= |remaining| && c == remaining[..|c|]
  {
    if requests != [] {
      var n := Taken(remaining, requests[0]);
      var tail := Deliveries(remaining[n..], requests[1..]);
      DeliveriesArePrefix(remaining[n..], requests[1..]);
      assert Deliveries(remaining, requests) == [remaining[..n]] + tail;
      assert ([remaining[..n]] + tail)[1..] == tail;
      PrefixThenPrefix(remaining, n, Concat(tail));
    }
  }

  /** A prefix of what follows the first n bytes, after them, is a prefix. */
  lemma PrefixThenPrefix(remaining: seq<byte>, n: nat, c: seq<byte>)
    requires n <= |remaining| && |c| <= |remaining| - n && c == remaining[n..][..|c|]
    ensures remaining[..n] + c == remaining[..n + |c|]
  {
  }

  /** Once the buffer is used up, every further call delivers nothing. */
  lemma {:induction false} DeliveriesExhausted(requests: seq<int>)
    ensures forall k :: 0 <= k < |requests| ==> Deliveries([], requests)[k] == []
  {
    if requests != [] {
      DeliveriesExhausted(requests[1..]);
      assert Deliveries([], requests) == [[]] + Deliveries([], requests[1..]);
    }
  }

  /** `struct vmrs_metadata`: a null `char*` is None. */
  class VmrsMetadata {
    var duration: int64
    var width: uint32
    var height: uint32
    var delay: uint32
    var videoCodec: Option<string>
    var audioCodec: Option<string>
    var format: Option<string>
  }

  /**
   * `vmrs_metadata_free`: nothing on a null record; otherwise each string
   * field that is set is released and nulled, and no other field is touched.
   */
  method MetadataFree(metadata: VmrsMetadata?)
    modifies metadata
    ensures metadata != null ==> metadata.videoCodec.None? && metadata.audioCodec.None? && metadata.format.None?
    ensures metadata != null ==> unchanged(metadata`duration, metadata`width, metadata`height, metadata`delay)
  {
    if metadata == null {
      return;
    }
    if metadata.videoCodec.Some? {
      metadata.videoCodec := None;
    }
    if metadata.audioCodec.Some? {
      metadata.audioCodec := None;
    }
    if metadata.format.Some? {
      metadata.format := None;
    }
  }

  /**
   * The guard of `vmrs_read_info`: `VMRS_ERROR_INPUT_FAILURE` without an
   * output record, with both a buffer and a file name, or with a buffer of
   * size 0; None when the call goes on to libav.
   */
  function ReadInfoGuard(buffer: Option<seq<byte>>, size: uint32, filename: Option<string>,
                         out: VmrsMetadata?): (r: Option<int32>)
    ensures r.Some? ==> r.value == ErrorInputFailure
    ensures r.None? <==> out != null && (buffer.Some? ==> filename.None? && size > 0)
  {
    if out == null then Some(ErrorInputFailure)
    else if buffer.Some? && filename.Some? then Some(ErrorInputFailure)
    else if buffer.Some? && size == 0 then Some(ErrorInputFailure)
    else None
  }

  /**
   * The guard lets a call with neither a buffer nor a file name through to
   * libav, whatever the size: no check asks for at least one source.
   */
  lemma GuardAdmitsNoSource(size: uint32, out: VmrsMetadata)
    ensures ReadInfoGuard(None, size, None, out) == None
  {
  }

  /** `vmrs_read_info_from_buffer`: the guard with no file name. */
  function ReadInfoFromBuffer(buffer: Option<seq<byte>>, size: uint32, out: VmrsMetadata?): (r: Option<int32>)
    ensures r.None? <==> out != null && (buffer.Some? ==> size > 0)
  {
    ReadInfoGuard(buffer, size, None, out)
  }

  /** `vmrs_read_info_from_file`: the guard with no buffer, which only the output record can trip. */
  function ReadInfoFromFile(filename: Option<string>, out: VmrsMetadata?): (r: Option<int32>)
    ensures r.None? <==> out != null
  {
    ReadInfoGuard(None, 0, filename, out)
  }
}
