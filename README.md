# video-metadata-rs: a Dafny model of the WebM header reader and its surroundings

This project models the core of video-metadata-rs, a library that tells which
container format a video file is in (WebM, MP4, Ogg) and reads its metadata.
It has four parts.

- **The WebM header reader** (`src/formats/webm/webm.rs`). It has these pieces:
  - `get_leading_zeros`, the leading-bit counter.
  - `accumulate_integer_bytes`, the big-endian accumulator.
  - The three resumable decoders of EBML variable-size integers. `VarIntParser` masks off the marker bits. `SizeParser` adds the unknown-size sentinel. `IdParser` keeps the marker bits.
  - The table of element IDs.
  - `get_information`, whose loop drives the ID and size decoders through the states Begin, ReadChildId, ReadChildSize and ValidateChildSize.

  Modules: `WebmVint` (`webm_vint.dfy`) holds the decoders' state as values with pure transitions. `Webm` (`webm.dfy`) holds the decoders as classes whose `Feed` methods update their fields in place, plus the loop as a method. `Ids` (`ids.dfy`) holds the ID constants.
- **The format dispatcher** (`src/formats/mod.rs`). `get_format` applies the `check_format!` merge rule to the reports of the format parsers. This is module `Formats` (`formats.dfy`). Module `Types` (`types.dfy`) holds the shapes of `src/types.rs` and the three-way parser report `Complete | Incomplete | Unknown`.
- **Format-name lookup** (`src/enums.rs`). This is `KnownTypes::maybe_from`, in module `Enums` (`enums.dfy`).
- **The C front end** (`ffi/vmrs.c`). It covers these pieces:
  - The `read_packet` callback, which serves a caller's buffer through a cursor that it advances in place.
  - `vmrs_metadata_free`.
  - The input guard of `vmrs_read_info` and its two entry points.

  This is module `Vmrs` (`vmrs.dfy`). Module `Common` (`common.dfy`) holds the machine integer types and arithmetic facts.

These methods are proved against value-level definitions:
- The decoders' `Feed` methods step exactly as `VarIntFeed` and `IdFeed`.
- `GetInformation` ends exactly as `Run`.
- `GetFormat` returns exactly `Merged`.
- `ReadPackets`, successive `read_packet` calls, delivers exactly `Deliveries`.

The properties are then proved as lemmas about those definitions. `ReadPacket` and `MetadataFree` state their effect on the cursor and the record directly in their postconditions.

## How the code reads EBML, compared with RFC 8794

- **Leading ones, not leading zeros.** `get_leading_zeros` counts the leading ONE bits of a byte (webm.rs:173). RFC 8794 section 4.1 takes the width of a VINT from the leading ZERO bits. Throughout this README the width of an encoded integer is its total number of bytes, `encoded_length` in the code, which is 1 + the leading count of its first byte. The model follows the code. These lemmas show the consequences:
  - `WebmVint.LeadingCountDiverges`.
  - `WebmVint.EbmlIdMisread`: the EBML header ID 1A 45 DF A3 is read as the one-byte ID 0x1A.
  - `Webm.EbmlHeaderSpins`: a real EBML header leaves the loop in ValidateChildSize with no way out.
  - `Webm.SegmentNeedsFiveBytes` and `Webm.SegmentReachesGetAction`: the ID decoder yields kSegment only from an ID of five or more bytes (first byte 0xF0 or above), whose top bytes the `u32` accumulator drops.
- **Zero first byte.** The code rejects any first byte whose high nibble is zero before it counts bits (webm.rs:221, 290). So the 8 that `get_leading_zeros` returns for a zero byte is never reached from `feed`.
- **The width is the whole run of ones.** The guard looks only at the high nibble, but the count takes the whole run of leading ones (webm.rs:173), so 0xF8 has leading count 5 and width 6.
- **Accumulators wrap.** Sizes are shifted into a `u64` and IDs into a `u32` (webm.rs:192, 298), so a width-9 size or an ID of 5 or more bytes loses its top bits. The model reduces modulo 2^64 and 2^32 (`WebmVint.FiveByteIdTruncated`).
- **The dispatcher never reports `Unknown`.** `get_format` ends with `Incomplete(possibilities)` (mod.rs:20), even when every parser reports `Unknown` (`Formats.Merged`).
- **Encoding.** The library has no encoder. `WebmVint.EncodeSize` writes a size in the decoder's own convention (n - 1 one bits, a zero bit, then 7·n bits of value), and `WebmVint.SizeRoundTrip` proves that the decoder reads it back.

## Reading of code that does not compile as written

`webm.rs` does not compile as written. The model takes the evident intent at each such place:

- webm.rs:183: `return false` in a function returning `Option` is read as `return None`.
- webm.rs:221: the arm has no `match u8!(i, true)` head. It is read as the same match as in `IdParser::feed` (webm.rs:289-296).
- webm.rs:221, 290: the guard `first_byte & 0xf0` is read as `first_byte & 0xf0 != 0`.
- webm.rs:190-195: the `_ => return None` arm of `u8!` cannot be taken, because the input is known to be nonempty there. It is left out.
- webm.rs:192: the `&mut usize` accumulator is read at the width of the integer actually passed: `u64` from `VarIntParser` and `u32` from `IdParser`. The call at webm.rs:298 passes `&mut u32`.
- webm.rs:232, 248, 262: `u64::max()` is read as `u64::MAX`.
- webm.rs:327, 337: `input.len()` is read as the length of the slice `i` at the start of the arm.
- webm.rs:349-355: `State::GetAction` is read as `Status::GetAction`. The assignments to the undefined `child_parser` are left out.

## Model

| member | source | states |
|---|---|---|
| WebmVint.LeadingCount | src/formats/webm/webm.rs:167-178 | the count is 8 for a zero byte and never more than 8 |
| WebmVint.LeadingCountIsRun | src/formats/webm/webm.rs:167-178 | for a nonzero byte the count n is the run of set bits from bit 7: the top n bits are set and, if n < 8, bit 7 - n is clear |
| WebmVint.GetLeadingZeros | src/formats/webm/webm.rs:167-178 | the probing loop returns exactly the length of that run (8 for 0 and for 0xFF) |
| WebmVint.AllOnesNeverStops | src/formats/webm/webm.rs:173 | for the byte 0xFF every probe the code computes (`0x80 >> count` on a `u8`, the shift masked to three bits) finds a set bit, so the loop never ends; the probe read as 0 past bit 0 stops it at 8 |
| WebmVint.LeadingCountDiverges | src/formats/webm/webm.rs:173 | 0x1A, the first byte of kEbml with three leading zeros, counts 0; every byte from 0x80 to 0xFE counts at least 1 |
| WebmVint.Accumulate | src/formats/webm/webm.rs:180-199 | a count outside 0..=8 gives None and leaves the integer; otherwise the rest is the input less min(count, length) bytes and the integer stays below the modulus |
| WebmVint.AccumulateIntegerBytes | src/formats/webm/webm.rs:180-199 | a count below 0 or above 8 is refused with the integer untouched; otherwise exactly min(count, input length) bytes are consumed and shifted in big-endian at the integer's width, running out of input is not a failure, and the result stays within the width |
| WebmVint.VarIntAccumulateSpec | src/formats/webm/webm.rs:229-233 | after the first byte, a feed reads min(bytes_remaining, input length) bytes, lowers bytes_remaining by that count, and masks the value to its 7·encoded_length data bits |
| WebmVint.VarIntFeed | src/formats/webm/webm.rs:216-237 | `feed` returns None exactly for a first byte with a zero high nibble; never consumes more than it is given; leaves a state whose value fits its data bits |
| WebmVint.VarIntFeedSpec | src/formats/webm/webm.rs:216-237 | a malformed first byte leaves the state untouched; empty input before the first byte is returned unchanged; a good first byte fixes total_data_bytes at its leading count, so the width is 1 + that count; each call consumes min(bytes_remaining, input length) and returns the rest; a finished decoder is not changed |
| WebmVint.SizeOf | src/formats/webm/webm.rs:261-268 | `size()` is either the sentinel `u64::MAX` or the value read |
| WebmVint.SizeOfSentinel | src/formats/webm/webm.rs:261-268 | `size()` is `u64::MAX` exactly when the value is all ones in its 7·encoded_length data bits, and otherwise the value itself |
| WebmVint.IdFeed | src/formats/webm/webm.rs:284-305 | `feed` returns None exactly for a first byte with a zero high nibble; never consumes more than it is given |
| WebmVint.IdAccumulateSpec | src/formats/webm/webm.rs:298-304 | after the first byte, a feed reads min(bytes_remaining, input length) bytes into the u32 ID and lowers bytes_remaining by that count |
| WebmVint.IdFeedSpec | src/formats/webm/webm.rs:284-305 | the rules of VarIntFeedSpec, with the first byte kept whole: the ID is the big-endian value of every byte read, modulo 2^32 |
| WebmVint.VarIntAccumulateResumable | src/formats/webm/webm.rs:229-236 | the data-byte phase gives the same state and remainder whether its input comes whole or split at any point |
| WebmVint.VarIntAccumulateFinishes | src/formats/webm/webm.rs:229-236 | a split after the last data byte: the second call reads nothing and changes nothing |
| WebmVint.VarIntAccumulateRunsOut | src/formats/webm/webm.rs:229-236 | a split before the last data byte: the second call continues the value where the first stopped |
| WebmVint.VarIntFeedResumable | src/formats/webm/webm.rs:216-237 | feeding a + b equals feeding a and then what it left followed by b; a malformed first byte is reported the same way both times |
| WebmVint.VarIntDecode | src/formats/webm/webm.rs:216-241 | a whole size at the front is read in one call: 1 + leading count bytes consumed, encoded_length equal to that count, value equal to those bytes big-endian masked to 7·n bits |
| WebmVint.IdAccumulateResumable | src/formats/webm/webm.rs:298-304 | the ID's data-byte phase gives the same state and remainder whether its input comes whole or split |
| WebmVint.IdFeedResumable | src/formats/webm/webm.rs:284-305 | feeding a + b to the ID decoder equals feeding a and then the rest followed by b |
| WebmVint.IdDecode | src/formats/webm/webm.rs:284-305 | a whole ID at the front is read in one call, marker bits kept; for widths up to 4 it is exactly the number its bytes spell, the form of the Id table; wider IDs are reduced modulo 2^32 |
| WebmVint.SizeRoundTrip | src/formats/webm/webm.rs:216-241 | a size v < 2^(7·n) written by EncodeSize in n bytes (1 <= n <= 8; v >= 0x10 when n = 1) is read back by one feed from a fresh decoder as v, with encoded_length n and what follows returned unread |
| WebmVint.EbmlIdMisread | src/formats/webm/webm.rs:289-294 | the bytes of kEbml (1A 45 DF A3) are read as the one-byte ID 0x1A, with three bytes left unread |
| WebmVint.OneByteSize | src/formats/webm/webm.rs:216-237 | a first byte 0x10..0x7F is a whole one-byte size equal to the byte itself; only 0x7F is the unknown size |
| WebmVint.FiveByteIdTruncated | src/formats/webm/webm.rs:298-304 | F0 18 53 80 67 is read as one ID whose top byte falls off the u32: 0x18538067, kSegment |
| Webm.VarIntParser.constructor | src/formats/webm/webm.rs:208-214 | a new decoder has bytes_remaining -1, no data bytes and value 0 |
| Webm.VarIntParser.Feed | src/formats/webm/webm.rs:216-237 | the fields are updated and the result returned exactly as VarIntFeed says, and the state stays valid |
| Webm.VarIntParser.EncodedLength | src/formats/webm/webm.rs:239-241 | encoded_length is total_data_bytes + 1, between 1 and 9, and the value fits in 7·encoded_length bits |
| Webm.SizeParser.constructor | src/formats/webm/webm.rs:251-255 | a new size decoder wraps a fresh VarIntParser |
| Webm.SizeParser.Feed | src/formats/webm/webm.rs:257-259 | the inner decoder steps exactly as VarIntFeed |
| Webm.SizeParser.Size | src/formats/webm/webm.rs:261-268 | the sentinel `u64::MAX` exactly when all 7·encoded_length data bits are set; otherwise the value read |
| Webm.IdParser.constructor | src/formats/webm/webm.rs:277-282 | a new ID decoder has bytes_remaining -1 and ID 0 |
| Webm.IdParser.Feed | src/formats/webm/webm.rs:284-305 | the fields are updated and the result returned exactly as IdFeed says |
| Webm.Run | src/formats/webm/webm.rs:319-358 | the loop returns Unknown only on a nonempty slice and only from Begin, ReadChildId or ReadChildSize |
| Webm.Pass | src/formats/webm/webm.rs:320-358 | one pass of the loop body returns Unknown only from a state before ValidateChildSize |
| Webm.ReadIdArm | src/formats/webm/webm.rs:324-345 | from ReadChildId the loop returns Unknown exactly when a fresh ID decoder meets a first byte with a zero high nibble, or when the ID is whole and the byte right after it, the size's first byte, has a zero high nibble (SizeMalformedAfterId) |
| Webm.ReadSizeArm | src/formats/webm/webm.rs:334-345 | Unknown exactly when the size decoder has not started and the first byte has a zero high nibble; once the size is read, nothing later returns Unknown |
| Webm.GetInformation | src/formats/webm/webm.rs:308-360 | the loop over the slice, with the decoders as objects, ends exactly as Run from the initial locals |
| Webm.BeginStep | src/formats/webm/webm.rs:321-323 | unfolding of Pass at Begin: on to ReadChildId without consuming input |
| Webm.IdRejects | src/formats/webm/webm.rs:324-333 | unfolding of ReadIdArm when the ID decoder rejects the first byte: Unknown |
| Webm.IdStep | src/formats/webm/webm.rs:324-333 | unfolding of ReadIdArm otherwise: the loop goes on in ReadChildSize with what the ID decoder left, header_size grown by the bytes it consumed |
| Webm.SizeRejects | src/formats/webm/webm.rs:334-345 | unfolding of ReadSizeArm when the size decoder rejects the first byte: Unknown |
| Webm.SizeStep | src/formats/webm/webm.rs:334-345 | unfolding of ReadSizeArm otherwise: the ID and size are copied out and the loop goes on in ValidateChildSize, header_size grown by the bytes consumed |
| Webm.ValidateStep | src/formats/webm/webm.rs:346-358 | unfolding of Pass at ValidateChildSize: kSegment and kEbml lead to GetAction with did_seek false; any other ID has no way out; an empty slice has already ended the loop |
| Webm.NoArmStep | src/formats/webm/webm.rs:319-359 | unfolding of Pass past ValidateChildSize: a state without an arm (GetAction and later) stops the loop where it is |
| Webm.RunAccounts | src/formats/webm/webm.rs:319-358 | unless a decoder rejected a byte, the unread input is a suffix of the input, header_size grew by exactly the bytes consumed, the state only moved forward, and the loop stopped only where it can (Settled): out of input, without an arm in GetAction or later with input left, or with no way out in ValidateChildSize on an ID other than kSegment and kEbml |
| Webm.IdArmAccounts | src/formats/webm/webm.rs:324-333 | the accounting of RunAccounts from ReadChildId |
| Webm.SizeArmAccounts | src/formats/webm/webm.rs:334-345 | the accounting of RunAccounts from ReadChildSize |
| Webm.NeverUnknownAfterSize | src/formats/webm/webm.rs:346-358 | once in ValidateChildSize the function never returns Unknown |
| Webm.SizeUnknownIff | src/formats/webm/webm.rs:334-345 | from ReadChildSize with a fresh decoder, Unknown exactly when the next byte has a zero high nibble |
| Webm.UnknownIffMalformed | src/formats/webm/webm.rs:319-358 | `get_information` returns Unknown exactly when the ID's first byte, or the size's first byte after it, has a zero high nibble; input that ends earlier is not Unknown |
| Webm.ReadsWholeId | src/formats/webm/webm.rs:324-333 | a whole ID in front is read in one pass, header_size counting its bytes |
| Webm.ReadsWholeSize | src/formats/webm/webm.rs:334-345 | a whole size in front is read in one pass, header_size counting its bytes |
| Webm.ReadsIdFirst | src/formats/webm/webm.rs:319-333 | from the start, an input opening with a whole ID reaches ReadChildSize with that ID and header_size n |
| Webm.ReadsSizeThenValidates | src/formats/webm/webm.rs:334-358 | a whole size is read and the loop settles in ValidateChildSize: out of input, on to GetAction for kSegment/kEbml, or no way out |
| Webm.CompleteHeader | src/formats/webm/webm.rs:308-360 | an input opening with a whole ID and a whole size ends with that ID, that size, header_size n + n2, and the ValidateChildSize outcome |
| Webm.EbmlHeaderSpins | src/formats/webm/webm.rs:346-358 | a real EBML header is misread as ID 0x1A and size 0x45, and the loop is left in ValidateChildSize with no way out |
| Webm.SegmentNeedsFiveBytes | src/formats/webm/webm.rs:284-305 | a whole ID decodes to kSegment only if its first byte is 0xF0 or above, that is, only if it is five or more bytes long |
| Webm.SegmentReachesGetAction | src/formats/webm/webm.rs:346-352 | F0 18 53 80 67 42 reaches GetAction with ID kSegment, size 0x42, header_size 6 and did_seek false |
| Formats.Candidates | src/formats/mod.rs:8-10 | at most one candidate per report |
| Formats.CandidatesAppend | src/formats/mod.rs:9 | candidates keep the order in which the parsers were checked |
| Formats.Merged | src/formats/mod.rs:4-21 | the merge never reports Unknown, even when every parser does; a Complete result is one of the reports; an Incomplete result has at most one candidate per report |
| Formats.CandidatesStep | src/formats/mod.rs:8-10 | one more Incomplete report adds its first candidate at the end of the list; any other report adds nothing |
| Formats.MergedSpec | src/formats/mod.rs:4-21 | the first Complete report is returned unchanged; without one the result is Incomplete with the first candidate of each Incomplete report, in order, and Unknown reports add nothing |
| Formats.CandidatesFromReports | src/formats/mod.rs:8-10 | every candidate is the first candidate of some Incomplete report |
| Formats.WebmOnly | src/formats/mod.rs:16-21 | with the WebM parser alone: Complete comes back unchanged, Unknown becomes Incomplete([]), and Incomplete(x) becomes Incomplete([x[0]]) |
| Formats.GetFormat | src/formats/mod.rs:16-21 | the loop that pushes candidates and returns early returns exactly Merged |
| Enums.ToLower | src/enums.rs:13 | ASCII lowering: the result is never an upper-case letter and other characters are kept |
| Enums.Lowercase | src/enums.rs:13 | lowering keeps the length and lowers every character |
| Enums.Contains | src/enums.rs:15 | true exactly when the key occurs at some position of the string |
| Enums.Lookup | src/enums.rs:14-19 | None exactly when no entry's name occurs; otherwise the format of the first entry whose name occurs |
| Enums.LookupByTable | src/enums.rs:10-19 | the search over the table tries "webm", then "mp4", then "ogg", and returns the format of the first name that occurs |
| Enums.MaybeFrom | src/enums.rs:9-20 | on the lowercased name: WebM if "webm" occurs, else MP4 if "mp4" occurs, else Ogg if "ogg" occurs, else None, so ties go to the earlier entry |
| Enums.MaybeFromCaseInsensitive | src/enums.rs:13 | lowering or raising the name does not change the result |
| Enums.MaybeFromSubstring | src/enums.rs:13-16 | matching is by substring: any name with "WebM" inside, such as "video/WebM", is WebM |
| Vmrs.BufferData.constructor | ffi/vmrs.c:105-108 | the cursor starts at the caller's buffer with its whole size still to serve |
| Vmrs.ReadPacket | ffi/vmrs.c:45-66 | a null cursor or a negative request returns 0 and changes nothing; otherwise min(buf_size, size) bytes from the front of what remains are copied into buf, the rest of buf is kept, the cursor advances and size drops by the returned count |
| Vmrs.Taken | ffi/vmrs.c:47-50 | a negative request takes nothing; otherwise FFMIN(buf_size, size), written with Common.Min: never more than asked or than is left, and all that was asked when enough is left |
| Vmrs.Deliveries | ffi/vmrs.c:45-66 | one delivery per request |
| Vmrs.ReadOnce | ffi/vmrs.c:45-66 | one call into a fresh buffer of the size asked for delivers the next Taken bytes of what remains and leaves the rest |
| Vmrs.ReadPackets | ffi/vmrs.c:45-66 | successive calls deliver exactly Deliveries of the buffer, and what was delivered followed by what remains is the whole buffer |
| Vmrs.DeliveriesArePrefix | ffi/vmrs.c:59-62 | the deliveries together are a prefix of the buffer: handed out in order, without gaps or repeats, never summing past its size |
| Vmrs.DeliveriesExhausted | ffi/vmrs.c:50-62 | once size is 0 every later call delivers nothing |
| Vmrs.MetadataFree | ffi/vmrs.c:15-33 | a null record is left alone; otherwise the three string fields are null afterwards and the numeric fields are unchanged |
| Vmrs.ReadInfoGuard | ffi/vmrs.c:84-93 | VMRS_ERROR_INPUT_FAILURE exactly when out is null, both buffer and filename are given, or a buffer comes with size 0 |
| Vmrs.GuardAdmitsNoSource | ffi/vmrs.c:84-93 | a call with neither buffer nor filename passes the guard, whatever the size |
| Vmrs.ReadInfoFromBuffer | ffi/vmrs.c:239-243 | with no filename the guard fails exactly for a null out or a buffer of size 0 |
| Vmrs.ReadInfoFromFile | ffi/vmrs.c:245-248 | with no buffer and size 0 the guard fails only for a null out |

## Left out

- The states after ValidateChildSize: GetAction, InitializeChildParser, ReadChildBody and End have no arms in the loop (webm.rs:320-359). The model ends the loop there with the outcome NoArm. It does not invent element traversal, container frames or leaf extraction.
- What `get_information` returns after its loop: the function has no final return (webm.rs:359-403). So `Webm.GetInformation` returns how the loop ended (`Information`), not an `enums::Result`. `Formats.GetFormat` takes the parsers' reports as its input.
- Webm.ValidateStep: for an ID other than kSegment or kEbml the source loops forever without changing state. The model reports this as the outcome Spins rather than as non-termination.
- The unused local `position` (webm.rs:310) is left out.
- The commented-out DKIF/IVF block (webm.rs:362-403) is dead code. The test at webm.rs:406-414 reads an asset file. Both are left out.
- Enums.ToLower, Enums.Lowercase: only ASCII letters are lowered. Rust's `to_lowercase` also lowers non-ASCII letters; Unicode case mapping is not modelled.
- Vmrs.MetadataFree: the `free` calls themselves are not modelled, because the model has no heap of C strings. Only the nulling of the fields is.
- Vmrs.ReadPacket: `data->ptr` is an offset into the caller's buffer. The model requires the buffer to hold `size` bytes from there on, which `vmrs_read_info` establishes. It also requires the buffers not to overlap, as `memcpy` does.
- The rest of `vmrs_read_info` (vmrs.c:95-237) calls libav and is left out, and so is `vmrs_initialize`.
- Also left out: `ffi/info.c` (libav plumbing), `src/symbols.rs` (dynamic library loading), `build.rs`, `src/video_metadata.rs` (wrappers over the ogg and mp4 crates, and file I/O) and `test/test-simple.c`.
- The `Types` module gives the shapes of `src/types.rs`; there is nothing to prove about plain data.
- WebmVint.GetLeadingZeros: the probe `0x80 >> count` at webm.rs:173 is a `u8`, and for the byte 0xFF the count reaches 8, where the shift overflows: a debug build panics and a release build masks the shift to `count % 8` and never leaves the loop. The model returns the evidently intended 8 (see Findings); the panic and the endless loop are not modelled.
- Formats.GetFormat: requires every Incomplete report to carry at least one candidate. `check_format!` indexes `x[0]` (mod.rs:9) and panics on `Incomplete([])`; that panic is not modelled.
- WebmVint.SizeRoundTrip: covers widths 1 to 8 only. A width-9 size starts with 0xFF, which the decoder cannot count (see Findings), and a one-byte size below 0x10 has a first byte the decoder refuses.
- Vmrs.Deliveries: its own contract states only one delivery per request; what each delivery holds is stated by DeliveriesArePrefix, DeliveriesExhausted and ReadPackets.

## Findings

| source | as written | input that shows it | evidently intended | confidence | as-written member | corrected member |
|---|---|---|---|---|---|---|
| src/formats/webm/webm.rs:173 | the probe `0x80 >> count` is a `u8`; for 0xFF the count reaches 8 and the shift overflows (a debug build panics; a release build shifts by `count % 8`, always finds a set bit and loops forever) | any ID or size whose first byte is 0xFF | the loop stops at 8, the count of leading ones of 0xFF | not executed | WebmVint.AllOnesNeverStops | WebmVint.GetLeadingZeros |
