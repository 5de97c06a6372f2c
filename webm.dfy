/**
 * The WebM header reader of src/formats/webm/webm.rs: the three resumable
 * decoders as classes whose fields keep their progress between `feed` calls,
 * and `get_information`, the loop that drives them through the states
 * Begin, ReadChildId, ReadChildSize and ValidateChildSize.
 *
 * Each `Feed` method is proved to step exactly as the value-level transition
 * of module WebmVint; `GetInformation` is proved to end exactly as `Run`, the
 * value-level account of the same loop, and the lemmas below state what `Run`
 * does with an input.
 */
module Webm {
  import opened Common
  import opened WebmVint
  import Ids

  /** `VarIntParser`: the size decoder that masks off the marker bits. */
  class VarIntParser {
    var bytesRemaining: int
    var totalDataBytes: int
    var value: uint64

    function State(): VarInt
      reads this
    {
      VarInt(bytesRemaining, totalDataBytes, value)
    }

    ghost predicate Valid()
      reads this
    {
      State().Valid()
    }

    /** `VarIntParser::new()`. */
    constructor ()
      ensures State() == VarIntFresh
    {
      bytesRemaining := -1;
      totalDataBytes := 0;
      value := 0;
    }

    /** `VarIntParser::feed`. */
    method Feed(i: seq<byte>) returns (o: Option<seq<byte>>)
      requires Valid()
      modifies this
      ensures Valid()
      ensures Fed(State(), o) == VarIntFeed(old(State()), i)
    {
      var input := i;
      if bytesRemaining < 0 {
        if |input| < 1 {
          return Some(input);
        }
        var firstByte := input[0];
        if !HighNibbleSet(firstByte) {
          return None;
        }
        totalDataBytes := GetLeadingZeros(firstByte);
        bytesRemaining := totalDataBytes;
        value := firstByte;
        input := input[1..];
      }
      ghost var started := State();
      assert VarIntFeed(old(State()), i) == VarIntAccumulate(started, input);
      VarIntAccumulateSpec(started, input);
      var rest, acc := AccumulateIntegerBytes(bytesRemaining, input, value, U64Modulus);
      match rest
      case Some(r) =>
        bytesRemaining := bytesRemaining - (|input| - |r|);
        // value &= u64::MAX >> (57 - 7 * total_data_bytes)
        ModU64ThenPow2(BigEndian(started.value, input[..|input| - |r|]), DataBits(totalDataBytes));
        value := acc % Pow2(DataBits(totalDataBytes));
        o := Some(r);
      case None =>
        assert false;
    }

    /** `encoded_length`: the value read so far fits in 7 bits per encoded byte. */
    function EncodedLength(): (n: int)
      reads this
      requires Valid()
      ensures 1 <= n <= 9 && n == State().EncodedLength()
      ensures value < Pow2(7 * n)
    {
      totalDataBytes + 1
    }
  }

  /** `SizeParser`: a `VarIntParser` plus the unknown-size sentinel. */
  class SizeParser {
    const uintParser: VarIntParser

    /** `SizeParser::new()`. */
    constructor ()
      ensures fresh(uintParser) && uintParser.State() == VarIntFresh
    {
      uintParser := new VarIntParser();
    }

    /** `SizeParser::feed`: delegates to the inner decoder. */
    method Feed(i: seq<byte>) returns (o: Option<seq<byte>>)
      requires uintParser.Valid()
      modifies uintParser
      ensures uintParser.Valid()
      ensures Fed(uintParser.State(), o) == VarIntFeed(old(uintParser.State()), i)
    {
      o := uintParser.Feed(i);
    }

    /**
     * `SizeParser::size`: the sentinel `u64::MAX` exactly when every data bit
     * of the encoded width is set, and otherwise the value read.
     */
    function Size(): (r: uint64)
      reads uintParser
      requires uintParser.Valid()
      ensures r == UnknownElementSize <==> uintParser.value == Pow2(7 * uintParser.EncodedLength()) - 1
      ensures r != UnknownElementSize ==> r == uintParser.value
    {
      SizeOfSentinel(uintParser.State());
      SizeOf(uintParser.State())
    }
  }

  /** `IdParser`: the ID decoder that keeps the marker bits. */
  class IdParser {
    var bytesRemaining: int
    var id: uint32

    function State(): IdState
      reads this
    {
      IdState(bytesRemaining, id)
    }

    ghost predicate Valid()
      reads this
    {
      State().Valid()
    }

    /** `IdParser::new()`. */
    constructor ()
      ensures State() == IdFresh
    {
      bytesRemaining := -1;
      id := 0;
    }

    /** `IdParser::feed`. */
    method Feed(i: seq<byte>) returns (o: Option<seq<byte>>)
      requires Valid()
      modifies this
      ensures Valid()
      ensures Fed(State(), o) == IdFeed(old(State()), i)
    {
      var input := i;
      if bytesRemaining < 0 {
        if |input| < 1 {
          return Some(input);
        }
        var firstByte := input[0];
        if !HighNibbleSet(firstByte) {
          return None;
        }
        bytesRemaining := GetLeadingZeros(firstByte);
        id := firstByte;
        input := input[1..];
      }
      var rest, acc := AccumulateIntegerBytes(bytesRemaining, input, id, U32Modulus);
      match rest
      case Some(r) =>
        bytesRemaining := bytesRemaining - (|input| - |r|);
        id := acc;
        return Some(r);
      case None =>
        return None;
    }
  }

  // ---------------------------------------------------------------------------
  // get_information

  /** The `Status` enum: the states of the traversal. Only the first four have arms in the loop. */
  datatype Status =
    | Begin | ReadChildId | ReadChildSize | ValidateChildSize
    | GetAction | InitializeChildParser | ReadChildBody | End

  /** The loop's local state other than the input slice. */
  datatype Machine = Machine(
    status: Status,
    headerSize: nat,
    idParser: IdState,
    sizeParser: VarInt,
    id: uint32,
    size: uint64,
    didSeek: bool)
  {
    ghost predicate Valid()
    {
      idParser.Valid() && sizeParser.Valid()
    }
  }

  /** The locals as `get_information` initialises them. */
  const Initial := Machine(Begin, 0, IdFresh, VarIntFresh, 0, 0, true)

  /**
   * How the loop of `get_information` ends.
   * - Unknown: a decoder reported a malformed first byte and the function
   *   returns `enums::Result::Unknown`.
   * - InputEnded: `while i.len() > 0` ran out of input.
   * - NoArm: the loop reached a state for which the match has no arm
   *   (GetAction, InitializeChildParser, ReadChildBody, End).
   * - Spins: ValidateChildSize with an ID that is neither kSegment nor kEbml;
   *   the loop would repeat that arm forever with nothing changing.
   */
  datatype Information =
    | Unknown
    | InputEnded(machine: Machine)
    | NoArm(machine: Machine, rest: seq<byte>)
    | Spins(machine: Machine, rest: seq<byte>)
  {
    /** The input left unread when the loop ends. */
    function Rest(): seq<byte>
      requires !Unknown?
    {
      if InputEnded? then [] else rest
    }
  }

  function Rank(s: Status): nat
  {
    match s
    case Begin => 0
    case ReadChildId => 1
    case ReadChildSize => 2
    case ValidateChildSize => 3
    case _ => 4
  }

  /**
   * Where the loop can stop: out of input with valid decoders; for want of an
   * arm only in GetAction or later, with input left; and without a way out
   * only in ValidateChildSize, for an ID other than kSegment and kEbml.
   */
  ghost predicate Settled(r: Information)
  {
    match r
    case Unknown => true
    case InputEnded(m) => m.Valid()
    case NoArm(m, rest) => m.Valid() && Rank(m.status) == 4 && rest != []
    case Spins(m, rest) =>
      m.Valid() && m.status == ValidateChildSize && m.id != Ids.Segment && m.id != Ids.Ebml && rest != []
  }

  /**
   * The loop of `get_information`, `while i.len() > 0 { match status { ... } }`,
   * from the locals m and the slice i. Every arm that goes on moves strictly
   * forward through the states, which is why the loop ends.
   */
  function Run(m: Machine, i: seq<byte>): (r: Information)
    requires m.Valid()
    ensures r.Unknown? ==> |i| > 0 && Rank(m.status) <= 2
    decreases 4 - Rank(m.status), 2
  {
    if |i| == 0 then InputEnded(m) else Pass(m, i)
  }

  /** One pass of the loop body on a nonempty slice, then the rest of the loop. */
  function Pass(m: Machine, i: seq<byte>): (r: Information)
    requires m.Valid() && |i| > 0
    ensures r.Unknown? ==> Rank(m.status) <= 2
    decreases 4 - Rank(m.status), 1
  {
    match m.status
    case Begin =>
      Run(m.(status := ReadChildId), i)
    case ReadChildId =>
      ReadIdArm(m, i)
    case ReadChildSize =>
      ReadSizeArm(m, i)
    case ValidateChildSize =>
      if m.id == Ids.Segment || m.id == Ids.Ebml then
        Run(m.(status := GetAction, didSeek := false), i)
      else
        Spins(m, i)
    case _ =>
      NoArm(m, i)
  }

  /**
   * What the ID decoder leaves of i is nonempty and opens with a size first
   * byte that a fresh size decoder refuses.
   */
  predicate SizeMalformedAfterId(m: Machine, i: seq<byte>)
    requires m.Valid()
  {
    var o := IdFeed(m.idParser, i).rest;
    o.Some? && |o.value| > 0 && m.sizeParser.bytesRemaining < 0 && !HighNibbleSet(o.value[0])
  }

  /**
   * The ReadChildId arm: feed the slice to the ID decoder; a malformed first
   * byte is `Result::Unknown`, otherwise on to ReadChildSize with what it left,
   * `header_size` counting the bytes it consumed. The loop then returns Unknown
   * exactly when the ID's first byte, or the size's first byte right after a
   * whole ID, is malformed.
   */
  function ReadIdArm(m: Machine, i: seq<byte>): (r: Information)
    requires m.Valid() && m.status == ReadChildId && |i| > 0
    ensures r.Unknown? <==>
      (m.idParser.bytesRemaining < 0 && !HighNibbleSet(i[0])) || SizeMalformedAfterId(m, i)
    decreases 4 - Rank(m.status), 0
  {
    match IdFeed(m.idParser, i)
    case Fed(_, None) => Unknown
    case Fed(next, Some(o)) =>
      var m' := m.(status := ReadChildSize, idParser := next, headerSize := m.headerSize + (|i| - |o|));
      assert |o| > 0 ==> Run(m', o) == ReadSizeArm(m', o);
      Run(m', o)
  }

  /**
   * The ReadChildSize arm: feed the slice to the size decoder; a malformed
   * first byte is `Result::Unknown`, otherwise copy out the ID and the size and
   * go on to ValidateChildSize, `header_size` counting the bytes consumed.
   */
  function ReadSizeArm(m: Machine, i: seq<byte>): (r: Information)
    requires m.Valid() && m.status == ReadChildSize && |i| > 0
    ensures r.Unknown? <==> m.sizeParser.bytesRemaining < 0 && !HighNibbleSet(i[0])
    decreases 4 - Rank(m.status), 0
  {
    match VarIntFeed(m.sizeParser, i)
    case Fed(_, None) => Unknown
    case Fed(next, Some(o)) =>
      Run(m.(status := ValidateChildSize, sizeParser := next, headerSize := m.headerSize + (|i| - |o|),
             id := m.idParser.id, size := SizeOf(next)), o)
  }

  /** `get_information`, with the two decoders as local objects. */
  method GetInformation(input: seq<byte>) returns (r: Information)
    ensures r == Run(Initial, input)
  {
    var i := input;
    var status := Begin;
    var headerSize: nat := 0;
    var idParser := new IdParser();
    var sizeParser := new SizeParser();
    var id: uint32 := 0;
    var size: uint64 := 0;
    var didSeek := true;
    ghost var m := Initial;
    while |i| > 0
      invariant idParser.Valid() && sizeParser.uintParser.Valid()
      invariant m.status == status && m.headerSize == headerSize && m.id == id && m.size == size && m.didSeek == didSeek
      invariant m.idParser == idParser.State() && m.sizeParser == sizeParser.uintParser.State()
      invariant m.Valid() && Run(m, i) == Run(Initial, input)
      decreases 4 - Rank(status)
    {
      match status
      case Begin =>
        BeginStep(m, i);
        status := ReadChildId;
        m := m.(status := ReadChildId);
      case ReadChildId =>
        var o := idParser.Feed(i);
        match o {
          case Some(rest) =>
            IdStep(m, i, idParser.State(), rest);
            m := m.(status := ReadChildSize, idParser := idParser.State(),
                    headerSize := m.headerSize + (|i| - |rest|));
            headerSize := headerSize + (|i| - |rest|);
            i := rest;
            status := ReadChildSize;
          case None =>
            IdRejects(m, i);
            return Unknown;
        }
      case ReadChildSize =>
        var o := sizeParser.Feed(i);
        match o {
          case Some(rest) =>
            ghost var next := sizeParser.uintParser.State();
            SizeStep(m, i, next, rest);
            m := m.(status := ValidateChildSize, sizeParser := next,
                    headerSize := m.headerSize + (|i| - |rest|),
                    id := m.idParser.id, size := SizeOf(next));
            headerSize := headerSize + (|i| - |rest|);
            id := idParser.id;
            size := sizeParser.Size();
            i := rest;
            status := ValidateChildSize;
          case None =>
            SizeRejects(m, i);
            return Unknown;
        }
      case ValidateChildSize =>
        ValidateStep(m, i);
        if id == Ids.Segment || id == Ids.Ebml {
          didSeek := false;
          status := GetAction;
          m := m.(status := GetAction, didSeek := false);
          NoArmStep(m, i);
        } else {
          return Spins(Machine(status, headerSize, idParser.State(), sizeParser.uintParser.State(), id, size, didSeek), i);
        }
      case _ =>
        NoArmStep(m, i);
        return NoArm(Machine(status, headerSize, idParser.State(), sizeParser.uintParser.State(), id, size, didSeek), i);
    }
    return InputEnded(Machine(status, headerSize, idParser.State(), sizeParser.uintParser.State(), id, size, didSeek));
  }

  // ---------------------------------------------------------------------------
  // What get_information does with an input

  /**
   * How an outcome r of the loop started in m on the slice i accounts for the
   * input: unless a decoder rejected a first byte, what r leaves unread is a
   * suffix of i, every byte before it is counted in `header_size`, the
   * state it ends in is no earlier than the one it started in, and the loop
   * stopped where it can stop (Settled).
   */
  ghost predicate Accounts(m: Machine, i: seq<byte>, r: Information)
  {
    !r.Unknown? ==>
      && |r.Rest()| <= |i| && r.Rest() == i[|i| - |r.Rest()|..]
      && r.machine.headerSize == m.headerSize + (|i| - |r.Rest()|)
      && Rank(r.machine.status) >= Rank(m.status)
      && Settled(r)
  }

  /** Every outcome of the loop accounts for the input it was given. */
  lemma {:induction false} RunAccounts(m: Machine, i: seq<byte>)
    requires m.Valid()
    ensures Accounts(m, i, Run(m, i))
    decreases 4 - Rank(m.status), 1
  {
    if |i| > 0 {
      match m.status
      case Begin =>
        var m' := m.(status := ReadChildId);
        BeginStep(m, i);
        RunAccounts(m', i);
        AccountsOnSuffix(m, i, m', i, Run(m', i));
      case ReadChildId =>
        IdArmAccounts(m, i);
      case ReadChildSize =>
        SizeArmAccounts(m, i);
      case ValidateChildSize =>
        ValidateStep(m, i);
      case _ =>
        NoArmStep(m, i);
    }
  }

  /** RunAccounts from ReadChildId. */
  lemma {:induction false} IdArmAccounts(m: Machine, i: seq<byte>)
    requires m.Valid() && m.status == ReadChildId && |i| > 0
    ensures Accounts(m, i, Run(m, i))
    decreases 4 - Rank(m.status), 0
  {
    var f := IdFeed(m.idParser, i);
    if f.rest.None? {
      IdRejects(m, i);
    } else {
      var o := f.rest.value;
      var m' := m.(status := ReadChildSize, idParser := f.next, headerSize := m.headerSize + (|i| - |o|));
      IdFeedSpec(m.idParser, i);
      IdStep(m, i, f.next, o);
      RunAccounts(m', o);
      AccountsOnSuffix(m, i, m', o, Run(m', o));
    }
  }

  /** RunAccounts from ReadChildSize. */
  lemma {:induction false} SizeArmAccounts(m: Machine, i: seq<byte>)
    requires m.Valid() && m.status == ReadChildSize && |i| > 0
    ensures Accounts(m, i, Run(m, i))
    decreases 4 - Rank(m.status), 0
  {
    FedSuffix(m.sizeParser, i);
    match VarIntFeed(m.sizeParser, i)
    case Fed(_, None) =>
      SizeRejects(m, i);
    case Fed(next, Some(o)) =>
      var m' := m.(status := ValidateChildSize, sizeParser := next, headerSize := m.headerSize + (|i| - |o|),
                   id := m.idParser.id, size := SizeOf(next));
      SizeStep(m, i, next, o);
      RunAccounts(m', o);
      AccountsOnSuffix(m, i, m', o, Run(m', o));
  }

  /** What the size decoder leaves of the slice is a suffix of it. */
  lemma FedSuffix(s: VarInt, i: seq<byte>)
    requires s.Valid()
    ensures var r := VarIntFeed(s, i);
            r.rest.Some? ==> r.rest.value == i[|i| - |r.rest.value|..]
  {
    VarIntFeedSpec(s, i);
  }

  /**
   * The induction step of RunAccounts: after a pass that consumed a prefix of
   * the slice, counted it in `header_size` and moved forward, an outcome that
   * accounts for the rest accounts for the whole slice.
   */
  lemma AccountsOnSuffix(m: Machine, i: seq<byte>, m': Machine, o: seq<byte>, r: Information)
    requires Rank(m'.status) >= Rank(m.status)
    requires |o| <= |i| && o == i[|i| - |o|..] && m'.headerSize == m.headerSize + (|i| - |o|)
    requires Accounts(m', o, r)
    ensures Accounts(m, i, r)
  {
    if !r.Unknown? {
      assert o[|o| - |r.Rest()|..] == i[|i| - |r.Rest()|..];
    }
  }

  /** The Begin arm: on to ReadChildId with the same slice. */
  lemma BeginStep(m: Machine, i: seq<byte>)
    requires m.Valid() && m.status == Begin && |i| > 0
    ensures Run(m, i) == Run(m.(status := ReadChildId), i)
  {
    assert Run(m, i) == Pass(m, i);
  }

  /** A state with no arm in the match: the loop stops where it is. */
  lemma NoArmStep(m: Machine, i: seq<byte>)
    requires m.Valid() && Rank(m.status) == 4 && |i| > 0
    ensures Run(m, i) == NoArm(m, i)
  {
    assert Run(m, i) == Pass(m, i);
  }

  /** The ReadChildId arm, when the ID decoder rejects the first byte: `Result::Unknown`. */
  lemma IdRejects(m: Machine, i: seq<byte>)
    requires m.Valid() && m.status == ReadChildId && |i| > 0
    requires IdFeed(m.idParser, i).rest.None?
    ensures Run(m, i) == Unknown
  {
    assert Run(m, i) == Pass(m, i) == ReadIdArm(m, i);
  }

  /** The ReadChildId arm otherwise: on to ReadChildSize with what the ID decoder left. */
  lemma IdStep(m: Machine, i: seq<byte>, next: IdState, rest: seq<byte>)
    requires m.Valid() && m.status == ReadChildId && |i| > 0
    requires IdFeed(m.idParser, i) == Fed(next, Some(rest))
    ensures next.Valid()
    ensures Run(m, i) == Run(m.(status := ReadChildSize, idParser := next,
                                headerSize := m.headerSize + (|i| - |rest|)), rest)
  {
    assert Run(m, i) == Pass(m, i) == ReadIdArm(m, i);
  }

  /** The ReadChildSize arm, when the size decoder rejects the first byte: `Result::Unknown`. */
  lemma SizeRejects(m: Machine, i: seq<byte>)
    requires m.Valid() && m.status == ReadChildSize && |i| > 0
    requires VarIntFeed(m.sizeParser, i).rest.None?
    ensures Run(m, i) == Unknown
  {
    assert Run(m, i) == Pass(m, i) == ReadSizeArm(m, i);
  }

  /** The ReadChildSize arm otherwise: copy out the ID and the size, on to ValidateChildSize. */
  lemma SizeStep(m: Machine, i: seq<byte>, next: VarInt, rest: seq<byte>)
    requires m.Valid() && m.status == ReadChildSize && |i| > 0
    requires VarIntFeed(m.sizeParser, i) == Fed(next, Some(rest))
    ensures next.Valid()
    ensures Run(m, i) == Run(m.(status := ValidateChildSize, sizeParser := next,
                                headerSize := m.headerSize + (|i| - |rest|),
                                id := m.idParser.id, size := SizeOf(next)), rest)
  {
    assert Run(m, i) == Pass(m, i) == ReadSizeArm(m, i);
  }

  /**
   * The ValidateChildSize arm: kSegment and kEbml move on to GetAction with
   * `did_seek` cleared, where the loop stops for want of an arm; any other ID
   * has no way out. With no input left the loop has already ended.
   */
  lemma ValidateStep(m: Machine, i: seq<byte>)
    requires m.Valid() && m.status == ValidateChildSize
    ensures i == [] ==> Run(m, i) == InputEnded(m)
    ensures i != [] && (m.id == Ids.Segment || m.id == Ids.Ebml) ==>
              Run(m, i) == NoArm(m.(status := GetAction, didSeek := false), i)
    ensures i != [] && m.id != Ids.Segment && m.id != Ids.Ebml ==> Run(m, i) == Spins(m, i)
  {
    if i != [] {
      assert Run(m, i) == Pass(m, i);
      if m.id == Ids.Segment || m.id == Ids.Ebml {
        NoArmStep(m.(status := GetAction, didSeek := false), i);
      }
    }
  }

  /** From ValidateChildSize on, the loop never reports `Result::Unknown`. */
  lemma NeverUnknownAfterSize(m: Machine, i: seq<byte>)
    requires m.Valid() && m.status == ValidateChildSize
    ensures !Run(m, i).Unknown?
  {
    ValidateStep(m, i);
  }

  /**
   * From ReadChildSize with a fresh size decoder, the loop reports
   * `Result::Unknown` exactly when the slice starts with a malformed byte.
   */
  lemma SizeUnknownIff(m: Machine, i: seq<byte>)
    requires m.Valid() && m.status == ReadChildSize && m.sizeParser == VarIntFresh
    ensures Run(m, i).Unknown? <==> |i| > 0 && !HighNibbleSet(i[0])
  {
    if |i| > 0 {
      match VarIntFeed(m.sizeParser, i)
      case Fed(_, None) =>
        SizeRejects(m, i);
      case Fed(next, Some(o)) =>
        SizeStep(m, i, next, o);
        NeverUnknownAfterSize(m.(status := ValidateChildSize, sizeParser := next,
                                 headerSize := m.headerSize + (|i| - |o|),
                                 id := m.idParser.id, size := SizeOf(next)), o);
    }
  }

  /**
   * `get_information` returns `Result::Unknown` exactly when the first byte of
   * the ID, or the first byte of the size that follows it, has a zero high
   * nibble; an input that ends before either is merely incomplete.
   */
  lemma UnknownIffMalformed(input: seq<byte>)
    ensures Run(Initial, input).Unknown? <==>
            && |input| > 0
            && (|| !HighNibbleSet(input[0])
                || (var o := IdFeed(IdFresh, input).rest.value;
                    |o| > 0 && !HighNibbleSet(o[0])))
  {
    if |input| > 0 {
      var m1 := Initial.(status := ReadChildId);
      BeginStep(Initial, input);
      var f := IdFeed(IdFresh, input);
      if f.rest.None? {
        IdRejects(m1, input);
      } else {
        IdStep(m1, input, f.next, f.rest.value);
        SizeUnknownIff(m1.(status := ReadChildSize, idParser := f.next,
                           headerSize := |input| - |f.rest.value|), f.rest.value);
      }
    }
  }

  /** From ReadChildId with a fresh ID decoder, a whole ID is read in one pass. */
  lemma ReadsWholeId(m: Machine, i: seq<byte>)
    requires m.Valid() && m.status == ReadChildId && m.idParser == IdFresh
    requires |i| >= 1 && HighNibbleSet(i[0]) && |i| >= 1 + LeadingCount(i[0])
    ensures var n := 1 + LeadingCount(i[0]);
            Run(m, i) == Run(m.(status := ReadChildSize,
                                idParser := IdState(0, BigEndian(0, i[..n]) % U32Modulus),
                                headerSize := m.headerSize + n), i[n..])
  {
    var n := 1 + LeadingCount(i[0]);
    IdDecode(i);
    var f := IdFeed(m.idParser, i);
    assert f == Fed(IdState(0, BigEndian(0, i[..n]) % U32Modulus), Some(i[n..]));
    IdStep(m, i, f.next, i[n..]);
  }

  /** From ReadChildSize with a fresh size decoder, a whole size is read in one pass. */
  lemma ReadsWholeSize(m: Machine, i: seq<byte>)
    requires m.Valid() && m.status == ReadChildSize && m.sizeParser == VarIntFresh
    requires |i| >= 1 && HighNibbleSet(i[0]) && |i| >= 1 + LeadingCount(i[0])
    ensures var n := 1 + LeadingCount(i[0]);
            var g := VarIntFeed(VarIntFresh, i);
            Run(m, i) == Run(m.(status := ValidateChildSize, sizeParser := g.next,
                                   headerSize := m.headerSize + n,
                                   id := m.idParser.id, size := SizeOf(g.next)), i[n..])
  {
    var n := 1 + LeadingCount(i[0]);
    VarIntFeedSpec(VarIntFresh, i);
    var g := VarIntFeed(m.sizeParser, i);
    assert g.rest == Some(i[n..]);
    SizeStep(m, i, g.next, i[n..]);
  }

  /** An input that starts with a whole ID is read up to ReadChildSize, `header_size` counting the ID. */
  lemma ReadsIdFirst(input: seq<byte>)
    requires |input| >= 1 && HighNibbleSet(input[0]) && |input| >= 1 + LeadingCount(input[0])
    ensures var n := 1 + LeadingCount(input[0]);
            var id := BigEndian(0, input[..n]) % U32Modulus;
            Run(Initial, input) == Run(Machine(ReadChildSize, n, IdState(0, id), VarIntFresh, 0, 0, true), input[n..])
  {
    var m1 := Initial.(status := ReadChildId);
    BeginStep(Initial, input);
    ReadsWholeId(m1, input);
  }

  /**
   * From ReadChildSize with a fresh size decoder and a whole size in front,
   * the loop reads the size and settles in ValidateChildSize: out of input if
   * nothing follows, on to GetAction for kSegment and kEbml, no way out otherwise.
   */
  lemma ReadsSizeThenValidates(m: Machine, i: seq<byte>)
    requires m.Valid() && m.status == ReadChildSize && m.sizeParser == VarIntFresh
    requires |i| >= 1 && HighNibbleSet(i[0]) && |i| >= 1 + LeadingCount(i[0])
    ensures var n := 1 + LeadingCount(i[0]);
            var rest := i[n..];
            var g := VarIntFeed(VarIntFresh, i);
            var header := m.(status := ValidateChildSize, sizeParser := g.next, headerSize := m.headerSize + n,
                             id := m.idParser.id, size := SizeOf(g.next));
            Run(m, i)
               == if rest == [] then InputEnded(header)
                  else if header.id == Ids.Segment || header.id == Ids.Ebml then
                    NoArm(header.(status := GetAction, didSeek := false), rest)
                  else Spins(header, rest)
  {
    var n := 1 + LeadingCount(i[0]);
    var g := VarIntFeed(VarIntFresh, i);
    var header := m.(status := ValidateChildSize, sizeParser := g.next, headerSize := m.headerSize + n,
                     id := m.idParser.id, size := SizeOf(g.next));
    ReadsWholeSize(m, i);
    ValidateStep(header, i[n..]);
    if i[n..] == [] {
      assert Run(m, i) == InputEnded(header);
    } else if header.id == Ids.Segment || header.id == Ids.Ebml {
      assert Run(m, i) == NoArm(header.(status := GetAction, didSeek := false), i[n..]);
    } else {
      assert Run(m, i) == Spins(header, i[n..]);
    }
  }

  /**
   * An input that starts with a whole ID and a whole size is read as follows:
   * the ID is its n bytes kept whole (modulo 2^32), the size is what the size
   * decoder reads from the n2 bytes after it, `header_size` is n + n2, and then
   * - if nothing follows, the loop runs out of input in ValidateChildSize;
   * - if the ID is kSegment or kEbml, the loop moves on to GetAction with
   *   `did_seek` cleared and stops there, since that state has no arm;
   * - for any other ID, ValidateChildSize has no way out.
   */
  lemma CompleteHeader(input: seq<byte>)
    requires |input| >= 1 && HighNibbleSet(input[0]) && |input| >= 1 + LeadingCount(input[0])
    requires var o := input[1 + LeadingCount(input[0])..];
             |o| >= 1 && HighNibbleSet(o[0]) && |o| >= 1 + LeadingCount(o[0])
    ensures var n := 1 + LeadingCount(input[0]);
            var o := input[n..];
            var n2 := 1 + LeadingCount(o[0]);
            var rest := o[n2..];
            var id := BigEndian(0, input[..n]) % U32Modulus;
            var g := VarIntFeed(VarIntFresh, o);
            var header := Machine(ValidateChildSize, n + n2, IdState(0, id), g.next, id, SizeOf(g.next), true);
            Run(Initial, input)
               == if rest == [] then InputEnded(header)
                  else if id == Ids.Segment || id == Ids.Ebml then
                    NoArm(header.(status := GetAction, didSeek := false), rest)
                  else Spins(header, rest)
  {
    var n := 1 + LeadingCount(input[0]);
    var id := BigEndian(0, input[..n]) % U32Modulus;
    ReadsIdFirst(input);
    ReadsSizeThenValidates(Machine(ReadChildSize, n, IdState(0, id), VarIntFresh, 0, 0, true), input[n..]);
  }

  /**
   * A real EBML header (ID 1A 45 DF A3) is misread: the ID is taken to be the
   * single byte 0x1A, the next byte 0x45 is taken as a one-byte size, and the
   * loop is left in ValidateChildSize with an ID it has no way out for.
   */
  lemma EbmlHeaderSpins(rest: seq<byte>)
    ensures Run(Initial, [0x1A, 0x45, 0xDF, 0xA3] + rest)
            == Spins(Machine(ValidateChildSize, 2, IdState(0, 0x1A), VarInt(0, 0, 0x45), 0x1A, 0x45, true),
                     [0xDF, 0xA3] + rest)
  {
    var input: seq<byte> := [0x1A, 0x45, 0xDF, 0xA3] + rest;
    var o: seq<byte> := [0x45, 0xDF, 0xA3] + rest;
    var m1 := Initial.(status := ReadChildId);
    BeginStep(Initial, input);
    EbmlIdMisread(rest);
    IdStep(m1, input, IdState(0, 0x1A), o);
    var m2 := m1.(status := ReadChildSize, idParser := IdState(0, 0x1A), headerSize := 1);
    assert Run(Initial, input) == Run(m2, o);
    OneByteSize(0x45, [0xDF, 0xA3] + rest);
    assert o == [0x45] + ([0xDF, 0xA3] + rest);
    SizeStep(m2, o, VarInt(0, 0, 0x45), [0xDF, 0xA3] + rest);
    var m3 := Machine(ValidateChildSize, 2, IdState(0, 0x1A), VarInt(0, 0, 0x45), 0x1A, 0x45, true);
    assert Run(m2, o) == Run(m3, [0xDF, 0xA3] + rest);
    ValidateStep(m3, [0xDF, 0xA3] + rest);
  }

  /**
   * The ID decoder yields kSegment (0x18538067) only from an ID of five or
   * more bytes, whose first byte is 0xF0 or above: an ID of up to three bytes
   * stays below 2^24, and a four-byte ID starts with a byte from 0xE0, so it
   * is at least 0xE0000000. The `u32` accumulator keeps the low four bytes of
   * a longer ID, which can spell kSegment.
   */
  lemma SegmentNeedsFiveBytes(i: seq<byte>)
    requires |i| >= 1 && HighNibbleSet(i[0]) && |i| >= 1 + LeadingCount(i[0])
    ensures IdFeed(IdFresh, i).next.id == Ids.Segment ==> LeadingCount(i[0]) >= 4 && i[0] >= 0xF0
  {
    var n := 1 + LeadingCount(i[0]);
    IdDecode(i);
    if n <= 3 {
      ShortIdBelow(i[..n]);
    } else if n == 4 {
      FourByteIdAbove(i[..4]);
    }
  }

  /** Up to three bytes spell a number below 2^24. */
  lemma ShortIdBelow(b: seq<byte>)
    requires |b| <= 3
    ensures BigEndian(0, b) < 0x100_0000
  {
    BigEndianBound(0, b);
    Pow2Monotone(8 * |b|, 24);
    Pow2Byte();
    Pow2Add(8, 8);
    Pow2Add(8, 16);
  }

  /** Four bytes starting from 0xE0 spell at least 0xE0000000. */
  lemma FourByteIdAbove(b: seq<byte>)
    requires |b| == 4 && b[0] >= 0x80 && LeadingCount(b[0]) == 3
    ensures BigEndian(0, b) >= 0xE000_0000
  {
    LeadingCountIsRun(b[0]);
    Pow2Byte();
    Pow2Add(8, 8);
    Pow2Add(8, 16);
    FirstByte(b, BigEndian(0, b), Pow2(24));
  }

  /**
   * The Segment arm is reached through an ID of five or more bytes (see
   * SegmentNeedsFiveBytes), such as F0 18 53 80 67, which the `u32`
   * accumulator truncates to kSegment.
   */
  lemma SegmentReachesGetAction(rest: seq<byte>)
    requires rest != []
    ensures var r := Run(Initial, [0xF0, 0x18, 0x53, 0x80, 0x67, 0x42] + rest);
            && r.NoArm? && r.rest == rest
            && r.machine.status == GetAction && r.machine.id == Ids.Segment
            && r.machine.size == 0x42 && r.machine.headerSize == 6 && !r.machine.didSeek
  {
    var input: seq<byte> := [0xF0, 0x18, 0x53, 0x80, 0x67, 0x42] + rest;
    var o: seq<byte> := [0x42] + rest;
    assert input == [0xF0, 0x18, 0x53, 0x80, 0x67] + o;
    var m1 := Initial.(status := ReadChildId);
    BeginStep(Initial, input);
    FiveByteIdTruncated(o);
    IdStep(m1, input, IdState(0, Ids.Segment), o);
    var m2 := m1.(status := ReadChildSize, idParser := IdState(0, Ids.Segment), headerSize := 5);
    assert Run(Initial, input) == Run(m2, o);
    OneByteSize(0x42, rest);
    SizeStep(m2, o, VarInt(0, 0, 0x42), rest);
    var m3 := Machine(ValidateChildSize, 6, IdState(0, Ids.Segment), VarInt(0, 0, 0x42), Ids.Segment, 0x42, true);
    assert Run(m2, o) == Run(m3, rest);
    ValidateStep(m3, rest);
  }
}
