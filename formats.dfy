/**
 * The dispatcher of src/formats/mod.rs: `get_format` runs the format parsers
 * in turn through `check_format!`, which
 * - ignores a parser that reports `Unknown`,
 * - pushes the first candidate of a parser that reports `Incomplete`,
 * - returns at once any other report (a `Complete` description),
 * and, when no parser returned, reports `Incomplete` with the candidates in
 * the order they were pushed.
 *
 * The parsers themselves are calls this module does not see: their reports,
 * in the order the parsers are checked, are the input of GetFormat.
 */
module Formats {
  import opened Common
  import opened Enums
  import opened Types

  /** `check_format!` indexes `x[0]`, so every `Incomplete` report names a candidate. */
  predicate WellFormed(reports: seq<Result>)
  {
    forall k :: 0 <= k < |reports| ==> (reports[k].Incomplete? ==> |reports[k].candidates| > 0)
  }

  /**
   * The merge rule as a recursion from the front: the first report that is
   * neither `Unknown` nor `Incomplete` decides; otherwise the first
   * candidates of the `Incomplete` reports, in order.
   */
  function Merged(reports: seq<Result>): (r: Result)
    requires WellFormed(reports)
    ensures !r.Unknown?
    ensures r.Complete? ==> r in reports
    ensures r.Incomplete? ==> |r.candidates| <= |reports|
  {
    if reports == [] then
      Incomplete([])
    else
      var rest := Merged(reports[1..]);
      match reports[0]
      case Unknown => rest
      case Incomplete(x) => if rest.Incomplete? then Incomplete([x[0]] + rest.candidates) else rest
      case Complete(_) => reports[0]
  }

  /** The index of the first `Complete` report, if any. */
  function FirstComplete(reports: seq<Result>): (r: Option<nat>)
    ensures r.Some? ==> r.value < |reports| && reports[r.value].Complete? &&
                        forall j :: 0 <= j < r.value ==> !reports[j].Complete?
    ensures r.None? ==> forall j :: 0 <= j < |reports| ==> !reports[j].Complete?
  {
    if reports == [] then None
    else if reports[0].Complete? then Some(0)
    else
      var r := FirstComplete(reports[1..]);
      if r.Some? then Some(r.value + 1) else None
  }

  /** The first candidate of every `Incomplete` report, in order. */
  function Candidates(reports: seq<Result>): (c: seq<KnownTypes>)
    requires WellFormed(reports)
    ensures |c| <= |reports|
  {
    if reports == [] then []
    else if reports[0].Incomplete? then [reports[0].candidates[0]] + Candidates(reports[1..])
    else Candidates(reports[1..])
  }

  lemma {:induction false} CandidatesAppend(a: seq<Result>, b: seq<Result>)
    requires WellFormed(a) && WellFormed(b)
    ensures WellFormed(a + b)
    ensures Candidates(a + b) == Candidates(a) + Candidates(b)
  {
    if a != [] {
      assert (a + b)[1..] == a[1..] + b;
      CandidatesAppend(a[1..], b);
    } else {
      assert a + b == b;
    }
  }

  /**
   * What `get_format` reports: the first `Complete` report unchanged, and
   * otherwise `Incomplete` with the first candidate of each `Incomplete`
   * report in order; never `Unknown`, even when every parser reports it.
   */
  lemma {:induction false} MergedSpec(reports: seq<Result>)
    requires WellFormed(reports)
    ensures var m := Merged(reports);
            match FirstComplete(reports)
            case Some(k) => m == reports[k]
            case None => m == Incomplete(Candidates(reports))
  {
    if reports != [] {
      MergedSpec(reports[1..]);
    }
  }

  /** A candidate comes from an `Incomplete` report: it is that report's first. */
  lemma {:induction false} CandidatesFromReports(reports: seq<Result>, i: nat)
    requires WellFormed(reports) && i < |Candidates(reports)|
    ensures exists k :: 0 <= k < |reports| && reports[k].Incomplete? &&
                        Candidates(reports)[i] == reports[k].candidates[0]
  {
    if reports[0].Incomplete? && i == 0 {
      assert Candidates(reports)[0] == reports[0].candidates[0];
    } else {
      var j := if reports[0].Incomplete? then i - 1 else i;
      CandidatesFromReports(reports[1..], j);
      var k :| 0 <= k < |reports[1..]| && reports[1..][k].Incomplete? &&
               Candidates(reports[1..])[j] == reports[1..][k].candidates[0];
      assert reports[k + 1] == reports[1..][k];
    }
  }

  /**
   * `get_format` as written checks the WebM parser alone: its `Complete`
   * report comes back unchanged, `Unknown` becomes an empty candidate list and
   * `Incomplete(x)` becomes `Incomplete([x[0]])`.
   */
  lemma WebmOnly(report: Result)
    requires report.Incomplete? ==> |report.candidates| > 0
    ensures WellFormed([report])
    ensures Merged([report]) == match report
                                case Unknown => Incomplete([])
                                case Incomplete(x) => Incomplete([x[0]])
                                case Complete(_) => report
  {
    MergedSpec([report]);
  }

  /** One more report: its first candidate, if it is `Incomplete`, joins the end of the list. */
  lemma CandidatesStep(reports: seq<Result>, i: nat)
    requires WellFormed(reports) && i < |reports|
    ensures WellFormed(reports[..i]) && WellFormed(reports[..i + 1])
    ensures Candidates(reports[..i + 1]) ==
              Candidates(reports[..i]) + if reports[i].Incomplete? then [reports[i].candidates[0]] else []
  {
    assert reports[..i + 1] == reports[..i] + [reports[i]];
    assert [reports[i]][1..] == [];
    CandidatesAppend(reports[..i], [reports[i]]);
  }

  /**
   * `get_format`: `check_format!` for each report in turn, pushing into
   * `possibilities` and returning early on a `Complete` report.
   */
  method GetFormat(reports: seq<Result>) returns (r: Result)
    requires WellFormed(reports)
    ensures r == Merged(reports)
  {
    MergedSpec(reports);
    var possibilities: seq<KnownTypes> := [];
    var i := 0;
    while i < |reports|
      invariant 0 <= i <= |reports|
      invariant WellFormed(reports[..i]) && possibilities == Candidates(reports[..i])
      invariant forall j :: 0 <= j < i ==> !reports[j].Complete?
    {
      CandidatesStep(reports, i);
      match reports[i] {
        case Unknown =>
        case Incomplete(x) =>
          possibilities := possibilities + [x[0]];
        case Complete(_) =>
          return reports[i];
      }
      i := i + 1;
    }
    assert reports[..i] == reports;
    return Incomplete(possibilities);
  }
}
