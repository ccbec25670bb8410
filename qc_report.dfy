/** The QC-report metric extractor `get_report_info`: one pass over the lines
    of a report that fills a five-key record of counts, gated by a one-way
    "Failed Samples" flag and ended by the first "Summary Statistics" line.

    `ReportInfo` is the specification: a recursive scan that does what one
    iteration of the source's loop does, line by line. `GetReportInfo` is the
    loop itself, updating a dictionary and the flag, proved equal to it; its
    body is `CheckLine`, whose dictionary-updating `if`s are `Check`. */
module QcReport {
  import opened Wrappers
  import opened PyStr

  // ---------------------------------------------------------------------
  // Marker strings searched for in each line

  const PassMarker := "Samples That Meet QC Criteria"
  const FailMarker := "Samples that Fail QC Criteria"
  const FailedSamplesMarker := "Failed Samples"
  const FreemixMarker := "FREEMIX"
  const CoverageMarker := "HAPLOID_COVERAGE"
  const InterchromosomalMarker := "INTERCHROMOSOMAL_RATE"
  const DiscordantMarker := "DISCORDANT_RATE"
  const SummaryMarker := "Summary Statistics"

  // ---------------------------------------------------------------------
  // The record of counts

  /** The five entries of the result, in the order of the source's keys. */
  datatype Metric = Pass | Fail | FreemixFail | CovFail | OtherFail

  /** The dictionary key of each metric. */
  function KeyName(m: Metric): string {
    match m
    case Pass => "Pass"
    case Fail => "Fail"
    case FreemixFail => "FreemixFail"
    case CovFail => "CovFail"
    case OtherFail => "OtherFail (discordant/interchromosomal)"
  }

  const ReportKeys: set<string> :=
    {KeyName(Pass), KeyName(Fail), KeyName(FreemixFail), KeyName(CovFail), KeyName(OtherFail)}

  datatype Report = Report(pass: int, fail: int, freemixFail: int, covFail: int, otherFail: int)

  /** `dict.fromkeys(keys, 0)`. */
  const EmptyReport := Report(0, 0, 0, 0, 0)

  function Get(r: Report, m: Metric): int {
    match m
    case Pass => r.pass
    case Fail => r.fail
    case FreemixFail => r.freemixFail
    case CovFail => r.covFail
    case OtherFail => r.otherFail
  }

  /** `report_results[key] = v`: the entry of `m` becomes `v`, the others stay. */
  function Put(r: Report, m: Metric, v: int): (r': Report)
    ensures Get(r', m) == v
    ensures forall n :: n != m ==> Get(r', n) == Get(r, n)
  {
    match m
    case Pass => r.(pass := v)
    case Fail => r.(fail := v)
    case FreemixFail => r.(freemixFail := v)
    case CovFail => r.(covFail := v)
    case OtherFail => r.(otherFail := v)
  }

  /** The record as the source's dictionary: exactly the five keys, each
      bound to its metric's count. */
  function ToDict(r: Report): (d: map<string, int>)
    ensures d.Keys == ReportKeys && |d| == 5
    ensures forall m :: d[KeyName(m)] == Get(r, m)
  {
    map[KeyName(Pass) := r.pass, KeyName(Fail) := r.fail,
        KeyName(FreemixFail) := r.freemixFail, KeyName(CovFail) := r.covFail,
        KeyName(OtherFail) := r.otherFail]
  }

  lemma ToDictPut(r: Report, m: Metric, v: int)
    ensures ToDict(Put(r, m, v)) == ToDict(r)[KeyName(m) := v]
  {
  }

  // ---------------------------------------------------------------------
  // Errors: the exceptions `int(line.split(d)[1])` raises

  datatype Cause =
    | IndexError           // the delimiter does not occur in the line
    | ValueError(text: string)  // the field after it is not an integer

  /** Which line (0-based) and which metric's check raised, and why. */
  datatype Error = Error(line: nat, metric: Metric, cause: Cause)

  // ---------------------------------------------------------------------
  // One line

  /** `Pass` and `Fail` read the field after the first `=`, the three
      failure causes the field after the first `:`. */
  function Delimiter(m: Metric): char {
    if m == Pass || m == Fail then '=' else ':'
  }

  /** Whether the check for `m` applies to `line` while the "Failed Samples"
      flag is `flag`. */
  predicate Fires(m: Metric, line: string, flag: bool) {
    match m
    case Pass => Contains(line, PassMarker)
    case Fail => Contains(line, FailMarker)
    case FreemixFail => Contains(line, FreemixMarker) && flag
    case CovFail => Contains(line, CoverageMarker) && flag
    case OtherFail => (Contains(line, InterchromosomalMarker) || Contains(line, DiscordantMarker)) && flag
  }

  /** `int(line.split(Delimiter(m))[1])`: the integer, or the exception
      Python raises. */
  function ReadField(line: string, m: Metric): Result<int, Cause> {
    match Field(line, Delimiter(m))
    case None => Failure(IndexError)
    case Some(f) =>
      match ParseInt(f)
      case None => Failure(ValueError(f))
      case Some(v) => Success(v)
  }

  /** `ReadField`, with the exception it raises as an error of the check for
      `m` on line `lineNo`. */
  function IntField(line: string, lineNo: nat, m: Metric): Result<int, Error> {
    match ReadField(line, m)
    case Failure(c) => Failure(Error(lineNo, m, c))
    case Success(v) => Success(v)
  }

  /** One `if` of the loop body: when the check for `m` applies, the entry of
      `m` is overwritten with the line's value, except `OtherFail`, which is
      added to. */
  function Step(r: Report, m: Metric, line: string, flag: bool, lineNo: nat): Result<Report, Error> {
    if !Fires(m, line, flag) then Success(r)
    else
      var v :- IntField(line, lineNo, m);
      Success(if m == OtherFail then Put(r, m, Get(r, m) + v) else Put(r, m, v))
  }

  /** The dictionary and the `failed_samples` flag between two lines. */
  datatype ScanState = ScanState(results: Report, failedSamples: bool)

  const Initial := ScanState(EmptyReport, false)

  /** The loop body up to, not including, the "Summary Statistics" test:
      independent `if`s in the source's order, each on the record the
      previous one left; the flag is set before the failure-cause checks. */
  function ProcessLine(st: ScanState, line: string, lineNo: nat): Result<ScanState, Error> {
    var r1 :- Step(st.results, Pass, line, st.failedSamples, lineNo);
    var r2 :- Step(r1, Fail, line, st.failedSamples, lineNo);
    var flag := st.failedSamples || Contains(line, FailedSamplesMarker);
    var r3 :- Step(r2, FreemixFail, line, flag, lineNo);
    var r4 :- Step(r3, CovFail, line, flag, lineNo);
    var r5 :- Step(r4, OtherFail, line, flag, lineNo);
    Success(ScanState(r5, flag))
  }

  // ---------------------------------------------------------------------
  // The whole report

  /** The scan from line `i` on, in state `st`: a "Summary Statistics" line
      returns the record right after its own checks; running out of lines
      returns the record as it stands. */
  function ScanFrom(lines: seq<string>, i: nat, st: ScanState): Result<Report, Error>
    requires i <= |lines|
    decreases |lines| - i
  {
    if i == |lines| then Success(st.results)
    else
      var st' :- ProcessLine(st, lines[i], i);
      if Contains(lines[i], SummaryMarker) then Success(st'.results)
      else ScanFrom(lines, i + 1, st')
  }

  /** `get_report_info` as a function of the report's lines. */
  function ReportInfo(lines: seq<string>): Result<Report, Error> {
    ScanFrom(lines, 0, Initial)
  }

  /** One unfolding of `ScanFrom`. */
  lemma ScanFromLine(lines: seq<string>, i: nat, st: ScanState)
    requires i < |lines|
    ensures ProcessLine(st, lines[i], i).Failure? ==>
              ScanFrom(lines, i, st) == Failure(ProcessLine(st, lines[i], i).error)
    ensures ProcessLine(st, lines[i], i).Success? && Contains(lines[i], SummaryMarker) ==>
              ScanFrom(lines, i, st) == Success(ProcessLine(st, lines[i], i).value.results)
    ensures ProcessLine(st, lines[i], i).Success? && !Contains(lines[i], SummaryMarker) ==>
              ScanFrom(lines, i, st) == ScanFrom(lines, i + 1, ProcessLine(st, lines[i], i).value)
  {
  }

  /** One `if` of the loop body: when the check for `m` applies to `line`,
      `report_results[key] = int(line.split(d)[1])`, or `+=` for
      `OtherFail`; otherwise the dictionary is left as it is. */
  method Check(reportResults: map<string, int>, ghost r: Report, line: string, lineNo: nat, m: Metric, flag: bool)
    returns (res: Result<map<string, int>, Error>)
    requires reportResults == ToDict(r)
    ensures res.Success? <==> Step(r, m, line, flag, lineNo).Success?
    ensures res.Success? ==> res.value == ToDict(Step(r, m, line, flag, lineNo).value)
    ensures res.Failure? ==> res.error == Step(r, m, line, flag, lineNo).error
  {
    if Fires(m, line, flag) {
      var v :- IntField(line, lineNo, m);
      if m == OtherFail {
        ToDictPut(r, m, Get(r, m) + v);
        return Success(reportResults[KeyName(m) := reportResults[KeyName(m)] + v]);
      } else {
        ToDictPut(r, m, v);
        return Success(reportResults[KeyName(m) := v]);
      }
    }
    return Success(reportResults);
  }

  /** The body of the loop for one line: the five checks and the flag,
      updating the dictionary and returning the new flag. */
  method CheckLine(reportResults: map<string, int>, ghost st: ScanState, failedSamples: bool,
                   line: string, lineNo: nat)
    returns (res: Result<map<string, int>, Error>, flag: bool)
    requires reportResults == ToDict(st.results) && failedSamples == st.failedSamples
    ensures res.Success? <==> ProcessLine(st, line, lineNo).Success?
    ensures res.Success? ==> res.value == ToDict(ProcessLine(st, line, lineNo).value.results)
    ensures res.Success? ==> flag == ProcessLine(st, line, lineNo).value.failedSamples
    ensures res.Failure? ==> res.error == ProcessLine(st, line, lineNo).error
  {
    flag := failedSamples;
    var d := reportResults;
    ghost var acc := st.results;
    d :- Check(d, acc, line, lineNo, Pass, flag);
    acc := Step(acc, Pass, line, flag, lineNo).value;
    d :- Check(d, acc, line, lineNo, Fail, flag);
    acc := Step(acc, Fail, line, flag, lineNo).value;
    if Contains(line, FailedSamplesMarker) {
      flag := true;
    }
    d :- Check(d, acc, line, lineNo, FreemixFail, flag);
    acc := Step(acc, FreemixFail, line, flag, lineNo).value;
    d :- Check(d, acc, line, lineNo, CovFail, flag);
    acc := Step(acc, CovFail, line, flag, lineNo).value;
    d :- Check(d, acc, line, lineNo, OtherFail, flag);
    acc := Step(acc, OtherFail, line, flag, lineNo).value;
    return Success(d), flag;
  }

  /** `get_report_info`: the loop over the lines, updating the dictionary
      `reportResults` and the flag `failedSamples` in place. */
  method GetReportInfo(lines: seq<string>) returns (res: Result<map<string, int>, Error>)
    ensures res.Success? <==> ReportInfo(lines).Success?
    ensures res.Success? ==> res.value == ToDict(ReportInfo(lines).value)
    ensures res.Failure? ==> res.error == ReportInfo(lines).error
  {
    var reportResults := map[KeyName(Pass) := 0, KeyName(Fail) := 0, KeyName(FreemixFail) := 0,
                             KeyName(CovFail) := 0, KeyName(OtherFail) := 0];
    ghost var st := Initial;
    var failedSamples := false;
    var i := 0;
    while i < |lines|
      invariant i <= |lines|
      invariant reportResults == ToDict(st.results) && failedSamples == st.failedSamples
      invariant ScanFrom(lines, i, st) == ReportInfo(lines)
    {
      var line := lines[i];
      ScanFromLine(lines, i, st);
      reportResults, failedSamples :- CheckLine(reportResults, st, failedSamples, line, i);
      st := ProcessLine(st, line, i).value;
      if Contains(line, SummaryMarker) {
        return Success(reportResults);
      }
      i := i + 1;
    }
    return Success(reportResults);
  }
}
