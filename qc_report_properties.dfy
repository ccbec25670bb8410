/** What `ReportInfo` promises about a whole report: the scan stops after the
    first "Summary Statistics" line, the "Failed Samples" flag is one-way and
    gates the failure causes, the overwritten entries hold the last matching
    line's value, `OtherFail` holds a sum, and a malformed line that a check
    applies to is an error at that line. */
module QcReportProperties {
  import opened Wrappers
  import opened PyStr
  import opened QcReport

  // ---------------------------------------------------------------------
  // One check, one line

  /** Whether the check for `m` finds an integer in `line`. */
  predicate FieldOk(line: string, m: Metric) {
    ReadField(line, m).Success?
  }

  /** The integer the check for `m` reads from `line` (0 where there is none;
      only used where the field is known to parse). */
  function FieldValue(line: string, m: Metric): int {
    match ReadField(line, m)
    case Success(v) => v
    case Failure(_) => 0
  }

  /** The entry of `m` after its check on `line`, starting from `prev`. */
  function Entry(prev: int, m: Metric, line: string, flag: bool): int {
    if !Fires(m, line, flag) then prev
    else if m == OtherFail then prev + FieldValue(line, m)
    else FieldValue(line, m)
  }

  /** The position of each check in the loop body. */
  function Rank(m: Metric): nat {
    match m
    case Pass => 0
    case Fail => 1
    case FreemixFail => 2
    case CovFail => 3
    case OtherFail => 4
  }

  /** Every check that applies to `line` finds an integer. */
  predicate LineOk(line: string, flag: bool) {
    forall m :: Fires(m, line, flag) ==> FieldOk(line, m)
  }

  /** One check: it fails exactly when it applies and the field does not
      parse; otherwise only the entry of `m` changes. */
  lemma StepSpec(r: Report, m: Metric, line: string, flag: bool, i: nat)
    ensures Step(r, m, line, flag, i).Success? <==> (Fires(m, line, flag) ==> FieldOk(line, m))
    ensures Step(r, m, line, flag, i).Success? ==>
              Step(r, m, line, flag, i).value == Put(r, m, Entry(Get(r, m), m, line, flag))
    ensures Step(r, m, line, flag, i).Failure? ==>
              && ReadField(line, m).Failure?
              && Step(r, m, line, flag, i).error == Error(i, m, ReadField(line, m).error)
  {
  }

  /** One line succeeds exactly when every check that applies to it parses;
      the failure causes see the flag already updated by this line. */
  lemma ProcessLineOk(st: ScanState, line: string, i: nat, flag: bool)
    requires flag == (st.failedSamples || Contains(line, FailedSamplesMarker))
    ensures ProcessLine(st, line, i).Success? <==> LineOk(line, flag)
  {
    var f := st.failedSamples;
    var s1 := Step(st.results, Pass, line, f, i);
    StepSpec(st.results, Pass, line, f, i);
    if s1.Success? {
      var s2 := Step(s1.value, Fail, line, f, i);
      StepSpec(s1.value, Fail, line, f, i);
      if s2.Success? {
        var s3 := Step(s2.value, FreemixFail, line, flag, i);
        StepSpec(s2.value, FreemixFail, line, flag, i);
        if s3.Success? {
          var s4 := Step(s3.value, CovFail, line, flag, i);
          StepSpec(s3.value, CovFail, line, flag, i);
          if s4.Success? {
            var s5 := Step(s4.value, OtherFail, line, flag, i);
            StepSpec(s4.value, OtherFail, line, flag, i);
            if s5.Success? {
              forall m | Fires(m, line, flag) ensures FieldOk(line, m) {
                match m
                case Pass =>
                case Fail =>
                case FreemixFail =>
                case CovFail =>
                case OtherFail =>
              }
            } else {
              assert !(Fires(OtherFail, line, flag) ==> FieldOk(line, OtherFail));
            }
          } else {
            assert !(Fires(CovFail, line, flag) ==> FieldOk(line, CovFail));
          }
        } else {
          assert !(Fires(FreemixFail, line, flag) ==> FieldOk(line, FreemixFail));
        }
      } else {
        assert !(Fires(Fail, line, flag) ==> FieldOk(line, Fail));
      }
    } else {
      assert !(Fires(Pass, line, flag) ==> FieldOk(line, Pass));
    }
  }

  /** After a successful line the flag is the old flag or "Failed Samples"
      in the line, and each entry has been updated by its own check alone. */
  lemma ProcessLineEntries(st: ScanState, line: string, i: nat, flag: bool)
    requires flag == (st.failedSamples || Contains(line, FailedSamplesMarker))
    requires ProcessLine(st, line, i).Success?
    ensures ProcessLine(st, line, i).value.failedSamples == flag
    ensures forall m :: Get(ProcessLine(st, line, i).value.results, m) == Entry(Get(st.results, m), m, line, flag)
  {
    var f := st.failedSamples;
    var r0 := st.results;
    StepSpec(r0, Pass, line, f, i);
    var r1 := Step(r0, Pass, line, f, i).value;
    StepSpec(r1, Fail, line, f, i);
    var r2 := Step(r1, Fail, line, f, i).value;
    StepSpec(r2, FreemixFail, line, flag, i);
    var r3 := Step(r2, FreemixFail, line, flag, i).value;
    StepSpec(r3, CovFail, line, flag, i);
    var r4 := Step(r3, CovFail, line, flag, i).value;
    StepSpec(r4, OtherFail, line, flag, i);
    var r5 := Step(r4, OtherFail, line, flag, i).value;
    assert ProcessLine(st, line, i) == Success(ScanState(r5, flag));
    forall m ensures Get(r5, m) == Entry(Get(r0, m), m, line, flag) {
      match m
      case Pass =>
      case Fail =>
      case FreemixFail =>
      case CovFail =>
      case OtherFail =>
    }
  }

  /** A failing line reports its first failing check, in the order of the
      loop body, with the exception that check raises. */
  lemma ProcessLineFailure(st: ScanState, line: string, i: nat, flag: bool)
    requires flag == (st.failedSamples || Contains(line, FailedSamplesMarker))
    requires ProcessLine(st, line, i).Failure?
    ensures var e := ProcessLine(st, line, i).error;
            && e.line == i
            && Fires(e.metric, line, flag)
            && ReadField(line, e.metric) == Failure(e.cause)
            && forall m :: Rank(m) < Rank(e.metric) && Fires(m, line, flag) ==> FieldOk(line, m)
  {
    var f := st.failedSamples;
    var e := ProcessLine(st, line, i).error;
    var s1 := Step(st.results, Pass, line, f, i);
    StepSpec(st.results, Pass, line, f, i);
    if s1.Success? {
      var r1 := s1.value;
      var s2 := Step(r1, Fail, line, f, i);
      StepSpec(r1, Fail, line, f, i);
      if s2.Success? {
        var r2 := s2.value;
        var s3 := Step(r2, FreemixFail, line, flag, i);
        StepSpec(r2, FreemixFail, line, flag, i);
        if s3.Success? {
          var r3 := s3.value;
          var s4 := Step(r3, CovFail, line, flag, i);
          StepSpec(r3, CovFail, line, flag, i);
          if s4.Success? {
            var r4 := s4.value;
            var s5 := Step(r4, OtherFail, line, flag, i);
            StepSpec(r4, OtherFail, line, flag, i);
            assert e == s5.error;
          } else {
            assert e == s4.error;
          }
        } else {
          assert e == s3.error;
        }
      } else {
        assert e == s2.error;
      }
    } else {
      assert e == s1.error;
    }
  }

  /** The line that sets the flag is itself subject to the failure-cause
      checks: a "Failed Samples" line that also carries FREEMIX records its
      value even when the flag was clear before it. */
  lemma MarkerLineEligible(st: ScanState, line: string, i: nat)
    requires ProcessLine(st, line, i).Success?
    requires Contains(line, FailedSamplesMarker) && Contains(line, FreemixMarker)
    ensures ProcessLine(st, line, i).value.failedSamples
    ensures Get(ProcessLine(st, line, i).value.results, FreemixFail) == FieldValue(line, FreemixFail)
  {
    ProcessLineEntries(st, line, i, true);
  }

  /** A line carrying both INTERCHROMOSOMAL_RATE and DISCORDANT_RATE adds
      its value to `OtherFail` once, not twice, whenever the flag is set
      (before the line, or by the line itself). */
  lemma BothRatesAddOnce(st: ScanState, line: string, i: nat)
    requires ProcessLine(st, line, i).Success?
    requires Contains(line, InterchromosomalMarker) && Contains(line, DiscordantMarker)
    requires st.failedSamples || Contains(line, FailedSamplesMarker)
    ensures Get(ProcessLine(st, line, i).value.results, OtherFail)
            == Get(st.results, OtherFail) + FieldValue(line, OtherFail)
  {
    ProcessLineEntries(st, line, i, true);
  }

  // ---------------------------------------------------------------------
  // Where the scan stops

  /** The first "Summary Statistics" line at or after `i`, if any. */
  function TerminatorFrom(lines: seq<string>, i: nat): (t: Option<nat>)
    requires i <= |lines|
    decreases |lines| - i
    ensures t.Some? ==> i <= t.value < |lines| && Contains(lines[t.value], SummaryMarker)
    ensures forall j :: i <= j < |lines| && (t.None? || j < t.value) ==> !Contains(lines[j], SummaryMarker)
  {
    if i == |lines| then None
    else if Contains(lines[i], SummaryMarker) then Some(i)
    else TerminatorFrom(lines, i + 1)
  }

  /** The first "Summary Statistics" line of the report, if any. */
  function Terminator(lines: seq<string>): Option<nat> {
    TerminatorFrom(lines, 0)
  }

  /** How many lines the scan processes: up to and including the
      terminator, or all of them. */
  function Scanned(lines: seq<string>): (n: nat)
    ensures n <= |lines|
  {
    match Terminator(lines)
    case Some(t) => t + 1
    case None => |lines|
  }

  /** The loop body run over the first `n` lines, with no early return. */
  function ScanPrefix(lines: seq<string>, n: nat): Result<ScanState, Error>
    requires n <= |lines|
  {
    if n == 0 then Success(Initial)
    else
      var st :- ScanPrefix(lines, n - 1);
      ProcessLine(st, lines[n - 1], n - 1)
  }

  /** The value `get_report_info` returns once the scan has stopped. */
  function Finish(r: Result<ScanState, Error>): Result<Report, Error> {
    match r
    case Success(st) => Success(st.results)
    case Failure(e) => Failure(e)
  }

  /** A failure is never undone by later lines. */
  lemma {:induction false} PrefixFailureStays(lines: seq<string>, a: nat, b: nat)
    requires a <= b <= |lines|
    requires ScanPrefix(lines, a).Failure?
    ensures ScanPrefix(lines, b) == ScanPrefix(lines, a)
    decreases b - a
  {
    if a < b {
      PrefixFailureStays(lines, a, b - 1);
    }
  }

  lemma {:induction false} ScanFromPrefix(lines: seq<string>, i: nat, st: ScanState)
    requires i <= |lines|
    requires forall j :: 0 <= j < i ==> !Contains(lines[j], SummaryMarker)
    requires ScanPrefix(lines, i) == Success(st)
    ensures ScanFrom(lines, i, st) == Finish(ScanPrefix(lines, Scanned(lines)))
    decreases |lines| - i
  {
    var t := TerminatorFrom(lines, 0);
    assert i <= Scanned(lines);
    if i < |lines| {
      var next := ProcessLine(st, lines[i], i);
      ScanFromLine(lines, i, st);
      ScanPrefixUnfold(lines, i + 1, st);
      if next.Failure? {
        PrefixFailureStays(lines, i + 1, Scanned(lines));
      } else if Contains(lines[i], SummaryMarker) {
        assert t == Some(i);
      } else {
        ScanFromPrefix(lines, i + 1, next.value);
      }
    } else {
      assert t.None?;
    }
  }

  /** `get_report_info` is the loop body run over exactly the scanned lines:
      the lines up to and including the first "Summary Statistics" line. */
  lemma ReportInfoPrefix(lines: seq<string>)
    ensures ReportInfo(lines) == Finish(ScanPrefix(lines, Scanned(lines)))
  {
    ScanFromPrefix(lines, 0, Initial);
  }

  /** Lines appended after the terminator change nothing, whether the
      report succeeds or fails. */
  lemma AppendAfterTerminator(lines: seq<string>, extra: seq<string>)
    requires Terminator(lines).Some?
    ensures ReportInfo(lines + extra) == ReportInfo(lines)
  {
    var t := Terminator(lines).value;
    ScanFromAppend(lines, extra, 0, t, Initial);
  }

  lemma {:induction false} ScanFromAppend(lines: seq<string>, extra: seq<string>, i: nat, t: nat, st: ScanState)
    requires i <= t < |lines| && Contains(lines[t], SummaryMarker)
    ensures ScanFrom(lines + extra, i, st) == ScanFrom(lines, i, st)
    decreases t - i
  {
    assert (lines + extra)[i] == lines[i];
    if i < t && !Contains(lines[i], SummaryMarker) {
      var next := ProcessLine(st, lines[i], i);
      if next.Success? {
        ScanFromAppend(lines, extra, i + 1, t, next.value);
      }
    }
  }

  /** With no terminator every line is scanned, and the result is an error
      only if some line is malformed. */
  lemma NoTerminatorScansAll(lines: seq<string>)
    requires Terminator(lines).None?
    ensures ReportInfo(lines) == Finish(ScanPrefix(lines, |lines|))
    ensures ReportInfo(lines).Success? <==> WellFormed(lines, |lines|)
  {
    ReportInfoPrefix(lines);
    ScanPrefixSpec(lines, |lines|);
  }

  // ---------------------------------------------------------------------
  // The flag

  /** Whether one of the first `n` lines contains "Failed Samples". */
  function SeenMarker(lines: seq<string>, n: nat): bool
    requires n <= |lines|
  {
    n > 0 && (SeenMarker(lines, n - 1) || Contains(lines[n - 1], FailedSamplesMarker))
  }

  lemma {:induction false} SeenMarkerIff(lines: seq<string>, n: nat)
    requires n <= |lines|
    ensures SeenMarker(lines, n) <==> exists k :: 0 <= k < n && Contains(lines[k], FailedSamplesMarker)
  {
    if n > 0 {
      SeenMarkerIff(lines, n - 1);
    }
  }

  /** Once a "Failed Samples" line has been seen, it stays seen. */
  lemma {:induction false} SeenMarkerMonotone(lines: seq<string>, a: nat, b: nat)
    requires a <= b <= |lines|
    requires SeenMarker(lines, a)
    ensures SeenMarker(lines, b)
    decreases b - a
  {
    if a < b {
      SeenMarkerMonotone(lines, a, b - 1);
    }
  }

  /** Whether the check for `m` applies to line `j`: the flag it sees
      includes line `j` itself. */
  predicate Eligible(lines: seq<string>, j: nat, m: Metric)
    requires j < |lines|
  {
    Fires(m, lines[j], SeenMarker(lines, j + 1))
  }

  /** Every check that applies to one of the first `n` lines parses. */
  predicate WellFormed(lines: seq<string>, n: nat)
    requires n <= |lines|
  {
    forall j, m :: 0 <= j < n && Eligible(lines, j, m) ==> FieldOk(lines[j], m)
  }

  // ---------------------------------------------------------------------
  // Reference values of the entries

  /** The last of the first `n` lines to which the check for `m` applies. */
  function LastFiring(lines: seq<string>, n: nat, m: Metric): (k: Option<nat>)
    requires n <= |lines|
    ensures k.Some? ==> k.value < n && Eligible(lines, k.value, m)
    ensures forall j :: 0 <= j < n && (k.None? || k.value < j) ==> !Eligible(lines, j, m)
  {
    if n == 0 then None
    else if Eligible(lines, n - 1, m) then Some(n - 1)
    else LastFiring(lines, n - 1, m)
  }

  /** The value of an overwritten entry: that of its last matching line,
      or the initial 0. */
  function LastValue(lines: seq<string>, n: nat, m: Metric): int
    requires n <= |lines|
  {
    match LastFiring(lines, n, m)
    case None => 0
    case Some(j) => FieldValue(lines[j], m)
  }

  /** The sum of the `:` fields of the first `n` lines that the `OtherFail`
      check applies to. */
  function OtherTotal(lines: seq<string>, n: nat): int
    requires n <= |lines|
  {
    if n == 0 then 0
    else OtherTotal(lines, n - 1) + (if Eligible(lines, n - 1, OtherFail) then FieldValue(lines[n - 1], OtherFail) else 0)
  }

  function Expected(lines: seq<string>, n: nat, m: Metric): int
    requires n <= |lines|
  {
    if m == OtherFail then OtherTotal(lines, n) else LastValue(lines, n, m)
  }

  /** One more line updates the reference entries as the line's check does. */
  lemma ExpectedStep(lines: seq<string>, n: nat, m: Metric)
    requires 0 < n <= |lines|
    ensures Expected(lines, n, m) == Entry(Expected(lines, n - 1, m), m, lines[n - 1], SeenMarker(lines, n))
  {
    assert Eligible(lines, n - 1, m) == Fires(m, lines[n - 1], SeenMarker(lines, n));
  }

  lemma EntriesStep(lines: seq<string>, n: nat, r: Report, r': Report)
    requires 0 < n <= |lines|
    requires forall m :: Get(r, m) == Expected(lines, n - 1, m)
    requires forall m :: Get(r', m) == Entry(Get(r, m), m, lines[n - 1], SeenMarker(lines, n))
    ensures forall m :: Get(r', m) == Expected(lines, n, m)
  {
    forall m ensures Get(r', m) == Expected(lines, n, m) {
      ExpectedStep(lines, n, m);
    }
  }

  /** One more line keeps the report well formed exactly when the checks
      that apply to it parse. */
  lemma WellFormedStep(lines: seq<string>, n: nat)
    requires 0 < n <= |lines|
    ensures WellFormed(lines, n) <==> WellFormed(lines, n - 1) && LineOk(lines[n - 1], SeenMarker(lines, n))
  {
    if WellFormed(lines, n - 1) && LineOk(lines[n - 1], SeenMarker(lines, n)) {
      forall j, m | 0 <= j < n && Eligible(lines, j, m) ensures FieldOk(lines[j], m) {
        if j == n - 1 {
          assert Fires(m, lines[n - 1], SeenMarker(lines, n));
        }
      }
    }
  }

  /** One line past a successful prefix, in terms of the state it left. */
  lemma PrefixStep(lines: seq<string>, n: nat, st: ScanState, cur: Result<ScanState, Error>)
    requires 0 < n <= |lines|
    requires WellFormed(lines, n - 1) && st.failedSamples == SeenMarker(lines, n - 1)
    requires forall m :: Get(st.results, m) == Expected(lines, n - 1, m)
    requires cur == ProcessLine(st, lines[n - 1], n - 1)
    ensures cur.Success? <==> WellFormed(lines, n)
    ensures cur.Success? ==>
              && cur.value.failedSamples == SeenMarker(lines, n)
              && forall m :: Get(cur.value.results, m) == Expected(lines, n, m)
  {
    WellFormedStep(lines, n);
    ProcessLineOk(st, lines[n - 1], n - 1, SeenMarker(lines, n));
    if cur.Success? {
      ProcessLineEntries(st, lines[n - 1], n - 1, SeenMarker(lines, n));
      EntriesStep(lines, n, st.results, cur.value.results);
    }
  }

  lemma ScanPrefixUnfold(lines: seq<string>, n: nat, st: ScanState)
    requires 0 < n <= |lines|
    requires ScanPrefix(lines, n - 1) == Success(st)
    ensures ScanPrefix(lines, n) == ProcessLine(st, lines[n - 1], n - 1)
  {
  }

  /** The scan's "Failed Samples" flag is one-way: once set after `a`
      lines, it is still set after any later `b` lines the scan survives. */
  lemma {:induction false} FlagOneWay(lines: seq<string>, a: nat, b: nat)
    requires a <= b <= |lines|
    requires ScanPrefix(lines, a).Success? && ScanPrefix(lines, b).Success?
    requires ScanPrefix(lines, a).value.failedSamples
    ensures ScanPrefix(lines, b).value.failedSamples
  {
    ScanPrefixSpec(lines, a);
    ScanPrefixSpec(lines, b);
    SeenMarkerMonotone(lines, a, b);
  }

  /** The loop body over `n` lines succeeds exactly when they are well
      formed, and then holds the flag and the reference entries. */
  lemma {:induction false} ScanPrefixSpec(lines: seq<string>, n: nat)
    requires n <= |lines|
    ensures ScanPrefix(lines, n).Success? <==> WellFormed(lines, n)
    ensures ScanPrefix(lines, n).Success? ==>
              && ScanPrefix(lines, n).value.failedSamples == SeenMarker(lines, n)
              && forall m :: Get(ScanPrefix(lines, n).value.results, m) == Expected(lines, n, m)
  {
    if n > 0 {
      ScanPrefixSpec(lines, n - 1);
      var prev := ScanPrefix(lines, n - 1);
      if prev.Success? {
        ScanPrefixUnfold(lines, n, prev.value);
        PrefixStep(lines, n, prev.value, ScanPrefix(lines, n));
      } else {
        WellFormedStep(lines, n);
      }
    }
  }

  /** A failing scan of `n` lines reports the first malformed line, and on
      it the first check, in the order of the loop body, that raised. */
  lemma {:induction false} ScanPrefixError(lines: seq<string>, n: nat)
    requires n <= |lines|
    requires ScanPrefix(lines, n).Failure?
    ensures var e := ScanPrefix(lines, n).error;
            && e.line < n
            && WellFormed(lines, e.line)
            && Eligible(lines, e.line, e.metric)
            && ReadField(lines[e.line], e.metric) == Failure(e.cause)
            && forall m :: Rank(m) < Rank(e.metric) && Eligible(lines, e.line, m) ==> FieldOk(lines[e.line], m)
  {
    var prev := ScanPrefix(lines, n - 1);
    if prev.Failure? {
      ScanPrefixError(lines, n - 1);
    } else {
      ScanPrefixSpec(lines, n - 1);
      ProcessLineFailure(prev.value, lines[n - 1], n - 1, SeenMarker(lines, n));
    }
  }

  // ---------------------------------------------------------------------
  // The whole report

  /** `get_report_info` returns a value exactly when every check that applies
      to a scanned line finds an integer; a malformed field is never read
      as 0. */
  lemma ReportInfoSucceeds(lines: seq<string>)
    ensures ReportInfo(lines).Success? <==> WellFormed(lines, Scanned(lines))
  {
    ReportInfoPrefix(lines);
    ScanPrefixSpec(lines, Scanned(lines));
  }

  /** `Pass`, `Fail`, `FreemixFail` and `CovFail` hold the value of the last
      scanned line whose check applies, or 0 when there is none. */
  lemma LastMatchWins(lines: seq<string>, m: Metric)
    requires m != OtherFail
    requires ReportInfo(lines).Success?
    ensures Get(ReportInfo(lines).value, m) == LastValue(lines, Scanned(lines), m)
  {
    ReportInfoPrefix(lines);
    ScanPrefixSpec(lines, Scanned(lines));
  }

  /** `OtherFail` is the sum over the scanned lines that carry either rate
      once the flag is set. */
  lemma OtherFailIsSum(lines: seq<string>)
    requires ReportInfo(lines).Success?
    ensures Get(ReportInfo(lines).value, OtherFail) == OtherTotal(lines, Scanned(lines))
  {
    ReportInfoPrefix(lines);
    ScanPrefixSpec(lines, Scanned(lines));
  }

  lemma {:induction false} NoFlagNoFiring(lines: seq<string>, n: nat, m: Metric)
    requires n <= |lines| && !SeenMarker(lines, n)
    requires m != Pass && m != Fail
    ensures LastFiring(lines, n, m).None?
    ensures OtherTotal(lines, n) == 0
  {
    if n > 0 {
      NoFlagNoFiring(lines, n - 1, m);
      assert !Eligible(lines, n - 1, m);
      assert !Eligible(lines, n - 1, OtherFail);
    }
  }

  /** Without a scanned "Failed Samples" line, the three failure causes stay
      0 whatever FREEMIX, HAPLOID_COVERAGE or rate lines appear. */
  lemma NoFailedSamplesNoCauses(lines: seq<string>)
    requires ReportInfo(lines).Success?
    requires forall j :: 0 <= j < Scanned(lines) ==> !Contains(lines[j], FailedSamplesMarker)
    ensures Get(ReportInfo(lines).value, FreemixFail) == 0
    ensures Get(ReportInfo(lines).value, CovFail) == 0
    ensures Get(ReportInfo(lines).value, OtherFail) == 0
  {
    var n := Scanned(lines);
    SeenMarkerIff(lines, n);
    ReportInfoPrefix(lines);
    ScanPrefixSpec(lines, n);
    NoFlagNoFiring(lines, n, FreemixFail);
    NoFlagNoFiring(lines, n, CovFail);
  }

  /** A failing report names the first malformed scanned line, the check on
      it that raised first, and Python's exception: `IndexError` when the
      delimiter is missing, `ValueError` when the field is not an integer. */
  lemma ErrorLocation(lines: seq<string>)
    requires ReportInfo(lines).Failure?
    ensures var e := ReportInfo(lines).error;
            && e.line < Scanned(lines)
            && WellFormed(lines, e.line)
            && Eligible(lines, e.line, e.metric)
            && ReadField(lines[e.line], e.metric) == Failure(e.cause)
            && forall m :: Rank(m) < Rank(e.metric) && Eligible(lines, e.line, m) ==> FieldOk(lines[e.line], m)
  {
    ReportInfoPrefix(lines);
    ScanPrefixError(lines, Scanned(lines));
  }

  /** The returned dictionary always has exactly the five keys, each bound to
      its entry of the record. */
  lemma ResultHasAllKeys(r: Report)
    ensures ToDict(r).Keys == {"Pass", "Fail", "FreemixFail", "CovFail", "OtherFail (discordant/interchromosomal)"}
    ensures ToDict(r)["OtherFail (discordant/interchromosomal)"] == r.otherFail
  {
    assert KeyName(OtherFail) == "OtherFail (discordant/interchromosomal)";
  }

  /** A "Samples That Meet QC Criteria" line without `=` is an IndexError
      of the `Pass` check on that line, not a count of 0. */
  lemma MissingDelimiterExample()
    ensures ReportInfo(["Samples That Meet QC Criteria"]) == Failure(Error(0, Pass, IndexError))
  {
    var line := "Samples That Meet QC Criteria";
    var e := Error(0, Pass, IndexError);
    assert Contains(line, PassMarker);
    assert '=' !in line;
    assert Field(line, '=') == None;
    assert IntField(line, 0, Pass) == Failure(e);
    assert Step(EmptyReport, Pass, line, false, 0) == Failure(e);
    assert ProcessLine(Initial, line, 0) == Failure(e);
    assert ScanFrom([line], 0, Initial) == Failure(e);
  }
}
