/**
 * The older single-file program checkssl.go. It normalises the target in
 * the other order, fetches the verified chain with one HEAD request,
 * classifies each certificate with a three-rule classifier and keeps the
 * code of the last failing certificate in a global return code that is never
 * reset to 0. A failed request prints "[FAIL]" and ends the whole process
 * with EXPIRED.
 */
module Legacy {
  import opened GoText
  import opened Tolerance
  import opened Checker
  import opened Flags

  /**
   * The older `checkIfExpirationIsWithinTolerance`: THRESHOLDFAIL when the
   * threshold is after the end, else EXPIRED when the start is still ahead
   * of now, else PASS.
   */
  function LegacyClassify(threshold: Time, notBefore: Time, notAfter: Time, now: Time): (code: int)
    ensures code in {RETURNCODE_PASS, RETURNCODE_EXPIRED, RETURNCODE_THRESHOLDFAIL}
    ensures code == RETURNCODE_PASS <==> threshold <= notAfter && notBefore <= now
    ensures code == RETURNCODE_THRESHOLDFAIL <==> threshold > notAfter
    ensures code == RETURNCODE_EXPIRED <==> threshold <= notAfter && notBefore > now
  {
    if threshold > notAfter then RETURNCODE_THRESHOLDFAIL
    else if notBefore > now then RETURNCODE_EXPIRED
    else RETURNCODE_PASS
  }

  /**
   * Without a "-days=" flag the threshold is the zero time, so no
   * certificate that ends after it is ever classified THRESHOLDFAIL.
   */
  lemma LegacyZeroThreshold(notBefore: Time, notAfter: Time, now: Time)
    requires ZERO_TIME <= notAfter
    ensures LegacyClassify(ZERO_TIME, notBefore, notAfter, now) != RETURNCODE_THRESHOLDFAIL
  {
  }

  /**
   * What the current classifier passes at a threshold the older one also
   * passes once the certificate has started; the converse fails at the
   * boundaries, where the older rules accept a threshold equal to either end.
   */
  lemma LegacyAcceptsCurrentPass(threshold: Time, notBefore: Time, notAfter: Time, now: Time)
    requires Classify(threshold, notBefore, notAfter, now) == RETURNCODE_PASS && notBefore <= now
    ensures LegacyClassify(threshold, notBefore, notAfter, now) == RETURNCODE_PASS
    ensures LegacyClassify(notAfter, notBefore, notAfter, now) == RETURNCODE_PASS
    ensures Classify(notAfter, notBefore, notAfter, now) != RETURNCODE_PASS
  {
  }

  /** "https://" is put in front first; the first "http://" is rewritten afterwards. */
  function LegacyNormalize(target: string): string {
    var t := if HTTPS_SCHEME <= target then target else HTTPS_SCHEME + target;
    ReplaceFirst(t, HTTP_SCHEME, HTTPS_SCHEME)
  }

  /** The rewrite never touches the leading "https://". */
  lemma RewriteAfterScheme(u: string)
    ensures ReplaceFirst(HTTPS_SCHEME + u, HTTP_SCHEME, HTTPS_SCHEME) == HTTPS_SCHEME + ReplaceFirst(u, HTTP_SCHEME, HTTPS_SCHEME)
  {
    forall j: nat | j < |HTTPS_SCHEME| ensures !OccursAt(HTTPS_SCHEME + u, HTTP_SCHEME, j) {
      HttpNotInsideHttpsScheme(u, j);
    }
    ReplaceFirstKeepsPrefix(HTTPS_SCHEME, u, HTTP_SCHEME, HTTPS_SCHEME);
  }

  /** Every normalised target starts with "https://". */
  lemma LegacyNormalizeScheme(target: string)
    ensures HTTPS_SCHEME <= LegacyNormalize(target)
  {
    var t := if HTTPS_SCHEME <= target then target else HTTPS_SCHEME + target;
    var u := t[|HTTPS_SCHEME|..];
    assert t == HTTPS_SCHEME + u;
    RewriteAfterScheme(u);
  }

  /** "http://x" comes out as "https://https://x", where main.go would give "https://x". */
  lemma LegacyNormalizeHttp(rest: string)
    ensures LegacyNormalize(HTTP_SCHEME + rest) == HTTPS_SCHEME + HTTPS_SCHEME + rest
    ensures NormalizeTarget(HTTP_SCHEME + rest) == HTTPS_SCHEME + rest
  {
    var s := HTTP_SCHEME + rest;
    assert !(HTTPS_SCHEME <= s) by {
      assert s[4] == ':' && HTTPS_SCHEME[4] == 's';
    }
    RewriteAfterScheme(s);
    assert s[..|HTTP_SCHEME|] == HTTP_SCHEME;
    assert ReplaceFirst(s, HTTP_SCHEME, HTTPS_SCHEME) == HTTPS_SCHEME + s[|HTTP_SCHEME|..];
    assert s[|HTTP_SCHEME|..] == rest;
    NormalizeHttpScheme(rest);
  }

  /** A target that already starts with "https://" and holds no "http://" is left alone. */
  lemma LegacyNormalizeKeepsHttps(target: string)
    requires HTTPS_SCHEME <= target && !Contains(target, HTTP_SCHEME)
    ensures LegacyNormalize(target) == target
  {
    ReplaceFirstAbsent(target, HTTP_SCHEME, HTTPS_SCHEME);
  }

  /** What `http.Head` gave: an error, or a response whose first verified chain is known. */
  datatype HeadResponse =
    | HeadFailed(err: string)
    | HeadSucceeded(verifiedChain: seq<PeerCert>)

  /** The network, as the older program sees it: the URL to the HEAD request's outcome. */
  type HeadProbe = string -> HeadResponse

  /** The older classifier's verdict on each certificate of a chain. */
  function LegacyCodes(chain: seq<PeerCert>, threshold: Time, now: Time): (codes: seq<int>)
    ensures |codes| == |chain|
    ensures forall k :: 0 <= k < |chain| ==>
      codes[k] == LegacyClassify(threshold, chain[k].notBefore, chain[k].notAfter, now)
  {
    seq(|chain|, k requires 0 <= k < |chain| => LegacyClassify(threshold, chain[k].notBefore, chain[k].notAfter, now))
  }

  /**
   * The process's exit status after checking `targets` in turn, starting
   * from the return code `prior`: EXPIRED at the first failed request,
   * otherwise the return code the last failing certificate left.
   */
  function LegacyStatus(targets: seq<string>, prior: int, threshold: Time, now: Time, probe: HeadProbe): int
    decreases |targets|
  {
    if targets == [] then prior
    else match probe(LegacyNormalize(targets[0]))
      case HeadFailed(_) => RETURNCODE_EXPIRED
      case HeadSucceeded(chain) =>
        LegacyStatus(targets[1..], LastFailure(LegacyCodes(chain, threshold, now), prior), threshold, now, probe)
  }

  /**
   * Whether "[PASS]" (true) or "[FAIL]" (false) is printed for each target
   * reached; a failed request prints "[FAIL]" as the last line.
   */
  function LegacyVerdicts(targets: seq<string>, prior: int, threshold: Time, now: Time, probe: HeadProbe): seq<bool>
    decreases |targets|
  {
    if targets == [] then []
    else match probe(LegacyNormalize(targets[0]))
      case HeadFailed(_) => [false]
      case HeadSucceeded(chain) =>
        var code := LastFailure(LegacyCodes(chain, threshold, now), prior);
        [code == RETURNCODE_PASS] + LegacyVerdicts(targets[1..], code, threshold, now, probe)
  }

  /**
   * The global return code when the run stops: a failed request leaves it as
   * it was, since `os.Exit` is called with EXPIRED instead.
   */
  function LegacyReturnCode(targets: seq<string>, prior: int, threshold: Time, now: Time, probe: HeadProbe): int
    decreases |targets|
  {
    if targets == [] then prior
    else match probe(LegacyNormalize(targets[0]))
      case HeadFailed(_) => prior
      case HeadSucceeded(chain) =>
        LegacyReturnCode(targets[1..], LastFailure(LegacyCodes(chain, threshold, now), prior), threshold, now, probe)
  }

  /**
   * One step of the run: a failed first request prints "[FAIL]" and ends the
   * process with EXPIRED, leaving the return code; a successful one prints
   * the verdict of the updated return code and the run goes on from it.
   */
  lemma LegacyStep(targets: seq<string>, prior: int, threshold: Time, now: Time, probe: HeadProbe)
    requires targets != []
    ensures probe(LegacyNormalize(targets[0])).HeadFailed? ==>
      && LegacyStatus(targets, prior, threshold, now, probe) == RETURNCODE_EXPIRED
      && LegacyVerdicts(targets, prior, threshold, now, probe) == [false]
      && LegacyReturnCode(targets, prior, threshold, now, probe) == prior
    ensures probe(LegacyNormalize(targets[0])).HeadSucceeded? ==>
      var code := LastFailure(LegacyCodes(probe(LegacyNormalize(targets[0])).verifiedChain, threshold, now), prior);
      && LegacyStatus(targets, prior, threshold, now, probe) == LegacyStatus(targets[1..], code, threshold, now, probe)
      && LegacyVerdicts(targets, prior, threshold, now, probe)
        == [code == RETURNCODE_PASS] + LegacyVerdicts(targets[1..], code, threshold, now, probe)
      && LegacyReturnCode(targets, prior, threshold, now, probe) == LegacyReturnCode(targets[1..], code, threshold, now, probe)
  {
  }

  /** A failure in the return code survives every later target. */
  lemma {:induction false} LegacyStatusKeepsFailure(targets: seq<string>, prior: int, threshold: Time, now: Time, probe: HeadProbe)
    requires prior != RETURNCODE_PASS
    ensures LegacyStatus(targets, prior, threshold, now, probe) != RETURNCODE_PASS
    ensures forall i :: 0 <= i < |LegacyVerdicts(targets, prior, threshold, now, probe)| ==>
      !LegacyVerdicts(targets, prior, threshold, now, probe)[i]
    decreases |targets|
  {
    if targets != [] {
      match probe(LegacyNormalize(targets[0]))
      case HeadFailed(_) =>
      case HeadSucceeded(chain) =>
        var codes := LegacyCodes(chain, threshold, now);
        LastFailureKeepsFailure(codes, prior);
        LegacyStatusKeepsFailure(targets[1..], LastFailure(codes, prior), threshold, now, probe);
    }
  }

  /**
   * Once a target prints "[FAIL]" every later target prints "[FAIL]" too and
   * the process does not exit with 0.
   */
  lemma {:induction false} LegacyFailureSticks(targets: seq<string>, prior: int, threshold: Time, now: Time, probe: HeadProbe)
    ensures var verdicts := LegacyVerdicts(targets, prior, threshold, now, probe);
      forall i, j :: 0 <= i < j < |verdicts| && !verdicts[i] ==> !verdicts[j]
    ensures var verdicts := LegacyVerdicts(targets, prior, threshold, now, probe);
      forall i :: 0 <= i < |verdicts| && !verdicts[i] ==> LegacyStatus(targets, prior, threshold, now, probe) != RETURNCODE_PASS
    decreases |targets|
  {
    if targets != [] {
      match probe(LegacyNormalize(targets[0]))
      case HeadFailed(_) =>
      case HeadSucceeded(chain) =>
        var code := LastFailure(LegacyCodes(chain, threshold, now), prior);
        var rest := LegacyVerdicts(targets[1..], code, threshold, now, probe);
        LegacyFailureSticks(targets[1..], code, threshold, now, probe);
        if code != RETURNCODE_PASS {
          LegacyStatusKeepsFailure(targets[1..], code, threshold, now, probe);
        }
        LegacyStep(targets, prior, threshold, now, probe);
        var verdicts := LegacyVerdicts(targets, prior, threshold, now, probe);
        assert verdicts == [code == RETURNCODE_PASS] + rest;
        forall i, j | 0 <= i < j < |verdicts| && !verdicts[i] ensures !verdicts[j] {
          assert verdicts[j] == rest[j - 1];
          if i > 0 {
            assert verdicts[i] == rest[i - 1];
          }
        }
        forall i | 0 <= i < |verdicts| && !verdicts[i]
          ensures LegacyStatus(targets, prior, threshold, now, probe) != RETURNCODE_PASS
        {
          if i > 0 {
            assert verdicts[i] == rest[i - 1];
          }
        }
    }
  }

  /**
   * What one call of `checkSsl` did: it always prints a verdict, and it may
   * then end the process with an exit status.
   */
  datatype Outcome = Printed(passed: bool) | Exited(passed: bool, code: int)

  /** The days value of the last "-days=" flag, or `init` without one. */
  function DaysAfter(args: seq<string>, init: int): int {
    match LastDaysFlag(args)
    case None => init
    case Some(flag) => DaysValue(flag)
  }

  lemma DaysAfterSnoc(args: seq<string>, value: string, init: int)
    ensures DaysAfter(args + [value], init) == if IsDaysFlag(value) then DaysValue(value) else DaysAfter(args, init)
  {
    FlagsSnoc(args, value, ZERO_TIME, ZERO_TIME);
  }

  lemma VerdictsAssoc(done: seq<bool>, next: bool, later: seq<bool>)
    ensures done + ([next] + later) == (done + [next]) + later
  {
  }

  class LegacyProgram {
    var returnCode: int
    var daysThreshold: int
    var dateThreshold: Time

    /** The globals' zero values. */
    constructor ()
      ensures returnCode == 0 && daysThreshold == 0 && dateThreshold == ZERO_TIME
    {
      returnCode := 0;
      daysThreshold := 0;
      dateThreshold := ZERO_TIME;
    }

    /**
     * `separateCommandLineArgumentsFromFlags`: the targets in order; each
     * "-days=" flag resets both the day count and the threshold.
     */
    method SeparateCommandLineArgumentsFromFlags(argv: seq<string>, now: Time) returns (arguments: seq<string>)
      modifies this
      ensures arguments == Targets(argv)
      ensures daysThreshold == DaysAfter(Arguments(argv), old(daysThreshold))
      ensures dateThreshold == ThresholdAfter(Arguments(argv), old(dateThreshold), now)
      ensures returnCode == old(returnCode)
    {
      arguments := [];
      if argv == [] {
        return;
      }
      var i := 1;
      while i < |argv|
        invariant 1 <= i <= |argv|
        invariant arguments == NonFlags(argv[1..i])
        invariant daysThreshold == DaysAfter(argv[1..i], old(daysThreshold))
        invariant dateThreshold == ThresholdAfter(argv[1..i], old(dateThreshold), now)
        invariant returnCode == old(returnCode)
      {
        var value := argv[i];
        ArgumentsStep(argv, i);
        FlagsSnoc(argv[1..i], value, old(dateThreshold), now);
        DaysAfterSnoc(argv[1..i], value, old(daysThreshold));
        i := i + 1;
        if IsFlag(value) {
          ApplyFlag(value, now);
          continue;
        }
        arguments := arguments + [value];
      }
      ArgumentsWhole(argv);
    }

    /** The settings one flag changes: "-days=" resets both the day count and the threshold. */
    method ApplyFlag(value: string, now: Time)
      modifies this
      ensures daysThreshold == if IsDaysFlag(value) then DaysValue(value) else old(daysThreshold)
      ensures dateThreshold == if IsDaysFlag(value) then DaysThreshold(value, now) else old(dateThreshold)
      ensures returnCode == old(returnCode)
    {
      if IsDaysFlag(value) {
        daysThreshold := DaysValue(value);
        dateThreshold := now + HoursDuration(daysThreshold * 24);
      }
    }

    /**
     * `checkSsl`: a failed request prints "[FAIL]" and ends the process with
     * EXPIRED; otherwise
     * every failing certificate overwrites the return code, and the verdict
     * printed is PASS exactly when the return code is still 0.
     */
    method CheckSsl(target: string, now: Time, probe: HeadProbe) returns (outcome: Outcome)
      modifies this
      ensures daysThreshold == old(daysThreshold) && dateThreshold == old(dateThreshold)
      ensures probe(LegacyNormalize(target)).HeadFailed? ==>
        outcome == Exited(false, RETURNCODE_EXPIRED) && returnCode == old(returnCode)
      ensures probe(LegacyNormalize(target)).HeadSucceeded? ==>
        var chain := probe(LegacyNormalize(target)).verifiedChain;
        && returnCode == LastFailure(LegacyCodes(chain, dateThreshold, now), old(returnCode))
        && outcome == Printed(returnCode == RETURNCODE_PASS)
    {
      var url := target;
      if !(HTTPS_SCHEME <= url) {
        url := HTTPS_SCHEME + url;
      }
      url := ReplaceFirst(url, HTTP_SCHEME, HTTPS_SCHEME);
      match probe(url)
      case HeadFailed(_) =>
        outcome := Exited(false, RETURNCODE_EXPIRED);
      case HeadSucceeded(chain) =>
        var i := 0;
        while i < |chain|
          invariant i <= |chain|
          invariant returnCode == LastFailure(LegacyCodes(chain[..i], dateThreshold, now), old(returnCode))
          invariant daysThreshold == old(daysThreshold) && dateThreshold == old(dateThreshold)
        {
          var val := chain[i];
          var newCode := LegacyClassify(dateThreshold, val.notBefore, val.notAfter, now);
          ghost var codes := LegacyCodes(chain[..i + 1], dateThreshold, now);
          assert codes[..i] == LegacyCodes(chain[..i], dateThreshold, now);
          assert codes[i] == newCode;
          if newCode > RETURNCODE_PASS {
            returnCode := newCode;
          }
          i := i + 1;
        }
        assert chain[..i] == chain;
        outcome := Printed(returnCode == RETURNCODE_PASS);
    }

    /**
     * `main`: the targets are checked in turn until one request fails; the
     * exit status is then EXPIRED, otherwise the final return code.
     */
    method Run(argv: seq<string>, now: Time, probe: HeadProbe) returns (status: int, verdicts: seq<bool>)
      modifies this
      ensures daysThreshold == DaysAfter(Arguments(argv), old(daysThreshold))
      ensures dateThreshold == ThresholdAfter(Arguments(argv), old(dateThreshold), now)
      ensures returnCode == LegacyReturnCode(Targets(argv), old(returnCode), dateThreshold, now, probe)
      ensures status == LegacyStatus(Targets(argv), old(returnCode), dateThreshold, now, probe)
      ensures verdicts == LegacyVerdicts(Targets(argv), old(returnCode), dateThreshold, now, probe)
    {
      var arguments := SeparateCommandLineArgumentsFromFlags(argv, now);
      verdicts := [];
      var i := 0;
      while i < |arguments|
        invariant i <= |arguments|
        invariant daysThreshold == DaysAfter(Arguments(argv), old(daysThreshold))
        invariant dateThreshold == ThresholdAfter(Arguments(argv), old(dateThreshold), now)
        invariant LegacyReturnCode(arguments[i..], returnCode, dateThreshold, now, probe)
          == LegacyReturnCode(arguments, old(returnCode), dateThreshold, now, probe)
        invariant LegacyStatus(arguments[i..], returnCode, dateThreshold, now, probe)
          == LegacyStatus(arguments, old(returnCode), dateThreshold, now, probe)
        invariant verdicts + LegacyVerdicts(arguments[i..], returnCode, dateThreshold, now, probe)
          == LegacyVerdicts(arguments, old(returnCode), dateThreshold, now, probe)
      {
        var rest := arguments[i..];
        assert rest[0] == arguments[i] && rest[1..] == arguments[i + 1..];
        LegacyStep(rest, returnCode, dateThreshold, now, probe);
        ghost var tail := LegacyVerdicts(rest, returnCode, dateThreshold, now, probe);
        var outcome := CheckSsl(arguments[i], now, probe);
        if outcome.Exited? {
          verdicts := verdicts + [outcome.passed];
          status := outcome.code;
          return;
        }
        VerdictsAssoc(verdicts, outcome.passed, LegacyVerdicts(arguments[i + 1..], returnCode, dateThreshold, now, probe));
        verdicts := verdicts + [outcome.passed];
        i := i + 1;
      }
      assert verdicts + [] == verdicts;
      status := returnCode;
    }
  }
}
