/**
 * The command-line program of main.go: split the command line into targets
 * and flags, check every target against the date threshold, and exit with
 * the sum of the exit codes. The package globals `returnCode`,
 * `dateThreshold` and `outputAsJson` are the fields of `Program`.
 */
module Cli {
  import opened Tolerance
  import opened Report
  import opened Checker
  import opened Flags

  /** `noTargetsWereGiven`. */
  predicate NoTargetsWereGiven(arguments: seq<string>) {
    |arguments| == 0
  }

  /** Help is shown exactly when every argument after the program name is a flag. */
  lemma NoTargetsOnlyFlags(argv: seq<string>)
    ensures NoTargetsWereGiven(Targets(argv)) <==> forall k :: 1 <= k < |argv| ==> IsFlag(argv[k])
  {
    if exists k :: 1 <= k < |argv| && !IsFlag(argv[k]) {
      var k :| 1 <= k < |argv| && !IsFlag(argv[k]);
      TargetsMembership(argv, argv[k]);
    }
    if forall k :: 1 <= k < |argv| ==> IsFlag(argv[k]) {
      if Targets(argv) != [] {
        TargetsMembership(argv, Targets(argv)[0]);
      }
    }
  }

  /** What one target's check reports under the settings main.go uses. */
  function TargetResult(target: string, threshold: Time, now: Time, probe: Probe): CheckedServer {
    Check(target, false, threshold, now, DEFAULT_TIMEOUT_SEC, probe)
  }

  /** The exit codes of the targets' checks, in order. */
  function ExitCodes(targets: seq<string>, threshold: Time, now: Time, probe: Probe): (codes: seq<int>)
    ensures |codes| == |targets|
    ensures forall k :: 0 <= k < |targets| ==> codes[k] == TargetResult(targets[k], threshold, now, probe).exitCode
  {
    seq(|targets|, k requires 0 <= k < |targets| => TargetResult(targets[k], threshold, now, probe).exitCode)
  }

  /** `returnCode += result.ExitCode` over a list of codes. */
  function Sum(codes: seq<int>): int {
    if codes == [] then 0 else Sum(codes[..|codes| - 1]) + codes[|codes| - 1]
  }

  /** One more target adds its exit code to the sum. */
  lemma ExitCodesStep(targets: seq<string>, i: nat, threshold: Time, now: Time, probe: Probe)
    requires i < |targets|
    ensures Sum(ExitCodes(targets[..i + 1], threshold, now, probe))
      == Sum(ExitCodes(targets[..i], threshold, now, probe)) + TargetResult(targets[i], threshold, now, probe).exitCode
  {
    var codes := ExitCodes(targets[..i + 1], threshold, now, probe);
    assert codes[..i] == ExitCodes(targets[..i], threshold, now, probe);
  }

  /** Codes that are never negative add up to 0 exactly when each is 0. */
  lemma {:induction false} SumZero(codes: seq<int>)
    requires forall k :: 0 <= k < |codes| ==> codes[k] >= 0
    ensures Sum(codes) >= 0
    ensures Sum(codes) == 0 <==> forall k :: 0 <= k < |codes| ==> codes[k] == 0
    decreases |codes|
  {
    if codes != [] {
      var n := |codes| - 1;
      SumZero(codes[..n]);
    }
  }

  /**
   * The value passed to `os.Exit` is 0 exactly when every target's check
   * exits with 0; the status a shell then sees is 0 too.
   */
  lemma ExitSumZero(targets: seq<string>, threshold: Time, now: Time, probe: Probe)
    ensures Sum(ExitCodes(targets, threshold, now, probe)) >= 0
    ensures Sum(ExitCodes(targets, threshold, now, probe)) == 0 <==>
      forall k :: 0 <= k < |targets| ==> TargetResult(targets[k], threshold, now, probe).exitCode == RETURNCODE_PASS
    ensures Sum(ExitCodes(targets, threshold, now, probe)) == 0 ==> ExitStatus(Sum(ExitCodes(targets, threshold, now, probe))) == 0
  {
    var codes := ExitCodes(targets, threshold, now, probe);
    forall k | 0 <= k < |targets| ensures codes[k] >= 0 {
      CheckExitCode(targets[k], false, threshold, now, DEFAULT_TIMEOUT_SEC, probe);
    }
    SumZero(codes);
  }

  /**
   * The status a Unix shell sees after `os.Exit(code)`: only the low eight
   * bits of the code survive.
   */
  function ExitStatus(code: int): (status: int)
    ensures 0 <= status < 256
    ensures 0 <= code < 256 ==> status == code
    ensures (code - status) % 256 == 0
  {
    code % 256
  }

  /** Codes that all equal `c` add up to `c` times their number. */
  lemma {:induction false} SumConstant(codes: seq<int>, c: int)
    requires forall k :: 0 <= k < |codes| ==> codes[k] == c
    ensures Sum(codes) == |codes| * c
    decreases |codes|
  {
    if codes != [] {
      SumConstant(codes[..|codes| - 1], c);
    }
  }

  /**
   * The exit status can hide failures: 64 targets that each fail with
   * NOTVALIDYET add up to 256, and the shell sees status 0.
   */
  lemma ExitStatusHidesFailures(targets: seq<string>, threshold: Time, now: Time, probe: Probe)
    requires |targets| == 64
    requires forall k :: 0 <= k < |targets| ==>
      TargetResult(targets[k], threshold, now, probe).exitCode == RETURNCODE_NOTVALIDYET
    ensures Sum(ExitCodes(targets, threshold, now, probe)) == 256
    ensures ExitStatus(Sum(ExitCodes(targets, threshold, now, probe))) == 0
    ensures forall k :: 0 <= k < |targets| ==> !TargetResult(targets[k], threshold, now, probe).passed
  {
    SumConstant(ExitCodes(targets, threshold, now, probe), RETURNCODE_NOTVALIDYET);
    forall k | 0 <= k < |targets| ensures !TargetResult(targets[k], threshold, now, probe).passed {
      CheckExitCode(targets[k], false, threshold, now, DEFAULT_TIMEOUT_SEC, probe);
    }
  }

  /**
   * Without a "-days=" flag the threshold stays the zero time, so a chain
   * whose certificates are all valid right now fails with THRESHOLDFAIL.
   */
  lemma ZeroThresholdFailsValidChain(target: string, now: Time, probe: Probe)
    requires var answer := probe(NormalizeTarget(target), false, DEFAULT_TIMEOUT_SEC);
      answer.Responded? && answer.tls.Some? && answer.tls.value.peerCertificates != []
    requires var peers := probe(NormalizeTarget(target), false, DEFAULT_TIMEOUT_SEC).tls.value.peerCertificates;
      forall k :: 0 <= k < |peers| ==> ZERO_TIME <= peers[k].notBefore && Within(now, peers[k].notBefore, peers[k].notAfter)
    ensures var out := TargetResult(target, ZERO_TIME, now, probe);
      !out.passed && out.exitCode == RETURNCODE_THRESHOLDFAIL
  {
    var peers := probe(NormalizeTarget(target), false, DEFAULT_TIMEOUT_SEC).tls.value.peerCertificates;
    CheckChain(target, false, ZERO_TIME, now, DEFAULT_TIMEOUT_SEC, probe);
    var out := TargetResult(target, ZERO_TIME, now, probe);
    assert out.certs[0].isInvalid;
  }

  /**
   * The `CheckServer(target, threshold)` main.go calls: a checker with the
   * default timeout and the given threshold, checking the target securely.
   */
  method CheckServer(target: string, threshold: Time, now: Time, probe: Probe) returns (result: CheckedServer)
    ensures result == TargetResult(target, threshold, now, probe)
  {
    var checker := new CheckSSL(now);
    checker.SetThreshold(threshold);
    result := checker.CheckServer(target, false, now, probe);
  }

  class Program {
    var returnCode: int
    var dateThreshold: Time
    var outputAsJson: bool

    /** The globals' zero values. */
    constructor ()
      ensures returnCode == 0 && dateThreshold == ZERO_TIME && !outputAsJson
    {
      returnCode := 0;
      dateThreshold := ZERO_TIME;
      outputAsJson := false;
    }

    /**
     * `separateCommandLineArgumentsFromFlags`: the targets in order; each
     * "-days=" flag resets the threshold, each "-json" flag turns JSON on.
     */
    method SeparateCommandLineArgumentsFromFlags(argv: seq<string>, now: Time) returns (arguments: seq<string>)
      modifies this
      ensures arguments == Targets(argv)
      ensures dateThreshold == ThresholdAfter(Arguments(argv), old(dateThreshold), now)
      ensures outputAsJson == (old(outputAsJson) || JsonRequested(Arguments(argv)))
      ensures returnCode == old(returnCode)
    {
      arguments := [];
      if argv == [] {
        return;
      }
      var i := 1;
      while i < |argv|
        invariant 1 <= i <= |argv|
        invariant arguments == NonFlags(argv[1..i])
        invariant dateThreshold == ThresholdAfter(argv[1..i], old(dateThreshold), now)
        invariant outputAsJson == (old(outputAsJson) || JsonRequested(argv[1..i]))
        invariant returnCode == old(returnCode)
      {
        var value := argv[i];
        ArgumentsStep(argv, i);
        FlagsSnoc(argv[1..i], value, old(dateThreshold), now);
        i := i + 1;
        if IsFlag(value) {
          ApplyFlag(value, now);
          continue;
        }
        arguments := arguments + [value];
      }
      ArgumentsWhole(argv);
    }

    /** The settings one flag changes: "-days=" resets the threshold, "-json" turns JSON on. */
    method ApplyFlag(value: string, now: Time)
      modifies this
      ensures dateThreshold == if IsDaysFlag(value) then DaysThreshold(value, now) else old(dateThreshold)
      ensures outputAsJson == (old(outputAsJson) || IsJsonFlag(value))
      ensures returnCode == old(returnCode)
    {
      if IsDaysFlag(value) {
        dateThreshold := DaysThreshold(value, now);
      }
      if IsJsonFlag(value) {
        outputAsJson := true;
      }
    }

    /**
     * `main`: every target is checked with the threshold the flags set and
     * the program's exit code is the sum of the results' exit codes.
     */
    method Run(argv: seq<string>, now: Time, probe: Probe) returns (exitCode: int)
      modifies this
      ensures dateThreshold == ThresholdAfter(Arguments(argv), old(dateThreshold), now)
      ensures outputAsJson == (old(outputAsJson) || JsonRequested(Arguments(argv)))
      ensures exitCode == returnCode == old(returnCode) + Sum(ExitCodes(Targets(argv), dateThreshold, now, probe))
    {
      var arguments := SeparateCommandLineArgumentsFromFlags(argv, now);
      var i := 0;
      while i < |arguments|
        invariant i <= |arguments|
        invariant dateThreshold == ThresholdAfter(Arguments(argv), old(dateThreshold), now)
        invariant outputAsJson == (old(outputAsJson) || JsonRequested(Arguments(argv)))
        invariant returnCode == old(returnCode) + Sum(ExitCodes(arguments[..i], dateThreshold, now, probe))
      {
        var result := CheckServer(arguments[i], dateThreshold, now, probe);
        ExitCodesStep(arguments, i, dateThreshold, now, probe);
        returnCode := returnCode + result.exitCode;
        i := i + 1;
      }
      PrefixWhole(arguments);
      exitCode := returnCode;
    }
  }
}
