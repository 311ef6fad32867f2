/**
 * The command line of both programs (main.go and the older checkssl.go):
 * which arguments are targets, and what the "-days=N" and "-json" flags
 * set. Both programs skip the program name, drop every argument that starts
 * with "-" and keep the others in order.
 */
module Flags {
  import opened Wrappers
  import opened GoText
  import opened Tolerance

  const FLAG_DAYS := "-days="
  const FLAG_JSON := "-json"

  /** `strings.HasPrefix(value, "-")`: the argument is a flag, not a target. */
  predicate IsFlag(arg: string) {
    "-" <= arg
  }

  predicate IsDaysFlag(arg: string) {
    FLAG_DAYS <= arg
  }

  predicate IsJsonFlag(arg: string) {
    FLAG_JSON <= arg
  }

  /** `os.Args` without the program name. */
  function Arguments(argv: seq<string>): (args: seq<string>)
    ensures |args| == if argv == [] then 0 else |argv| - 1
    ensures forall k :: 0 <= k < |args| ==> args[k] == argv[k + 1]
  {
    if argv == [] then [] else argv[1..]
  }

  /** The arguments that are not flags, in their order. */
  function NonFlags(args: seq<string>): (kept: seq<string>)
    ensures |kept| <= |args|
    ensures forall t :: t in kept ==> t in args && !IsFlag(t)
  {
    if args == [] then []
    else if IsFlag(args[|args| - 1]) then NonFlags(args[..|args| - 1])
    else NonFlags(args[..|args| - 1]) + [args[|args| - 1]]
  }

  /** The targets a command line names. */
  function Targets(argv: seq<string>): seq<string> {
    NonFlags(Arguments(argv))
  }

  /** Filtering commutes with concatenation: flags can be mixed in anywhere. */
  lemma {:induction false} NonFlagsAppend(a: seq<string>, b: seq<string>)
    ensures NonFlags(a + b) == NonFlags(a) + NonFlags(b)
    decreases |b|
  {
    if b == [] {
      assert a + b == a;
    } else {
      var n := |b| - 1;
      assert (a + b)[..|a + b| - 1] == a + b[..n];
      NonFlagsAppend(a, b[..n]);
    }
  }

  /** Every argument that is not a flag is kept. */
  lemma {:induction false} NonFlagsKeeps(args: seq<string>, k: nat)
    requires k < |args| && !IsFlag(args[k])
    ensures args[k] in NonFlags(args)
    decreases |args|
  {
    var n := |args| - 1;
    if k < n {
      NonFlagsKeeps(args[..n], k);
    }
  }

  /** A list that holds no flag is kept whole. */
  lemma {:induction false} NonFlagsWithoutFlags(args: seq<string>)
    requires forall k :: 0 <= k < |args| ==> !IsFlag(args[k])
    ensures NonFlags(args) == args
    decreases |args|
  {
    if args != [] {
      var n := |args| - 1;
      NonFlagsWithoutFlags(args[..n]);
      assert args[..n] + [args[n]] == args;
    }
  }

  /** A string is a target exactly when it appears after the program name and is not a flag. */
  lemma TargetsMembership(argv: seq<string>, t: string)
    ensures t in Targets(argv) <==> !IsFlag(t) && exists k :: 1 <= k < |argv| && argv[k] == t
  {
    var args := Arguments(argv);
    if !IsFlag(t) && exists k :: 1 <= k < |argv| && argv[k] == t {
      var k :| 1 <= k < |argv| && argv[k] == t;
      NonFlagsKeeps(args, k - 1);
    }
    if t in Targets(argv) {
      var j :| 0 <= j < |args| && args[j] == t;
      assert argv[j + 1] == t;
    }
  }

  /**
   * `strconv.ParseInt(strings.Replace(value, FLAG_DAYS, "", 1), 10, 32)` with
   * its error discarded.
   */
  function DaysValue(arg: string): (days: int)
    ensures MIN_INT32 <= days <= MAX_INT32
  {
    ParseInt32(ReplaceFirst(arg, FLAG_DAYS, ""))
  }

  /** Only the leading "-days=" is removed; the rest is parsed as it stands. */
  lemma DaysValueOfFlag(rest: string)
    ensures DaysValue(FLAG_DAYS + rest) == ParseInt32(rest)
  {
    var s := FLAG_DAYS + rest;
    assert s[0..|FLAG_DAYS|] == FLAG_DAYS;
    ReplaceFirstAt(s, FLAG_DAYS, "", 0);
    assert s[..0] + "" + s[0 + |FLAG_DAYS|..] == rest;
  }

  /** "-days=N" for a 32-bit N reads back N. */
  lemma DaysValueRoundTrip(n: int)
    requires MIN_INT32 <= n <= MAX_INT32
    ensures DaysValue(FLAG_DAYS + IntString(n)) == n
  {
    DaysValueOfFlag(IntString(n));
    ParseIntString(n);
  }

  /**
   * A day count past 2^32 - 1 is clamped by the range error before any
   * trailing bad character is reached: "-days=4294967296x" reads as the
   * largest 32-bit value, not as 0.
   */
  lemma DaysValueRangeBeforeSyntax(n: nat, rest: string)
    requires n > MAX_UINT32 && (rest == [] || !IsDigit(rest[0]))
    ensures DaysValue(FLAG_DAYS + IntString(n) + rest) == MAX_INT32
  {
    var digits := Digits(n, 10);
    assert FLAG_DAYS + IntString(n) + rest == FLAG_DAYS + (digits + rest);
    DaysValueOfFlag(digits + rest);
    DigitsAreDecimal(n);
    DigitsValueOfDigits(n, 10);
    assert "" + digits + rest == digits + rest;
    ParseInt32Cases("", digits, rest);
  }

  /** The most hours `time.ParseDuration` accepts without overflowing `time.Duration`. */
  const MAX_DURATION_HOURS := 2562047

  /**
   * `time.ParseDuration(strconv.Itoa(hours) + "h")` with its error discarded:
   * that many hours, or 0 when the duration would overflow.
   */
  function HoursDuration(hours: int): (d: int)
    ensures MIN_DURATION <= d <= MAX_DURATION
    ensures -MAX_DURATION_HOURS <= hours <= MAX_DURATION_HOURS ==> d == hours * HOUR
    ensures hours < -MAX_DURATION_HOURS || MAX_DURATION_HOURS < hours ==> d == 0
  {
    if MIN_DURATION <= hours * HOUR <= MAX_DURATION then hours * HOUR else 0
  }

  /** The threshold one "-days=" flag sets: now plus the parsed days, in hours. */
  function DaysThreshold(arg: string, now: Time): Time {
    now + HoursDuration(DaysValue(arg) * 24)
  }

  /** The most days whose hours still fit in a `time.Duration`. */
  const MAX_THRESHOLD_DAYS := 106751

  /**
   * "-days=N" moves the threshold N days past now when N days fit in a
   * `time.Duration`, and leaves it at now when they do not.
   */
  lemma DaysThresholdRoundTrip(n: int, now: Time)
    requires MIN_INT32 <= n <= MAX_INT32
    ensures -MAX_THRESHOLD_DAYS <= n <= MAX_THRESHOLD_DAYS ==> DaysThreshold(FLAG_DAYS + IntString(n), now) == now + n * DAY
    ensures n < -MAX_THRESHOLD_DAYS || MAX_THRESHOLD_DAYS < n ==> DaysThreshold(FLAG_DAYS + IntString(n), now) == now
  {
    DaysValueRoundTrip(n);
  }

  /** A value that does not start with a sign or a digit counts as 0 days: the threshold becomes now. */
  lemma DaysThresholdMalformed(rest: string, now: Time)
    requires rest == [] || (rest[0] != '+' && rest[0] != '-' && !IsDigit(rest[0]))
    ensures DaysThreshold(FLAG_DAYS + rest, now) == now
  {
    DaysValueOfFlag(rest);
  }

  /** The last "-days=" flag among the arguments, if any. */
  function LastDaysFlag(args: seq<string>): (flag: Option<string>)
    ensures flag.Some? ==> flag.value in args && IsDaysFlag(flag.value)
  {
    if args == [] then None
    else if IsDaysFlag(args[|args| - 1]) then Some(args[|args| - 1])
    else LastDaysFlag(args[..|args| - 1])
  }

  /** There is no last "-days=" flag exactly when there is none at all. */
  lemma {:induction false} LastDaysFlagAbsent(args: seq<string>)
    ensures LastDaysFlag(args).None? <==> forall k :: 0 <= k < |args| ==> !IsDaysFlag(args[k])
    decreases |args|
  {
    if args != [] {
      var n := |args| - 1;
      LastDaysFlagAbsent(args[..n]);
      if forall k :: 0 <= k < n ==> !IsDaysFlag(args[..n][k]) {
        assert forall k :: 0 <= k < n ==> !IsDaysFlag(args[k]);
      }
    }
  }

  /** A "-days=" flag followed by no other one is the one that counts. */
  lemma {:induction false} LastDaysFlagOverrides(a: seq<string>, d: string, b: seq<string>)
    requires IsDaysFlag(d)
    requires forall k :: 0 <= k < |b| ==> !IsDaysFlag(b[k])
    ensures LastDaysFlag(a + [d] + b) == Some(d)
    decreases |b|
  {
    var s := a + [d] + b;
    if b != [] {
      var n := |b| - 1;
      assert s[..|s| - 1] == a + [d] + b[..n];
      assert s[|s| - 1] == b[n];
      LastDaysFlagOverrides(a, d, b[..n]);
    }
  }

  /** The threshold after the flags: the last "-days=" flag decides, otherwise `init` stays. */
  function ThresholdAfter(args: seq<string>, init: Time, now: Time): Time {
    match LastDaysFlag(args)
    case None => init
    case Some(flag) => DaysThreshold(flag, now)
  }

  /**
   * With "-days=N" and no later "-days=" flag the threshold is N days past
   * now, whatever came before; without any "-days=" flag it keeps its
   * initial value.
   */
  lemma ThresholdAfterDaysFlag(a: seq<string>, n: int, b: seq<string>, init: Time, now: Time)
    requires MIN_INT32 <= n <= MAX_INT32 && -MAX_THRESHOLD_DAYS <= n <= MAX_THRESHOLD_DAYS
    requires forall k :: 0 <= k < |b| ==> !IsDaysFlag(b[k])
    ensures ThresholdAfter(a + [FLAG_DAYS + IntString(n)] + b, init, now) == now + n * DAY
    ensures ThresholdAfter(b, init, now) == init
  {
    var d := FLAG_DAYS + IntString(n);
    assert d[..|FLAG_DAYS|] == FLAG_DAYS;
    LastDaysFlagOverrides(a, d, b);
    DaysThresholdRoundTrip(n, now);
    LastDaysFlagAbsent(b);
  }

  /** Some argument starts with "-json". */
  predicate JsonRequested(args: seq<string>) {
    exists k :: 0 <= k < |args| && IsJsonFlag(args[k])
  }

  /** What one more argument does to the targets, the last "-days=" flag, the threshold and the JSON switch. */
  lemma FlagsSnoc(args: seq<string>, value: string, init: Time, now: Time)
    ensures NonFlags(args + [value]) == if IsFlag(value) then NonFlags(args) else NonFlags(args) + [value]
    ensures LastDaysFlag(args + [value]) == if IsDaysFlag(value) then Some(value) else LastDaysFlag(args)
    ensures ThresholdAfter(args + [value], init, now) == if IsDaysFlag(value) then DaysThreshold(value, now) else ThresholdAfter(args, init, now)
    ensures JsonRequested(args + [value]) <==> JsonRequested(args) || IsJsonFlag(value)
  {
    var s := args + [value];
    assert s[..|s| - 1] == args;
    assert s[|args|] == value;
    if JsonRequested(args) {
      var k :| 0 <= k < |args| && IsJsonFlag(args[k]);
      assert s[k] == args[k];
    }
    if JsonRequested(s) && !IsJsonFlag(value) {
      var k :| 0 <= k < |s| && IsJsonFlag(s[k]);
      assert args[k] == s[k];
    }
  }

  /** The arguments seen after one more step of a loop over `argv`. */
  lemma ArgumentsStep(argv: seq<string>, i: nat)
    requires 1 <= i < |argv|
    ensures argv[1..i + 1] == argv[1..i] + [argv[i]]
  {
  }

  lemma PrefixWhole(args: seq<string>)
    ensures args[..|args|] == args
  {
  }

  lemma ArgumentsWhole(argv: seq<string>)
    requires argv != []
    ensures argv[1..|argv|] == Arguments(argv)
  {
  }
}
