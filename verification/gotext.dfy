/** The small optional-value wrapper used throughout the model. */
module Wrappers {
  datatype Option<+T> = None | Some(value: T)
}

/**
 * The parts of Go's `strings` and `strconv` packages that the program relies
 * on, written over `seq<char>`: `strings.HasPrefix` is Dafny's prefix
 * relation `p <= s`; the rest is defined here together with the facts the
 * model needs about them.
 */
module GoText {

  /** `sub` occurs in `s` starting at index `i`. */
  predicate OccursAt(s: string, sub: string, i: nat) {
    i + |sub| <= |s| && s[i..i + |sub|] == sub
  }

  /** `strings.Contains`. */
  ghost predicate Contains(s: string, sub: string) {
    exists i: nat :: OccursAt(s, sub, i)
  }

  /**
   * `strings.Replace(s, pat, rep, 1)`: the leftmost occurrence of `pat` is
   * replaced by `rep`; an empty `pat` matches at the very start.
   */
  function ReplaceFirst(s: string, pat: string, rep: string): string
    decreases |s|
  {
    if |s| < |pat| then s
    else if s[..|pat|] == pat then rep + s[|pat|..]
    else [s[0]] + ReplaceFirst(s[1..], pat, rep)
  }

  lemma ShiftOccurrence(s: string, sub: string, j: nat)
    requires |s| > 0 && OccursAt(s[1..], sub, j)
    ensures OccursAt(s, sub, j + 1)
  {
    assert s[j + 1..j + 1 + |sub|] == s[1..][j..j + |sub|];
  }

  /** Without an occurrence of `pat`, replacing leaves the string as it is. */
  lemma {:induction false} ReplaceFirstAbsent(s: string, pat: string, rep: string)
    requires !Contains(s, pat)
    ensures ReplaceFirst(s, pat, rep) == s
    decreases |s|
  {
    if |s| >= |pat| {
      assert !OccursAt(s, pat, 0);
      if Contains(s[1..], pat) {
        var j: nat :| OccursAt(s[1..], pat, j);
        ShiftOccurrence(s, pat, j);
        assert false;
      }
      ReplaceFirstAbsent(s[1..], pat, rep);
    }
  }

  /** When the leftmost occurrence of `pat` is at `i`, exactly that one is replaced. */
  lemma {:induction false} ReplaceFirstAt(s: string, pat: string, rep: string, i: nat)
    requires OccursAt(s, pat, i)
    requires forall j: nat :: j < i ==> !OccursAt(s, pat, j)
    ensures ReplaceFirst(s, pat, rep) == s[..i] + rep + s[i + |pat|..]
    decreases i
  {
    if i == 0 {
      assert s[0..|pat|] == s[..|pat|];
      assert s[..|pat|] == pat;
    } else {
      assert !OccursAt(s, pat, 0);
      ReplaceFirstSkip(s, pat, rep);
      TailOccurrence(s, pat, i);
      ReplaceFirstAt(s[1..], pat, rep, i - 1);
      ConsSplit(s, i, |pat|, rep);
    }
  }

  /** Without an occurrence at the start, the first character is kept and the search moves on. */
  lemma ReplaceFirstSkip(s: string, pat: string, rep: string)
    requires |pat| <= |s| && !OccursAt(s, pat, 0)
    ensures ReplaceFirst(s, pat, rep) == [s[0]] + ReplaceFirst(s[1..], pat, rep)
  {
    assert s[0..|pat|] == s[..|pat|];
  }

  /** Occurrences in `s` after the first position are occurrences in `s[1..]`, one place earlier. */
  lemma TailOccurrence(s: string, pat: string, i: nat)
    requires 0 < i && OccursAt(s, pat, i)
    requires forall j: nat :: j < i ==> !OccursAt(s, pat, j)
    ensures OccursAt(s[1..], pat, i - 1)
    ensures forall j: nat :: j < i - 1 ==> !OccursAt(s[1..], pat, j)
  {
    assert s[1..][i - 1..i - 1 + |pat|] == s[i..i + |pat|];
    forall j: nat | j < i - 1 ensures !OccursAt(s[1..], pat, j) {
      if OccursAt(s[1..], pat, j) {
        ShiftOccurrence(s, pat, j);
      }
    }
  }

  /** Regrouping for the inductive step of `ReplaceFirstAt`. */
  lemma ConsSplit(s: string, i: nat, n: nat, rep: string)
    requires 0 < i && i + n <= |s|
    ensures [s[0]] + (s[1..][..i - 1] + rep + s[1..][i - 1 + n..]) == s[..i] + rep + s[i + n..]
  {
    assert s[1..][..i - 1] == s[1..i];
    assert s[1..][i - 1 + n..] == s[i + n..];
    assert [s[0]] + s[1..i] == s[..i];
  }

  /** A prefix in which no occurrence of `pat` starts is kept as it is. */
  lemma {:induction false} ReplaceFirstKeepsPrefix(p: string, u: string, pat: string, rep: string)
    requires |pat| > 0
    requires forall j: nat :: j < |p| ==> !OccursAt(p + u, pat, j)
    ensures ReplaceFirst(p + u, pat, rep) == p + ReplaceFirst(u, pat, rep)
    decreases |p|
  {
    if p != [] {
      var s := p + u;
      assert !OccursAt(s, pat, 0);
      assert s[1..] == p[1..] + u;
      forall j: nat | j < |p| - 1 ensures !OccursAt(p[1..] + u, pat, j) {
        if OccursAt(p[1..] + u, pat, j) {
          ShiftOccurrence(s, pat, j);
        }
      }
      ReplaceFirstKeepsPrefix(p[1..], u, pat, rep);
      assert [p[0]] + p[1..] == p;
    } else {
      assert p + u == u;
    }
  }

  /** `strings.Join`. */
  function Join(fields: seq<string>, sep: string): string {
    if |fields| == 0 then ""
    else if |fields| == 1 then fields[0]
    else fields[0] + sep + Join(fields[1..], sep)
  }

  /** `strings.Split` for a one-character separator. */
  function Split(s: string, c: char): (parts: seq<string>)
    ensures |parts| >= 1
    decreases |s|
  {
    if s == [] then [""]
    else
      var rest := Split(s[1..], c);
      if s[0] == c then [""] + rest
      else [[s[0]] + rest[0]] + rest[1..]
  }

  lemma {:induction false} SplitWithout(a: string, c: char)
    requires c !in a
    ensures Split(a, c) == [a]
    decreases |a|
  {
    if a != [] {
      SplitWithout(a[1..], c);
      assert [a[0]] + a[1..] == a;
    }
  }

  lemma {:induction false} SplitAtFirst(a: string, c: char, b: string)
    requires c !in a
    ensures Split(a + [c] + b, c) == [a] + Split(b, c)
    decreases |a|
  {
    var s := a + [c] + b;
    if a == [] {
      assert s[0] == c && s[1..] == b;
    } else {
      assert s[0] == a[0] && s[1..] == a[1..] + [c] + b;
      SplitAtFirst(a[1..], c, b);
      assert [a[0]] + a[1..] == a;
    }
  }

  /** How often `c` occurs in `s`. */
  function CountChar(s: string, c: char): nat
    decreases |s|
  {
    if s == [] then 0 else (if s[0] == c then 1 else 0) + CountChar(s[1..], c)
  }

  lemma {:induction false} CountCharAppend(a: string, b: string, c: char)
    ensures CountChar(a + b, c) == CountChar(a, c) + CountChar(b, c)
    decreases |a|
  {
    if a == [] {
      assert a + b == b;
    } else {
      assert (a + b)[0] == a[0] && (a + b)[1..] == a[1..] + b;
      CountCharAppend(a[1..], b, c);
    }
  }

  /** A string without `c` counts none. */
  lemma {:induction false} CountCharAbsent(s: string, c: char)
    ensures CountChar(s, c) == 0 <==> c !in s
    decreases |s|
  {
    if s != [] {
      CountCharAbsent(s[1..], c);
      assert s == [s[0]] + s[1..];
    }
  }

  /** Splitting gives one part more than there are separators. */
  lemma {:induction false} SplitCount(s: string, c: char)
    ensures |Split(s, c)| == 1 + CountChar(s, c)
    decreases |s|
  {
    if s != [] {
      SplitCount(s[1..], c);
    }
  }

  /** No part of a split holds the separator. */
  lemma {:induction false} SplitPartsWithout(s: string, c: char)
    ensures forall k :: 0 <= k < |Split(s, c)| ==> c !in Split(s, c)[k]
    decreases |s|
  {
    if s != [] {
      SplitPartsWithout(s[1..], c);
      var rest := Split(s[1..], c);
      if s[0] != c {
        assert c !in [s[0]] + rest[0];
      }
    }
  }

  /** How often `c` occurs in all the fields together. */
  function CountInFields(fields: seq<string>, c: char): nat
    decreases |fields|
  {
    if fields == [] then 0 else CountChar(fields[0], c) + CountInFields(fields[1..], c)
  }

  /** Joining adds one separator between each pair of neighbouring fields. */
  lemma {:induction false} JoinCount(fields: seq<string>, c: char)
    requires |fields| >= 1
    ensures CountChar(Join(fields, [c]), c) == |fields| - 1 + CountInFields(fields, c)
    decreases |fields|
  {
    if |fields| > 1 {
      JoinCount(fields[1..], c);
      CountCharAppend(fields[0] + [c], Join(fields[1..], [c]), c);
      CountCharAppend(fields[0], [c], c);
    }
  }

  /** Fields that hold no `c` count none together, and conversely. */
  lemma {:induction false} CountInFieldsAbsent(fields: seq<string>, c: char)
    ensures CountInFields(fields, c) == 0 <==> forall k :: 0 <= k < |fields| ==> c !in fields[k]
    decreases |fields|
  {
    if fields != [] {
      CountInFieldsAbsent(fields[1..], c);
      CountCharAbsent(fields[0], c);
      if forall k :: 0 <= k < |fields| - 1 ==> c !in fields[1..][k] {
        assert forall k :: 1 <= k < |fields| ==> c !in fields[k] by {
          forall k | 1 <= k < |fields| ensures c !in fields[k] {
            assert fields[k] == fields[1..][k - 1];
          }
        }
      }
    }
  }

  /** Splitting a joined list gives the list back when no field holds the separator. */
  lemma {:induction false} SplitJoin(fields: seq<string>, c: char)
    requires |fields| >= 1
    requires forall k :: 0 <= k < |fields| ==> c !in fields[k]
    ensures Split(Join(fields, [c]), c) == fields
    decreases |fields|
  {
    if |fields| == 1 {
      SplitWithout(fields[0], c);
    } else {
      SplitAtFirst(fields[0], c, Join(fields[1..], [c]));
      SplitJoin(fields[1..], c);
      assert [fields[0]] + fields[1..] == fields;
    }
  }

  /**
   * Splitting a joined list gives the list back exactly when no field holds
   * the separator; otherwise it gives one part more per separator inside a
   * field.
   */
  lemma SplitJoinExactly(fields: seq<string>, c: char)
    requires |fields| >= 1
    ensures Split(Join(fields, [c]), c) == fields <==> forall k :: 0 <= k < |fields| ==> c !in fields[k]
    ensures |Split(Join(fields, [c]), c)| == |fields| + CountInFields(fields, c)
  {
    SplitCount(Join(fields, [c]), c);
    JoinCount(fields, c);
    SplitPartsWithout(Join(fields, [c]), c);
    if forall k :: 0 <= k < |fields| ==> c !in fields[k] {
      SplitJoin(fields, c);
    }
  }

  predicate IsDigit(ch: char) {
    '0' <= ch <= '9'
  }

  function DigitValue(ch: char): nat
    requires IsDigit(ch)
  {
    ch as int - '0' as int
  }

  function DigitChar(d: nat): char
    requires d < 16
  {
    if d < 10 then ('0' as int + d) as char else ('a' as int + d - 10) as char
  }

  /** `strconv.FormatUint(n, base)`: digits without leading zeros, lower-case letters. */
  function Digits(n: nat, base: nat): (s: string)
    requires 2 <= base <= 16
    ensures |s| >= 1
    decreases n
  {
    if n < base then [DigitChar(n)] else Digits(n / base, base) + [DigitChar(n % base)]
  }

  /** `strconv.Itoa`, the `%d` verb. */
  function IntString(n: int): string {
    if n < 0 then "-" + Digits(-n, 10) else Digits(n, 10)
  }

  /** The `%x` verb on an unsigned value. */
  function HexString(n: nat): string {
    Digits(n, 16)
  }

  /** The value of one digit character, the inverse of `DigitChar`. */
  function CharValue(ch: char): int {
    if '0' <= ch <= '9' then ch as int - '0' as int else ch as int - 'a' as int + 10
  }

  /** The number a digit string denotes in `base`, read most significant digit first. */
  function DigitsValue(s: string, base: nat): int {
    if s == [] then 0 else DigitsValue(s[..|s| - 1], base) * base + CharValue(s[|s| - 1])
  }

  lemma CharValueOfDigitChar(d: nat)
    requires d < 16
    ensures CharValue(DigitChar(d)) == d
  {
  }

  lemma DigitsValueSnoc(s: string, ch: char, base: nat)
    ensures DigitsValue(s + [ch], base) == DigitsValue(s, base) * base + CharValue(ch)
  {
    assert (s + [ch])[..|s|] == s;
  }

  /** Euclidean division by a base of at least 2. */
  lemma DivStep(n: nat, base: nat)
    requires 2 <= base <= n
    ensures n / base < n && n % base < base && (n / base) * base + n % base == n
  {
  }

  /** Formatted digits read back give the number. */
  lemma {:induction false} DigitsValueOfDigits(n: nat, base: nat)
    requires 2 <= base <= 16
    ensures DigitsValue(Digits(n, base), base) == n
    decreases n
  {
    if n < base {
      CharValueOfDigitChar(n);
    } else {
      DivStep(n, base);
      var q, r := n / base, n % base;
      assert Digits(n, base) == Digits(q, base) + [DigitChar(r)];
      DigitsValueOfDigits(q, base);
      CharValueOfDigitChar(r);
      DigitsValueSnoc(Digits(q, base), DigitChar(r), base);
    }
  }

  /** Distinct numbers are formatted differently, in any base. */
  lemma DigitsInjective(n: nat, m: nat, base: nat)
    requires 2 <= base <= 16 && Digits(n, base) == Digits(m, base)
    ensures n == m
  {
    DigitsValueOfDigits(n, base);
    DigitsValueOfDigits(m, base);
  }

  /** Equal strings with a common prefix have equal remainders. */
  lemma StripPrefix(p: string, x: string, y: string)
    requires p + x == p + y
    ensures x == y
  {
    assert (p + x)[|p|..] == x && (p + y)[|p|..] == y;
  }

  /** The largest value `strconv.ParseUint(s, 10, 32)` accepts: `1<<32 - 1`. */
  const MAX_UINT32: nat := 0xFFFF_FFFF

  /** Outcome of `strconv.ParseUint(s, 10, 32)`. */
  datatype UintScan = Parsed(value: nat) | SyntaxError | RangeError

  /**
   * The digit loop of `strconv.ParseUint` with bit size 32: characters are
   * read left to right and the first problem met decides the error, a
   * non-digit or a value past `MAX_UINT32`. (Go's earlier test against the
   * 64-bit cutoff cannot fire below `MAX_UINT32` and is left out.)
   */
  function ScanDigits(s: string, acc: nat): UintScan
    decreases |s|
  {
    if s == [] then Parsed(acc)
    else if !IsDigit(s[0]) then SyntaxError
    else
      var next := acc * 10 + DigitValue(s[0]);
      if next > MAX_UINT32 then RangeError else ScanDigits(s[1..], next)
  }

  function ParseUint(s: string): UintScan {
    if s == [] then SyntaxError else ScanDigits(s, 0)
  }

  const MIN_INT32: int := -0x8000_0000
  const MAX_INT32: int := 0x7FFF_FFFF

  /**
   * The value `strconv.ParseInt(s, 10, 32)` returns when its error is
   * discarded: 0 on a syntax error, the nearest 32-bit bound on a range
   * error, the number otherwise.
   */
  function ParseInt32(s: string): (n: int)
    ensures MIN_INT32 <= n <= MAX_INT32
  {
    if s == [] then 0
    else
      var neg := s[0] == '-';
      var body := if s[0] == '+' || s[0] == '-' then s[1..] else s;
      match ParseUint(body)
      case SyntaxError => 0
      case RangeError => if neg then MIN_INT32 else MAX_INT32
      case Parsed(un) =>
        if !neg && un > MAX_INT32 then MAX_INT32
        else if neg && un > -MIN_INT32 then MIN_INT32
        else if neg then -(un as int) else un
  }

  predicate AllDigits(s: string) {
    forall k :: 0 <= k < |s| ==> IsDigit(s[k])
  }

  /** The accumulator of the digit loop after reading all of `p`, ignoring the bound. */
  function FoldDigits(p: string, acc: nat): (v: nat)
    requires AllDigits(p)
    ensures v >= acc
    decreases |p|
  {
    if p == [] then acc else FoldDigits(p[1..], acc * 10 + DigitValue(p[0]))
  }

  /**
   * Reading a run of digits `p` and then `u`: the loop stops with a range
   * error exactly when the value of the run passes `MAX_UINT32`, and
   * otherwise goes on into `u` with that value.
   */
  lemma {:induction false} ScanDigitsPrefix(p: string, u: string, acc: nat)
    requires AllDigits(p) && acc <= MAX_UINT32
    ensures ScanDigits(p + u, acc) ==
      if FoldDigits(p, acc) > MAX_UINT32 then RangeError else ScanDigits(u, FoldDigits(p, acc))
    decreases |p|
  {
    if p == [] {
      assert p + u == u;
    } else {
      var next := acc * 10 + DigitValue(p[0]);
      assert (p + u)[0] == p[0] && (p + u)[1..] == p[1..] + u;
      if next <= MAX_UINT32 {
        ScanDigitsPrefix(p[1..], u, next);
      }
    }
  }

  lemma {:induction false} FoldDigitsSnoc(p: string, d: char, acc: nat)
    requires AllDigits(p) && IsDigit(d)
    ensures AllDigits(p + [d])
    ensures FoldDigits(p + [d], acc) == FoldDigits(p, acc) * 10 + DigitValue(d)
    decreases |p|
  {
    if p == [] {
      assert p + [d] == [d];
    } else {
      assert (p + [d])[0] == p[0] && (p + [d])[1..] == p[1..] + [d];
      FoldDigitsSnoc(p[1..], d, acc * 10 + DigitValue(p[0]));
    }
  }

  /** The loop's accumulator from 0 is the number the digits denote. */
  lemma {:induction false} FoldDigitsValue(p: string)
    requires AllDigits(p)
    ensures FoldDigits(p, 0) == DigitsValue(p, 10)
    decreases |p|
  {
    if p != [] {
      var q, d := p[..|p| - 1], p[|p| - 1];
      assert p == q + [d];
      FoldDigitsValue(q);
      FoldDigitsSnoc(q, d, 0);
    }
  }

  /**
   * `strconv.ParseInt(s, 10, 32)` with its error discarded, on every input
   * written as an optional sign, a run of digits and a rest that does not
   * start with a digit: a run past `MAX_UINT32` clamps to the bound of its
   * sign even when a bad character follows; otherwise any stray character or
   * an empty run gives 0; a valid number is clamped to the 32-bit range.
   */
  lemma ParseInt32Cases(sign: string, digits: string, rest: string)
    requires sign in {"", "+", "-"} && AllDigits(digits) && (rest == [] || !IsDigit(rest[0]))
    requires sign == "" && digits == [] && rest != [] ==> rest[0] != '+' && rest[0] != '-'
    ensures var v := DigitsValue(digits, 10);
      ParseInt32(sign + digits + rest) ==
        if v > MAX_UINT32 then (if sign == "-" then MIN_INT32 else MAX_INT32)
        else if digits == [] || rest != [] then 0
        else if sign == "-" then (if v > -MIN_INT32 then MIN_INT32 else -v)
        else if v > MAX_INT32 then MAX_INT32
        else v
  {
    var s := sign + digits + rest;
    var body := digits + rest;
    FoldDigitsValue(digits);
    ScanDigitsPrefix(digits, rest, 0);
    if sign == "" {
      assert s == body;
      if digits != [] {
        assert s[0] == digits[0];
      }
    } else {
      assert s[0] == sign[0] && s[1..] == body;
    }
  }

  lemma DigitsAreDecimal(n: nat)
    ensures AllDigits(Digits(n, 10))
    decreases n
  {
    if n >= 10 {
      DigitsAreDecimal(n / 10);
    }
  }

  /** Decimal digits of `n` read back by the digit loop give `n`. */
  lemma ScanDigitsOfDecimal(n: nat)
    requires n <= MAX_UINT32
    ensures ScanDigits(Digits(n, 10), 0) == Parsed(n)
  {
    var s := Digits(n, 10);
    DigitsAreDecimal(n);
    ScanDigitsPrefix(s, [], 0);
    assert s + [] == s;
    FoldDigitsValue(s);
    DigitsValueOfDigits(n, 10);
  }

  /** `strconv.ParseInt(strconv.Itoa(n), 10, 32)` gives back every 32-bit `n`. */
  lemma ParseIntString(n: int)
    requires MIN_INT32 <= n <= MAX_INT32
    ensures ParseInt32(IntString(n)) == n
  {
    if n < 0 {
      ScanDigitsOfDecimal(-n);
      var s := IntString(n);
      assert s[0] == '-' && s[1..] == Digits(-n, 10);
    } else {
      ScanDigitsOfDecimal(n);
      var s := Digits(n, 10);
      assert s[0] != '+' && s[0] != '-';
    }
  }

  /** ASCII lower-casing, as `strings.ToLower` does on ASCII input. */
  function ToLowerAscii(s: string): (r: string)
    ensures |r| == |s|
    ensures forall k :: 0 <= k < |s| && !('A' <= s[k] <= 'Z') ==> r[k] == s[k]
    ensures forall k :: 0 <= k < |s| && 'A' <= s[k] <= 'Z' ==> r[k] == (s[k] as int + 32) as char && 'a' <= r[k] <= 'z'
    ensures forall k :: 0 <= k < |r| ==> !('A' <= r[k] <= 'Z')
  {
    seq(|s|, k requires 0 <= k < |s| => if 'A' <= s[k] <= 'Z' then (s[k] as int + 32) as char else s[k])
  }
}
