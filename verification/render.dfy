/**
 * The renderers of lib/checkssl/checkssl.go: the summary line, the CSV row
 * and its header, the multi-line text report and the lookup tables it uses.
 *
 * Colour is an explicit `colorEnabled` argument: `TerminalColors` gives the
 * four escape strings that `setTerminalColor` would have stored in package
 * variables. Floating-point day counts (`%.1f`) and `time.Format` are
 * formatter arguments.
 */
module Render {
  import opened GoText
  import opened Tolerance
  import opened Report

  const ESC: char := '\U{1B}'

  /** The four terminal colour strings; all empty when colour is off. */
  datatype Palette = Palette(noColor: string, red: string, yellow: string, green: string)

  /** `setTerminalColor(enable)`, as a value instead of package state. */
  function TerminalColors(enable: bool): (pal: Palette)
    ensures !enable ==> pal == Palette("", "", "", "")
    ensures enable ==> pal.noColor != "" && pal.red != "" && pal.yellow != "" && pal.green != ""
    ensures enable ==> pal.red != pal.green && pal.red != pal.yellow && pal.yellow != pal.green
  {
    if enable then
      var red, yellow, green := [ESC] + "[31m", [ESC] + "[0;33m", [ESC] + "[0;32m";
      assert |red| != |yellow| && |red| != |green| && yellow[5] != green[5];
      Palette([ESC] + "[0m", red, yellow, green)
    else Palette("", "", "", "")
  }

  /** A palette string never starts with a letter or a space. */
  lemma PaletteStartsWithEscape(enable: bool, s: string)
    requires s in {TerminalColors(enable).noColor, TerminalColors(enable).red,
                   TerminalColors(enable).yellow, TerminalColors(enable).green}
    ensures s == "" || s[0] == ESC
  {
  }

  /** `summaryLine`: the PASS or FAIL token, coloured, then the target. */
  function SummaryLine(a: CheckedServer, colorEnabled: bool): (line: string)
    ensures !colorEnabled ==> line == (if a.passed then "[PASS] " else "[FAIL] ") + a.target + "\n"
  {
    var pal := TerminalColors(colorEnabled);
    if a.passed then pal.green + "[PASS]" + pal.noColor + " " + a.target + "\n"
    else pal.red + "[FAIL]" + pal.noColor + " " + a.target + "\n"
  }

  /** The character after the colour and the bracket tells PASS and FAIL apart, with or without colour. */
  lemma SummaryLineVerdict(a: CheckedServer, colorEnabled: bool)
    ensures var pal := TerminalColors(colorEnabled);
      var line := SummaryLine(a, colorEnabled);
      var colour := if a.passed then pal.green else pal.red;
      |colour| + 1 < |line| && line[|colour| + 1] == (if a.passed then 'P' else 'F')
  {
    var pal := TerminalColors(colorEnabled);
    var colour := if a.passed then pal.green else pal.red;
    var token := if a.passed then "[PASS]" else "[FAIL]";
    var rest := pal.noColor + " " + a.target + "\n";
    assert SummaryLine(a, colorEnabled) == colour + token + pal.noColor + " " + a.target + "\n";
    AppendAssoc(colour + token, pal.noColor + " " + a.target, "\n");
    assert SummaryLine(a, colorEnabled) == (colour + token) + rest;
    assert (colour + token)[|colour| + 1] == token[1];
  }

  /** `AsShortString`: the summary line alone, ending in the target and a newline. */
  function AsShortString(a: CheckedServer, colorEnabled: bool): (line: string)
    ensures !colorEnabled ==> line == (if a.passed then "[PASS] " else "[FAIL] ") + a.target + "\n"
    ensures |a.target| + 1 <= |line| && line[|line| - |a.target| - 1..] == a.target + "\n"
  {
    var pal := TerminalColors(colorEnabled);
    var head := (if a.passed then pal.green + "[PASS]" else pal.red + "[FAIL]") + pal.noColor + " ";
    assert SummaryLine(a, colorEnabled) == head + (a.target + "\n");
    SummaryLine(a, colorEnabled)
  }

  const JSON := 0
  const CSV := 1
  const TEXT := 2
  const NONE := 3
  const SHORT := 4

  /** `OutputFormat.String`: the five named formats, "" for any other value. */
  function FormatName(f: int): (name: string)
    ensures name != "" <==> JSON <= f <= SHORT
  {
    match f
    case 0 => "JSON"
    case 1 => "CSV"
    case 2 => "TEXT"
    case 3 => "NONE"
    case 4 => "SHORT"
    case _ => ""
  }

  /** Distinct formats have distinct names. */
  lemma FormatNameInjective(f: int, g: int)
    requires JSON <= f <= SHORT && JSON <= g <= SHORT && f != g
    ensures FormatName(f) != FormatName(g)
  {
  }

  const CSV_COLUMNS: seq<string> := ["Target", "Result", "Days to Expire", "Duration", "Common Name", "CA Name", "Error"]

  /** `CsvHeaderRow`: the fixed header "Target,Result,Days to Expire,Duration,Common Name,CA Name,Error". */
  function CsvHeaderRow(): string {
    Join(CSV_COLUMNS, ",")
  }

  /** The header row splits into exactly the seven column names. */
  lemma CsvHeaderColumns()
    ensures Split(CsvHeaderRow(), ',') == CSV_COLUMNS && |CSV_COLUMNS| == 7
  {
    assert ',' !in "Target" && ',' !in "Result" && ',' !in "Days to Expire" && ',' !in "Duration";
    assert ',' !in "Common Name" && ',' !in "CA Name" && ',' !in "Error";
    SplitJoin(CSV_COLUMNS, ',');
  }

  /** `csvConvertResult`: 0 is PASS, EXPIRED is EXPIRED, every other code FAIL. */
  function CsvResult(code: int): (token: string)
    ensures token in {"PASS", "EXPIRED", "FAIL"}
    ensures token == "PASS" <==> code == RETURNCODE_PASS
    ensures token == "EXPIRED" <==> code == RETURNCODE_EXPIRED
  {
    if code == 0 then "PASS"
    else if code == RETURNCODE_EXPIRED then "EXPIRED"
    else "FAIL"
  }

  /**
   * `fmt.Sprintf("%.1f", d.Hours()/24)` for a duration `d` in nanoseconds:
   * floating-point formatting, left as an argument.
   */
  type DaysFormatter = int -> string

  /** `time.Format(dateLayout)`, left as an argument. */
  type DateFormatter = Time -> string

  /** `t.Sub(u)`: the difference, saturated to the range of `time.Duration`. */
  function Sub(t: Time, u: Time): (d: int)
    ensures MIN_DURATION <= d <= MAX_DURATION
    ensures MIN_DURATION <= t - u <= MAX_DURATION ==> d == t - u
    ensures t - u > MAX_DURATION ==> d == MAX_DURATION
    ensures t - u < MIN_DURATION ==> d == MIN_DURATION
  {
    if t - u > MAX_DURATION then MAX_DURATION
    else if t - u < MIN_DURATION then MIN_DURATION
    else t - u
  }

  /** `numberOfDays`: nothing for the zero time, otherwise the formatted days from now. */
  function NumberOfDays(input: Time, now: Time, fmtDays: DaysFormatter): (days: string)
    ensures input == ZERO_TIME ==> days == ""
    ensures input != ZERO_TIME ==> days == fmtDays(Sub(input, now))
  {
    if input == ZERO_TIME then "" else fmtDays(Sub(input, now))
  }

  /**
   * `durationDays`: the formatted length of a window. It is the day count
   * `numberOfDays` would show for the end if the clock read the start, except
   * that a zero end still gets a count here.
   */
  function DurationDays(before: Time, after: Time, fmtDays: DaysFormatter): (days: string)
    ensures MIN_DURATION <= after - before <= MAX_DURATION ==> days == fmtDays(after - before)
    ensures after != ZERO_TIME ==> days == NumberOfDays(after, before, fmtDays)
  {
    fmtDays(Sub(after, before))
  }

  /**
   * `displayDate`: the formatted date, then the day count in parentheses; the
   * zero time keeps the parentheses around an empty count.
   */
  function DisplayDate(input: Time, now: Time, fmtDate: DateFormatter, fmtDays: DaysFormatter): (text: string)
    ensures input == ZERO_TIME ==> text == fmtDate(input) + " ( days)"
    ensures input != ZERO_TIME ==> text == fmtDate(input) + " (" + fmtDays(Sub(input, now)) + " days)"
  {
    fmtDate(input) + " (" + NumberOfDays(input, now, fmtDays) + " days)"
  }

  /**
   * The `leastDays` value of `AsCsv`'s loop: it takes a certificate's expiry
   * when that is earlier than the one held, or when the one held is zero.
   */
  function LeastDays(certs: seq<CheckCert>): Time {
    if certs == [] then ZERO_TIME
    else
      var held := LeastDays(certs[..|certs| - 1]);
      var expiry := certs[|certs| - 1].validNotAfter;
      if held > expiry || held == ZERO_TIME then expiry else held
  }

  /**
   * For certificates whose expiry is after the zero time, the loop finds the
   * earliest expiry of the chain; an empty chain leaves the zero time.
   */
  lemma {:induction false} LeastDaysIsEarliest(certs: seq<CheckCert>)
    requires forall k :: 0 <= k < |certs| ==> certs[k].validNotAfter > ZERO_TIME
    ensures certs == [] ==> LeastDays(certs) == ZERO_TIME
    ensures certs != [] ==>
      (exists k :: 0 <= k < |certs| && LeastDays(certs) == certs[k].validNotAfter) &&
      forall k :: 0 <= k < |certs| ==> LeastDays(certs) <= certs[k].validNotAfter
    decreases |certs|
  {
    if certs != [] {
      var n := |certs| - 1;
      var front := certs[..n];
      LeastDaysIsEarliest(front);
      if front != [] {
        var k :| 0 <= k < |front| && LeastDays(front) == front[k].validNotAfter;
        assert certs[k] == front[k];
      }
      forall k | 0 <= k < |certs| ensures LeastDays(certs) <= certs[k].validNotAfter {
        if k < n { assert certs[k] == front[k]; }
      }
    }
  }

  /** The `caName` value of `AsCsv`'s loop: the name of the last CA certificate, or "". */
  function LastCaName(certs: seq<CheckCert>): string {
    if certs == [] then ""
    else if certs[|certs| - 1].isCertificateAuthority then certs[|certs| - 1].commonName
    else LastCaName(certs[..|certs| - 1])
  }

  predicate NoCa(certs: seq<CheckCert>) {
    forall k :: 0 <= k < |certs| ==> !certs[k].isCertificateAuthority
  }

  lemma NoCaSnoc(certs: seq<CheckCert>, cert: CheckCert)
    ensures NoCa(certs + [cert]) <==> NoCa(certs) && !cert.isCertificateAuthority
  {
    if NoCa(certs + [cert]) {
      forall k | 0 <= k < |certs| ensures !certs[k].isCertificateAuthority {
        assert (certs + [cert])[k] == certs[k];
      }
      assert (certs + [cert])[|certs|] == cert;
    }
  }

  /** The position of the last CA certificate, or -1 without one. */
  function LastCaIndex(certs: seq<CheckCert>): (k: int)
    ensures -1 <= k < |certs|
  {
    if certs == [] then -1
    else if certs[|certs| - 1].isCertificateAuthority then |certs| - 1
    else LastCaIndex(certs[..|certs| - 1])
  }

  /** There is a last CA certificate exactly when some certificate is a CA, and none after it is. */
  lemma {:induction false} LastCaIndexIsLast(certs: seq<CheckCert>)
    ensures var k := LastCaIndex(certs);
      (k == -1 <==> NoCa(certs)) &&
      (k >= 0 ==> certs[k].isCertificateAuthority && NoCa(certs[k + 1..]))
    decreases |certs|
  {
    if certs != [] {
      var n := |certs| - 1;
      var front := certs[..n];
      assert certs == front + [certs[n]];
      NoCaSnoc(front, certs[n]);
      if certs[n].isCertificateAuthority {
        assert certs[n + 1..] == [];
      } else {
        LastCaIndexIsLast(front);
        var k := LastCaIndex(front);
        if k >= 0 {
          assert certs[k + 1..] == front[k + 1..] + [certs[n]];
          NoCaSnoc(front[k + 1..], certs[n]);
          assert certs[k] == front[k];
        }
      }
    }
  }

  /** The CA column names the last CA certificate in chain order, and is empty without one. */
  lemma {:induction false} LastCaNameIsLastCa(certs: seq<CheckCert>)
    ensures var k := LastCaIndex(certs);
      LastCaName(certs) == if k == -1 then "" else certs[k].commonName
    decreases |certs|
  {
    if certs != [] {
      LastCaNameIsLastCa(certs[..|certs| - 1]);
    }
  }

  /**
   * The seven CSV fields: target, result token, days to the earliest expiry,
   * the first certificate's validity in days and name, the last CA's name,
   * and the error.
   */
  function CsvFields(a: CheckedServer, now: Time, fmtDays: DaysFormatter): (fields: seq<string>)
    ensures |fields| == |CSV_COLUMNS|
  {
    var duration := if a.certs == [] then "" else DurationDays(a.certs[0].validNotBefore, a.certs[0].validNotAfter, fmtDays);
    var commonName := if a.certs == [] then "" else a.certs[0].commonName;
    [a.target, CsvResult(a.exitCode), NumberOfDays(LeastDays(a.certs), now, fmtDays), duration, commonName, LastCaName(a.certs), a.err]
  }

  /** `AsCsv`: one pass over the certificates, then the fields joined with commas. */
  method AsCsv(a: CheckedServer, now: Time, fmtDays: DaysFormatter) returns (row: string)
    ensures row == Join(CsvFields(a, now, fmtDays), ",")
  {
    var leastDays := ZERO_TIME;
    var duration := "";
    var commonName := "";
    var caName := "";
    var i := 0;
    while i < |a.certs|
      invariant 0 <= i <= |a.certs|
      invariant leastDays == LeastDays(a.certs[..i])
      invariant caName == LastCaName(a.certs[..i])
      invariant commonName == (if i == 0 then "" else a.certs[0].commonName)
      invariant duration == (if i == 0 then "" else DurationDays(a.certs[0].validNotBefore, a.certs[0].validNotAfter, fmtDays))
    {
      var cert := a.certs[i];
      assert a.certs[..i + 1][..i] == a.certs[..i];
      if leastDays > cert.validNotAfter || leastDays == ZERO_TIME {
        leastDays := cert.validNotAfter;
      }
      if i == 0 {
        commonName := cert.commonName;
        duration := DurationDays(cert.validNotBefore, cert.validNotAfter, fmtDays);
      }
      if cert.isCertificateAuthority {
        caName := cert.commonName;
      }
      i := i + 1;
    }
    assert a.certs[..|a.certs|] == a.certs;
    row := Join([a.target, CsvResult(a.exitCode), NumberOfDays(leastDays, now, fmtDays), duration, commonName, caName, a.err], ",");
  }

  /**
   * The fields are joined without quoting: a row splits back into exactly
   * its fields, as many as the header's columns, only when no field holds a
   * comma; every comma inside a field adds a column.
   */
  lemma CsvRowMatchesHeader(a: CheckedServer, now: Time, fmtDays: DaysFormatter)
    ensures var fields := CsvFields(a, now, fmtDays);
      Split(Join(fields, ","), ',') == fields <==> forall k :: 0 <= k < |fields| ==> ',' !in fields[k]
    ensures var fields := CsvFields(a, now, fmtDays);
      |Split(Join(fields, ","), ',')| == |Split(CsvHeaderRow(), ',')| + CountInFields(fields, ',')
  {
    SplitJoinExactly(CsvFields(a, now, fmtDays), ',');
    CsvHeaderColumns();
  }

  /**
   * An error message with a comma, such as the x509 host-mismatch message
   * that lists several names, shifts the row out of line with the header:
   * one comma gives eight columns against seven.
   */
  lemma CsvCommaInError(now: Time, fmtDays: DaysFormatter)
    ensures |Split(Join(CsvFields(EmptyServer.(err := "a, b"), now, fmtDays), ","), ',')| == 8
    ensures |Split(CsvHeaderRow(), ',')| == 7
  {
    var fields := CsvFields(EmptyServer.(err := "a, b"), now, fmtDays);
    assert fields == ["", "PASS", "", "", "", "", "a, b"];
    OneCommaInFields();
    CsvRowMatchesHeader(EmptyServer.(err := "a, b"), now, fmtDays);
    CsvHeaderColumns();
  }

  /** The fields of that row hold one comma between them. */
  lemma OneCommaInFields()
    ensures CountInFields(["", "PASS", "", "", "", "", "a, b"], ',') == 1
  {
    var fields: seq<string> := ["", "PASS", "", "", "", "", "a, b"];
    assert CountChar("b", ',') == 0;
    assert CountChar(" b", ',') == 0;
    assert CountChar(", b", ',') == 1;
    assert CountChar("a, b", ',') == 1;
    assert CountChar("PASS", ',') == 0 by {
      CountCharAbsent("PASS", ',');
    }
    assert CountInFields(fields[6..], ',') == 1;
    assert CountInFields(fields[5..], ',') == 1;
    assert CountInFields(fields[4..], ',') == 1;
    assert CountInFields(fields[3..], ',') == 1;
    assert CountInFields(fields[2..], ',') == 1;
    assert CountInFields(fields[1..], ',') == 1;
  }

  /** The zero `CheckedServer` renders as ",PASS,,,,,": an empty target, PASS, and five empty fields. */
  lemma EmptyServerCsv(now: Time, fmtDays: DaysFormatter)
    ensures CsvFields(EmptyServer, now, fmtDays) == ["", "PASS", "", "", "", "", ""]
    ensures Join(CsvFields(EmptyServer, now, fmtDays), ",") == ",PASS,,,,,"
  {
    var fields := CsvFields(EmptyServer, now, fmtDays);
    assert fields == ["", "PASS", "", "", "", "", ""];
    assert Join(fields[5..], ",") == ",";
    assert Join(fields[4..], ",") == ",,";
    assert Join(fields[3..], ",") == ",,,";
    assert Join(fields[2..], ",") == ",,,,";
    assert Join(fields[1..], ",") == "PASS,,,,,";
  }

  const VERSION_SSL30 := 0x0300
  const VERSION_TLS10 := 0x0301
  const VERSION_TLS11 := 0x0302
  const VERSION_TLS12 := 0x0303
  const VERSION_TLS13 := 0x0304
  const KNOWN_TLS_VERSIONS: set<int> := {VERSION_SSL30, VERSION_TLS10, VERSION_TLS11, VERSION_TLS12, VERSION_TLS13}

  const UNKNOWN_TLS_VERSION := "unknown TLS version: "

  /**
   * `getTlsVersion`: a description with upgrade advice for the five known
   * versions (red below v1.2, yellow for v1.2, green for v1.3), otherwise the
   * number in decimal.
   */
  function TlsVersionName(version: Uint16, colorEnabled: bool): (name: string)
    ensures version !in KNOWN_TLS_VERSIONS ==> name == UNKNOWN_TLS_VERSION + IntString(version)
  {
    var pal := TerminalColors(colorEnabled);
    if version == VERSION_SSL30 then pal.red + "SSL v3.0 () - PLEASE UPGRADE to TLS v1.2" + pal.noColor
    else if version == VERSION_TLS10 then pal.red + "TLS v1.0 (released 1999) - PLEASE UPGRADE to TLS v1.2 or v1.3" + pal.noColor
    else if version == VERSION_TLS11 then pal.red + "TLS v1.1 (release 2006) - PLEASE UPGRADE to TLS v1.2 or v1.3" + pal.noColor
    else if version == VERSION_TLS12 then pal.yellow + "TLS v1.2 (released 2008) - Consider upgrading to TLS v1.3" + pal.noColor
    else if version == VERSION_TLS13 then pal.green + "TLS v1.3 (released 2018) - latest version" + pal.noColor
    else UNKNOWN_TLS_VERSION + IntString(version)
  }

  /** The fallback text names the version number unambiguously. */
  lemma UnknownTlsVersionIdentifies(v: Uint16, w: Uint16, colorEnabled: bool)
    requires v !in KNOWN_TLS_VERSIONS && w !in KNOWN_TLS_VERSIONS
    requires TlsVersionName(v, colorEnabled) == TlsVersionName(w, colorEnabled)
    ensures v == w
  {
    StripPrefix(UNKNOWN_TLS_VERSION, IntString(v), IntString(w));
    DigitsInjective(v, w, 10);
  }

  const TLS_RSA_WITH_AES_256_CBC_SHA := 0x0035
  const TLS_RSA_WITH_AES_128_GCM_SHA256 := 0x009c
  const TLS_RSA_WITH_AES_256_GCM_SHA384 := 0x009d
  const TLS_AES_128_GCM_SHA256 := 0x1301
  const TLS_AES_256_GCM_SHA384 := 0x1302
  const TLS_CHACHA20_POLY1305_SHA256 := 0x1303
  const TLS_ECDHE_ECDSA_WITH_AES_128_GCM_SHA256 := 0xc02b
  const TLS_ECDHE_ECDSA_WITH_AES_256_GCM_SHA384 := 0xc02c
  const TLS_ECDHE_RSA_WITH_AES_128_GCM_SHA256 := 0xc02f
  const TLS_ECDHE_RSA_WITH_CHACHA20_POLY1305 := 0xcca8
  const TLS_ECDHE_ECDSA_WITH_CHACHA20_POLY1305 := 0xcca9

  /** The suites `getMozillaRecommendedCipher` tests for, as the code lists them. */
  const MOZILLA_RECOMMENDED: set<int> := {
    TLS_ECDHE_ECDSA_WITH_AES_128_GCM_SHA256, TLS_RSA_WITH_AES_128_GCM_SHA256,
    TLS_ECDHE_ECDSA_WITH_AES_256_GCM_SHA384, TLS_RSA_WITH_AES_256_GCM_SHA384,
    TLS_ECDHE_ECDSA_WITH_CHACHA20_POLY1305, TLS_ECDHE_RSA_WITH_CHACHA20_POLY1305}

  /** `getMozillaRecommendedCipher`: a green note for the listed suites, nothing otherwise. */
  function MozillaRecommendedCipher(suite: Uint16, colorEnabled: bool): (note: string)
    ensures note != "" <==> suite in MOZILLA_RECOMMENDED
  {
    var pal := TerminalColors(colorEnabled);
    if suite in MOZILLA_RECOMMENDED then pal.green + " (Mozilla Recommended Cipher)" + pal.noColor else ""
  }

  const KNOWN_SUITES: set<int> := {
    TLS_AES_128_GCM_SHA256, TLS_AES_256_GCM_SHA384, TLS_ECDHE_ECDSA_WITH_AES_128_GCM_SHA256,
    TLS_RSA_WITH_AES_256_CBC_SHA, TLS_CHACHA20_POLY1305_SHA256, TLS_ECDHE_RSA_WITH_AES_128_GCM_SHA256}

  const UNKNOWN_TLS_ALGO := "unknown TLS algo: "

  /** `getTlsAlgo`: a description for six suites, otherwise the number in lower-case hex. */
  function TlsAlgoName(suite: Uint16): (name: string)
    ensures suite !in KNOWN_SUITES ==> name == UNKNOWN_TLS_ALGO + HexString(suite)
  {
    if suite == TLS_AES_128_GCM_SHA256 then "TLS_AES_128_GCM_SHA256 = TLS, message encrypted with AES128 GCM, hashes are SHA256"
    else if suite == TLS_AES_256_GCM_SHA384 then "TLS_AES_256_GCM_SHA384"
    else if suite == TLS_ECDHE_ECDSA_WITH_AES_128_GCM_SHA256 then "TLS_ECDHE_ECDSA_WITH_AES_128_GCM_SHA256 = TLS, key exchange is ECDHE, auth exchange is ECDSA, messages encrypted with AES128GCM, hashes are SHA256"
    else if suite == TLS_RSA_WITH_AES_256_CBC_SHA then "TLS_RSA_WITH_AES_256_CBC_SHA - !!! WEAK Cipher, please upgrade !!!"
    else if suite == TLS_CHACHA20_POLY1305_SHA256 then "TLS_CHACHA20_POLY1305_SHA256"
    else if suite == TLS_ECDHE_RSA_WITH_AES_128_GCM_SHA256 then "TLS_ECDHE_RSA_WITH_AES_128_GCM_SHA256"
    else UNKNOWN_TLS_ALGO + HexString(suite)
  }

  /** The hexadecimal fallback names the suite number unambiguously. */
  lemma UnknownTlsAlgoIdentifies(c: Uint16, d: Uint16)
    requires c !in KNOWN_SUITES && d !in KNOWN_SUITES && TlsAlgoName(c) == TlsAlgoName(d)
    ensures c == d
  {
    StripPrefix(UNKNOWN_TLS_ALGO, HexString(c), HexString(d));
    DigitsInjective(c, d, 16);
  }

  const KNOWN_PROTOCOLS: set<string> := {"h3", "h2", "http/1.1", "http/1"}

  const UNKNOWN_HTTP_VERSION := "unknown HTTPS version "

  /**
   * `getHttpVersion`: the protocol is matched case-insensitively; an unknown
   * one is echoed as given.
   */
  function HttpVersionName(proto: string, colorEnabled: bool): (name: string)
    ensures ToLowerAscii(proto) !in KNOWN_PROTOCOLS ==> name == UNKNOWN_HTTP_VERSION + proto
    ensures ToLowerAscii(proto) in KNOWN_PROTOCOLS ==> !(UNKNOWN_HTTP_VERSION <= name)
    ensures !colorEnabled && ToLowerAscii(proto) == "h3" ==> name == "HTTP/3"
    ensures !colorEnabled && ToLowerAscii(proto) == "h2" ==> name == "HTTP/2"
    ensures !colorEnabled && ToLowerAscii(proto) == "http/1.1" ==> name == "HTTP/1.1 (OLD)"
    ensures !colorEnabled && ToLowerAscii(proto) == "http/1" ==> name == "HTTP/1 (OLD)"
    ensures colorEnabled && ToLowerAscii(proto) == "h2" ==> TerminalColors(true).green <= name
    ensures colorEnabled && ToLowerAscii(proto) in {"http/1.1", "http/1"} ==> TerminalColors(true).red <= name
  {
    var pal := TerminalColors(colorEnabled);
    var lower := ToLowerAscii(proto);
    var name :=
      if lower == "h3" then "HTTP/3"
      else if lower == "h2" then pal.green + "HTTP/2" + pal.noColor
      else if lower == "http/1.1" then pal.red + "HTTP/1.1 (OLD)" + pal.noColor
      else if lower == "http/1" then pal.red + "HTTP/1 (OLD)" + pal.noColor
      else UNKNOWN_HTTP_VERSION + proto;
    assert lower in KNOWN_PROTOCOLS ==> name[0] != 'u' by {
      if lower in KNOWN_PROTOCOLS {
        if colorEnabled && lower != "h3" { assert name[0] == ESC; } else { assert name[0] == 'H'; }
      }
    }
    name
  }

  /** Protocols that differ only in letter case get the same description. */
  lemma HttpVersionIgnoresCase(p: string, q: string, colorEnabled: bool)
    requires ToLowerAscii(p) == ToLowerAscii(q) && ToLowerAscii(p) in KNOWN_PROTOCOLS
    ensures HttpVersionName(p, colorEnabled) == HttpVersionName(q, colorEnabled)
  {
  }

  const ATS := "ATS"
  const GWS := "gws"
  const ATS_EXPANDED := "Apache Traffic Server (ATS)"
  const GWS_EXPANDED := "Google Web Server (gws)"

  /** `expandServerNames`: the first "ATS" and then the first "gws" are spelled out. */
  function ExpandServerNames(input: string): string {
    ReplaceFirst(ReplaceFirst(input, ATS, ATS_EXPANDED), GWS, GWS_EXPANDED)
  }

  /** A string whose first character never appears is nowhere in `s`. */
  lemma AbsentWithoutFirstChar(s: string, sub: string)
    requires sub != [] && sub[0] !in s
    ensures !Contains(s, sub)
  {
    forall i: nat ensures !OccursAt(s, sub, i) {
      if i + |sub| <= |s| {
        assert s[i..i + |sub|][0] == s[i] && s[i] in s;
      }
    }
  }

  /** A banner with neither abbreviation is shown as it is. */
  lemma ExpandServerNamesPlain(input: string)
    requires !Contains(input, ATS) && !Contains(input, GWS)
    ensures ExpandServerNames(input) == input
  {
    ReplaceFirstAbsent(input, ATS, ATS_EXPANDED);
    ReplaceFirstAbsent(input, GWS, GWS_EXPANDED);
  }

  /** "ATS" on its own is spelled out. */
  lemma ExpandServerNamesAts()
    ensures ExpandServerNames(ATS) == ATS_EXPANDED
  {
    assert ReplaceFirst(ATS, ATS, ATS_EXPANDED) == ATS_EXPANDED;
    AbsentWithoutFirstChar(ATS_EXPANDED, GWS);
    ReplaceFirstAbsent(ATS_EXPANDED, GWS, GWS_EXPANDED);
  }

  /** "gws" on its own is spelled out. */
  lemma ExpandServerNamesGws()
    ensures ExpandServerNames(GWS) == GWS_EXPANDED
  {
    AbsentWithoutFirstChar(GWS, ATS);
    ReplaceFirstAbsent(GWS, ATS, ATS_EXPANDED);
    assert ReplaceFirst(GWS, GWS, GWS_EXPANDED) == GWS_EXPANDED;
  }

  /** Spelling out "ATS" cannot create a "gws": the expansion holds no 'g', and its 'A' cannot follow a "g" or "gw". */
  lemma NoGwsAfterAtsExpansion(s: string, i: nat)
    requires OccursAt(s, ATS, i) && !Contains(s, GWS)
    ensures !Contains(s[..i] + ATS_EXPANDED + s[i + |ATS|..], GWS)
  {
    var t := s[..i] + ATS_EXPANDED + s[i + |ATS|..];
    assert |t| == |s| + 24;
    forall k: nat | k + |GWS| <= |t| ensures !OccursAt(t, GWS, k) {
      if k + 3 <= i {
        assert t[k..k + 3] == s[k..k + 3];
        assert !OccursAt(s, GWS, k);
      } else if k >= i + |ATS_EXPANDED| {
        assert t[k..k + 3] == s[k - 24..k - 21];
        assert !OccursAt(s, GWS, k - 24);
      } else if k >= i {
        assert 'g' !in ATS_EXPANDED;
        assert t[k..k + 3][0] == ATS_EXPANDED[k - i];
      } else {
        assert t[i] == ATS_EXPANDED[0] == 'A';
        assert t[k..k + 3][i - k] == t[i];
      }
    }
  }

  /**
   * In a banner without "gws", the leftmost "ATS" is spelled out and nothing
   * else changes.
   */
  lemma ExpandServerNamesFirstAts(s: string, i: nat)
    requires OccursAt(s, ATS, i) && forall j: nat :: j < i ==> !OccursAt(s, ATS, j)
    requires !Contains(s, GWS)
    ensures ExpandServerNames(s) == s[..i] + ATS_EXPANDED + s[i + |ATS|..]
  {
    ReplaceFirstAt(s, ATS, ATS_EXPANDED, i);
    NoGwsAfterAtsExpansion(s, i);
    ReplaceFirstAbsent(s[..i] + ATS_EXPANDED + s[i + |ATS|..], GWS, GWS_EXPANDED);
  }

  /**
   * In a banner without "ATS", the leftmost "gws" is spelled out and nothing
   * else changes.
   */
  lemma ExpandServerNamesFirstGws(s: string, i: nat)
    requires !Contains(s, ATS)
    requires OccursAt(s, GWS, i) && forall j: nat :: j < i ==> !OccursAt(s, GWS, j)
    ensures ExpandServerNames(s) == s[..i] + GWS_EXPANDED + s[i + |GWS|..]
  {
    ReplaceFirstAbsent(s, ATS, ATS_EXPANDED);
    ReplaceFirstAt(s, GWS, GWS_EXPANDED, i);
  }

  /** "ATS" and "gws" share no character, so their occurrences never overlap. */
  lemma TokensApart(s: string, i: nat, j: nat)
    requires OccursAt(s, ATS, i) && OccursAt(s, GWS, j)
    ensures j + |GWS| <= i || i + |ATS| <= j
  {
    forall p | i <= p < i + 3 ensures s[p] in {'A', 'T', 'S'} {
      assert s[i..i + 3][p - i] == s[p];
    }
    forall p | j <= p < j + 3 ensures s[p] in {'g', 'w', 's'} {
      assert s[j..j + 3][p - j] == s[p];
    }
    var p := if i < j then j else i;
    var c := s[p];
  }

  /** An occurrence of "gws" once "ATS" at `i` is spelled out lies wholly before or wholly behind the expansion. */
  lemma GwsAfterAtsExpansion(s: string, i: nat, k: nat)
    requires OccursAt(s, ATS, i)
    ensures OccursAt(s[..i] + ATS_EXPANDED + s[i + |ATS|..], GWS, k) ==>
      (k + |GWS| <= i && OccursAt(s, GWS, k)) || (k >= i + |ATS_EXPANDED| && OccursAt(s, GWS, k - 24))
  {
    var t := s[..i] + ATS_EXPANDED + s[i + |ATS|..];
    if !OccursAt(t, GWS, k) {
      return;
    }
    assert |t| == |s| + 24;
    forall p | i <= p < i + |ATS_EXPANDED| ensures t[p] != 'g' {
      assert t[p] == ATS_EXPANDED[p - i];
    }
    assert t[i] == 'A';
    assert t[k] == 'g' && t[k + 1] == 'w' && t[k + 2] == 's' by {
      assert t[k..k + 3] == GWS;
    }
    assert k + 3 <= i || k >= i + |ATS_EXPANDED|;
    if k + 3 <= i {
      assert t[k..k + 3] == s[k..k + 3];
    } else {
      assert t[k..k + 3] == s[k - 24..k - 21];
    }
  }

  /** An occurrence of "gws" away from "ATS" at `i` survives the expansion, shifted when it stands behind. */
  lemma GwsBeforeAtsExpansion(s: string, i: nat, k: nat)
    requires OccursAt(s, ATS, i) && OccursAt(s, GWS, k)
    ensures k + |GWS| <= i ==> OccursAt(s[..i] + ATS_EXPANDED + s[i + |ATS|..], GWS, k)
    ensures k >= i + |ATS| ==> OccursAt(s[..i] + ATS_EXPANDED + s[i + |ATS|..], GWS, k + 24)
  {
    var t := s[..i] + ATS_EXPANDED + s[i + |ATS|..];
    if k + 3 <= i {
      assert t[k..k + 3] == s[k..k + 3];
    } else if k >= i + 3 {
      assert t[k + 24..k + 27] == s[k..k + 3];
    }
  }

  /**
   * A banner holding both names: the leftmost "ATS" and the leftmost "gws"
   * are each spelled out, in whichever order they stand, and the text
   * around and between them is kept.
   */
  lemma ExpandServerNamesBoth(s: string, i: nat, j: nat)
    requires OccursAt(s, ATS, i) && forall m: nat :: m < i ==> !OccursAt(s, ATS, m)
    requires OccursAt(s, GWS, j) && forall m: nat :: m < j ==> !OccursAt(s, GWS, m)
    ensures i != j
    ensures i < j ==> (i + |ATS| <= j &&
      ExpandServerNames(s) == s[..i] + ATS_EXPANDED + s[i + |ATS|..j] + GWS_EXPANDED + s[j + |GWS|..])
    ensures j < i ==> (j + |GWS| <= i &&
      ExpandServerNames(s) == s[..j] + GWS_EXPANDED + s[j + |GWS|..i] + ATS_EXPANDED + s[i + |ATS|..])
  {
    TokensApart(s, i, j);
    var t := s[..i] + ATS_EXPANDED + s[i + |ATS|..];
    ReplaceFirstAt(s, ATS, ATS_EXPANDED, i);
    var j' := if j < i then j else j + 24;
    GwsBeforeAtsExpansion(s, i, j);
    forall k: nat | k < j' ensures !OccursAt(t, GWS, k) {
      GwsAfterAtsExpansion(s, i, k);
    }
    ReplaceFirstAt(t, GWS, GWS_EXPANDED, j');
    if i < j {
      GwsBehindAts(s, i, j);
    } else {
      GwsBeforeAts(s, i, j);
    }
  }

  /** Spelling out "gws" behind the expanded "ATS", written in terms of the banner. */
  lemma GwsBehindAts(s: string, i: nat, j: nat)
    requires i + |ATS| <= j && j + |GWS| <= |s|
    ensures var t := s[..i] + ATS_EXPANDED + s[i + |ATS|..];
      t[..j + 24] + GWS_EXPANDED + t[j + 27..] == s[..i] + ATS_EXPANDED + s[i + |ATS|..j] + GWS_EXPANDED + s[j + |GWS|..]
  {
    var t := s[..i] + ATS_EXPANDED + s[i + |ATS|..];
    assert t[..j + 24] == s[..i] + ATS_EXPANDED + s[i + 3..j];
    assert t[j + 27..] == s[j + 3..];
  }

  /** Spelling out "gws" before the expanded "ATS", written in terms of the banner. */
  lemma GwsBeforeAts(s: string, i: nat, j: nat)
    requires j + |GWS| <= i && i + |ATS| <= |s|
    ensures var t := s[..i] + ATS_EXPANDED + s[i + |ATS|..];
      t[..j] + GWS_EXPANDED + t[j + 3..] == s[..j] + GWS_EXPANDED + s[j + |GWS|..i] + ATS_EXPANDED + s[i + |ATS|..]
  {
    var t := s[..i] + ATS_EXPANDED + s[i + |ATS|..];
    assert t[..j] == s[..j];
    assert t[j + 3..] == s[j + 3..i] + ATS_EXPANDED + s[i + 3..];
  }

  /** The identity and version lines at the top of the text report. */
  function TextHeader(a: CheckedServer, colorEnabled: bool): string {
    var identity := if a.serverName != "" && a.ipAddress != "" then "\n" + a.serverName + " => " + a.ipAddress + "\n" else "";
    if a.httpVersion != "" && a.tlsAlgorithm > 0 then
      identity
      + (if a.serverInfo == "" then " -> (no server name or versions found)\n" else " -> " + ExpandServerNames(a.serverInfo) + "\n")
      + (" -> " + HttpVersionName(a.httpVersion, colorEnabled) + " with " + TlsVersionName(a.tlsVersion, colorEnabled) + "\n")
      + (" -> " + TlsAlgoName(a.tlsAlgorithm) + " " + MozillaRecommendedCipher(a.tlsAlgorithm, colorEnabled) + "\n")
    else identity
  }

  /** The report line for the certificate at 0-based position `i`. */
  function CertLine(i: nat, cert: CheckCert, colorEnabled: bool, now: Time, fmtDate: DateFormatter, fmtDays: DaysFormatter): string {
    var pal := TerminalColors(colorEnabled);
    var number := if cert.isCertificateAuthority then " CA-" + IntString(i + 1) + ") " else " " + IntString(i + 1) + ") ";
    var date := DisplayDate(cert.validNotAfter, now, fmtDate, fmtDays);
    var body :=
      if cert.isInvalid then pal.red + cert.commonName + " expired on " + date + pal.noColor
      else cert.commonName + " expires on " + date;
    number + body + "\n"
  }

  /** The certificate lines, numbered from 1 in chain order. */
  function CertLines(certs: seq<CheckCert>, colorEnabled: bool, now: Time, fmtDate: DateFormatter, fmtDays: DaysFormatter): string {
    if certs == [] then ""
    else CertLines(certs[..|certs| - 1], colorEnabled, now, fmtDate, fmtDays) +
         CertLine(|certs| - 1, certs[|certs| - 1], colorEnabled, now, fmtDate, fmtDays)
  }

  lemma CertLinesSnoc(certs: seq<CheckCert>, i: nat, colorEnabled: bool, now: Time, fmtDate: DateFormatter, fmtDays: DaysFormatter)
    requires i < |certs|
    ensures CertLines(certs[..i + 1], colorEnabled, now, fmtDate, fmtDays) ==
      CertLines(certs[..i], colorEnabled, now, fmtDate, fmtDays) + CertLine(i, certs[i], colorEnabled, now, fmtDate, fmtDays)
  {
    assert certs[..i + 1][..i] == certs[..i];
  }

  lemma AppendAssoc(x: string, y: string, z: string)
    ensures x + y + z == x + (y + z)
  {
  }

  /** `AsString`: the header lines, one line per certificate, then the summary line. */
  method AsString(a: CheckedServer, colorEnabled: bool, now: Time, fmtDate: DateFormatter, fmtDays: DaysFormatter)
    returns (output: string)
    ensures output == TextHeader(a, colorEnabled) + CertLines(a.certs, colorEnabled, now, fmtDate, fmtDays) + SummaryLine(a, colorEnabled)
  {
    output := TextHeader(a, colorEnabled);
    var lines := WriteCertLines(a.certs, colorEnabled, now, fmtDate, fmtDays);
    output := output + lines;
    output := output + SummaryLine(a, colorEnabled);
  }

  /** The certificate loop of `AsString`. */
  method WriteCertLines(certs: seq<CheckCert>, colorEnabled: bool, now: Time, fmtDate: DateFormatter, fmtDays: DaysFormatter)
    returns (output: string)
    ensures output == CertLines(certs, colorEnabled, now, fmtDate, fmtDays)
  {
    output := "";
    var i := 0;
    while i < |certs|
      invariant 0 <= i <= |certs|
      invariant output == CertLines(certs[..i], colorEnabled, now, fmtDate, fmtDays)
    {
      CertLinesSnoc(certs, i, colorEnabled, now, fmtDate, fmtDays);
      output := output + CertLine(i, certs[i], colorEnabled, now, fmtDate, fmtDays);
      i := i + 1;
    }
    assert certs[..|certs|] == certs;
  }
}
