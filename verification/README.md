# checkssl in Dafny

A Dafny model of checkssl, a small Go command-line tool and library that checks the TLS certificate chain a web server presents. For every target it reports which certificates are or will soon be out of their validity window, and it exits with a code a shell script can test.

The model covers three parts of the repository:

- **`lib/checkssl/checkssl.go`, the library.**
  - The tolerance classifier, which gives one of four return codes per certificate.
  - Target normalisation and the single insecure retry of `CheckServer`.
  - The assembly of a `CheckedServer` from the chain a server presented.
  - The renderers: summary line, CSV row and header, the text report, and its lookup tables for TLS version, cipher suite, HTTP version and server banner.
- **`main.go`, the current command line.** It splits arguments from flags (`-days=N`, `-json`), checks every target and exits with the sum of the exit codes.
- **`checkssl.go`, the older single-file program.** It has its own three-rule classifier, the opposite normalisation order, and a global return code that only ever moves away from 0.

Modelling choices:

- **Time:** an integer count of nanoseconds since Go's zero `time.Time`. `t.After(u)` is `t > u`. Every clock reading is one explicit argument `now`.
- **Network:** an oracle. `Checker.Probe` says what one HEAD request to a URL observed (insecure or not, with a given dial timeout). `Legacy.HeadProbe` does the same for the older program.
- **Value types versus classes:**
  - The Go structs that are passed by value (`CheckedServer`, `CheckCert`) are datatypes.
  - `CheckSSL`, whose setters update it in place, is a class.
  - The package globals of the two programs (`returnCode`, `dateThreshold`, `daysThreshold`, `outputAsJson`) are the fields of the classes `Cli.Program` and `Legacy.LegacyProgram`.
- **Specification functions:** every loop is a method proved equal to a function defined by recursion. The properties the code promises are proved about those functions.

Files:

- `gotext.dfy` (module `Wrappers`, `GoText`): the Go library functions the core relies on: `strings.Replace(s, old, new, 1)`, `strings.Join`, splitting on a separator, `strconv.Itoa`, `%x`, `strconv.ParseInt(s, 10, 32)`, ASCII `strings.ToLower`
- `tolerance.dfy` (module `Tolerance`): time, return codes, the classifier
- `report.dfy` (module `Report`): `CheckedServer`, `CheckCert`
- `checker.dfy` (module `Checker`): normalisation, `CheckServer` as the function `Check` and the class `CheckSSL`
- `render.dfy` (module `Render`): colours, summary line, output formats, CSV, lookup tables, text report
- `flags.dfy` (module `Flags`): argument splitting and the `-days=` / `-json` flags shared by both programs
- `cli.dfy` (module `Cli`): `main.go`
- `legacy.dfy` (module `Legacy`): `checkssl.go`

Behaviours of the code that a user might not expect. All of them are modelled as written, except that the default-threshold item rests on the reading of `main.go`'s call to `CheckServer` that "## Left out" gives:

- **Rejected request:** a URL that `http.NewRequest` rejects leaves the result *passing*, with exit code 0 and the error recorded.
- **Missing TLS:** a response without TLS state fails (`Passed` false), but its exit code stays 0.
- **Exit code of a chain:** it is the code of the *last* invalid certificate in chain order, not the highest one.
- **Exit code of `main.go`:** it is the *sum* of the targets' exit codes, so it can exceed 5. `os.Exit` keeps only the low 8 bits of that sum on Unix-like systems. Sixty-four targets that are not yet valid add up to 256, and the process then exits with 0 although every check failed (`Cli.ExitStatusHidesFailures`).
- **CSV rows:** the fields are joined with commas and never quoted. An error message that holds a comma gives a row with more columns than the header (`Render.CsvCommaInError`). Go's own certificate errors hold commas, for instance the host-name mismatch message that lists several names.
- **Mozilla-recommended ciphers:** `getMozillaRecommendedCipher` tests `TLS_RSA_WITH_AES_128_GCM_SHA256` and `TLS_RSA_WITH_AES_256_GCM_SHA384`. The comment above it (lib/checkssl/checkssl.go:369-377) lists ECDHE and DHE suites instead. The model uses the suites the code tests.
- **Default threshold in `main.go`:** the help text (main.go:77) describes `-days=5` as failing a certificate within 5 days of renewal. Without `-days=`, the threshold `main.go` passes to `CheckServer` (main.go:27) is Go's zero time, not "now". The library defines no package-level `CheckServer`. Under the reading of that call given in "## Left out", every currently valid certificate is then classified THRESHOLDFAIL (`Cli.ZeroThresholdFailsValidChain`).
- **Failed request in `checkssl.go`:** the older program prints "[FAIL]" and the target, then exits at once with EXPIRED. The targets after it are never checked.

## Model

| member | source | states |
|---|---|---|
| Tolerance.Classify | lib/checkssl/checkssl.go:180-194 | the code is one of 0, 2, 3, 4; PASS exactly when the threshold lies strictly inside the validity window; THRESHOLDFAIL only when now lies inside it and the threshold differs from now; NOTVALIDYET exactly when neither the threshold nor now lies inside and the threshold is before both ends; EXPIRED exactly when neither lies inside and the threshold is not before both ends |
| Tolerance.ClassifyAtNow | lib/checkssl/checkssl.go:180-194 | with the threshold equal to now, THRESHOLDFAIL never occurs; a proper window gives NOTVALIDYET before its start and EXPIRED at its start or from its end on |
| Tolerance.ClassifyRenewSoon | lib/checkssl/checkssl.go:180-194 | THRESHOLDFAIL exactly when now lies strictly inside the validity window and the threshold does not, whether the threshold is past the end or at or before the start |
| Tolerance.ClassifyExamples | lib/checkssl/checkssl.go:180-194 | the four outcomes on windows a week either side of now |
| Checker.NormalizeTarget | lib/checkssl/checkssl.go:67-70 | every normalised target starts with "https://" |
| Checker.NormalizeKeepsHttps | lib/checkssl/checkssl.go:67-70 | a target starting with "https://" and holding no "http://" is unchanged |
| Checker.NormalizeBareHost | lib/checkssl/checkssl.go:67-70 | a target with neither scheme gets "https://" in front |
| Checker.NormalizeHttpScheme | lib/checkssl/checkssl.go:67-70 | "http://x" becomes "https://x" |
| Checker.NormalizeRewritesFirstHttp | lib/checkssl/checkssl.go:67-70 | only the leftmost "http://", wherever it is, is rewritten, and "https://" is added in front unless the rewritten string already starts with it |
| Checker.CommonNameOf | lib/checkssl/checkssl.go:155-158 | the reported name is never empty; it is the subject CN when that is non-empty and the placeholder for a missing common name otherwise |
| Checker.CertOf | lib/checkssl/checkssl.go:150-170 | the entry for one certificate copies CA flag and window and is invalid exactly when the threshold is outside the window |
| Checker.Codes | lib/checkssl/checkssl.go:164 | one classifier code per peer certificate, in order |
| Checker.Chain | lib/checkssl/checkssl.go:149-171 | one entry per peer certificate, in order |
| Checker.AllPassAppend | lib/checkssl/checkssl.go:165-169 | a sequence of codes has no failure exactly when neither part has one |
| Checker.LastFailingIndexIsLast | lib/checkssl/checkssl.go:165-169 | the index is -1 exactly when no code fails; otherwise that code fails and none after it does |
| Checker.LastFailureIsLastFailing | lib/checkssl/checkssl.go:165-168 | the overwritten `ExitCode` is the code of the last failing certificate, or its initial value when none fails |
| Checker.LastFailureAllPass | lib/checkssl/checkssl.go:165-168 | without a failing certificate the exit code keeps its initial value |
| Checker.LastFailureKeepsFailure | lib/checkssl/checkssl.go:165-168 | an exit code that starts non-zero stays non-zero |
| Checker.ServerInfo | lib/checkssl/checkssl.go:134-138 | the Server header, then " - " only when the banner so far is non-empty, then the x-powered-by header |
| Checker.Check | lib/checkssl/checkssl.go:66-178 | the reported target always starts with "https://" |
| Checker.CheckExitCode | lib/checkssl/checkssl.go:66-178 | every result carries one of the five return codes, and a passing one carries 0 |
| Checker.CheckRejectedRequest | lib/checkssl/checkssl.go:108-112 | a rejected request leaves the result passing with exit code 0, no certificates and the error recorded |
| Checker.CheckFailedRequest | lib/checkssl/checkssl.go:117-132 | a failed request always ends failed with RETURNCODE_ERROR, with the unwrapped error as message when there is one; without a retry, no certificates and the DNS error otherwise |
| Checker.CheckRetryKeepsChain | lib/checkssl/checkssl.go:119-131 | after a secure failure that was no timeout, the insecure attempt's chain is reported but the result still fails with RETURNCODE_ERROR |
| Checker.CodesAgreeWithChain | lib/checkssl/checkssl.go:164-169 | the codes all pass exactly when no reported entry is invalid |
| Checker.AssembleVerdict | lib/checkssl/checkssl.go:149-171 | the loop reports one entry per certificate in order, passes exactly when no entry is invalid, exits with 0 exactly when it passes, and otherwise with the code of the last invalid certificate |
| Checker.CheckChain | lib/checkssl/checkssl.go:134-171 | on a TLS response: the chain's entries, no error, the negotiated protocol, the server name from TLS or else the first certificate's name, and the verdict of `AssembleVerdict` |
| Checker.CheckMissingTls | lib/checkssl/checkssl.go:139-175 | a response without TLS fails with "Missing TLS Connection" but exit code 0, and keeps the response protocol |
| Checker.InsecureCheckProbesOnce | lib/checkssl/checkssl.go:117-124 | an insecure check depends on one request only: it never retries |
| Checker.SecureCheckProbesAtMostTwice | lib/checkssl/checkssl.go:117-124 | a secure check depends on at most the secure request and one insecure request |
| Checker.NoRetryUnlessFailedWithoutTimeout | lib/checkssl/checkssl.go:118-124 | after a response, a rejection or a timeout, no insecure request matters |
| Checker.AssembleStep | lib/checkssl/checkssl.go:149-171 | one loop iteration appends the certificate's entry, takes its code when it fails, clears the pass flag when it fails, and fills an empty server name from it |
| Checker.CheckSSL.constructor | lib/checkssl/checkssl.go:53-58 | the default 15-second timeout and a threshold of now |
| Checker.CheckSSL.SetTimeout | lib/checkssl/checkssl.go:59-61 | sets the timeout and nothing else |
| Checker.CheckSSL.SetThreshold | lib/checkssl/checkssl.go:62-64 | sets the threshold and nothing else |
| Checker.CheckSSL.CheckServer | lib/checkssl/checkssl.go:66-178 | the step-by-step method computes exactly `Check` under the object's timeout and threshold |
| Checker.CheckSSL.RecordResponse | lib/checkssl/checkssl.go:134-175 | the statements after a response compute exactly `Respond` |
| Checker.CheckSSL.RecordChain | lib/checkssl/checkssl.go:149-171 | the certificate loop computes exactly `Assemble`: appended entries, last failing code, pass flag, server-name fallback |
| Render.TerminalColors | lib/checkssl/checkssl.go:332-349 | all four strings are empty with colour off; with colour on all are non-empty and red, yellow and green differ |
| Render.PaletteStartsWithEscape | lib/checkssl/checkssl.go:337-348 | every colour string is empty or starts with ESC |
| Render.SummaryLine | lib/checkssl/checkssl.go:260-265 | without colour the line is "[PASS] " or "[FAIL] ", the target and a newline |
| Render.AsShortString | lib/checkssl/checkssl.go:254-258 | the short form is the summary line alone: without colour exactly "[PASS] " or "[FAIL] ", the target and a newline; with colour it still ends in the target and a newline |
| Render.SummaryLineVerdict | lib/checkssl/checkssl.go:260-265 | with or without colour, the character after the colour prefix and "[" is 'P' exactly for a passing result |
| Render.FormatName | lib/checkssl/checkssl.go:267-291 | the name is non-empty exactly for the five defined formats |
| Render.FormatNameInjective | lib/checkssl/checkssl.go:277-291 | distinct formats have distinct names |
| Render.CsvHeaderColumns | lib/checkssl/checkssl.go:301-303 | the header splits on commas into exactly the seven column names |
| Render.CsvResult | lib/checkssl/checkssl.go:323-330 | the token is PASS, EXPIRED or FAIL; PASS exactly for 0 and EXPIRED exactly for 2 |
| Render.Sub | lib/checkssl/checkssl.go:207-215 | the difference of two times, saturated to the `time.Duration` range |
| Render.NumberOfDays | lib/checkssl/checkssl.go:207-212 | the zero time gives ""; any other time gives the formatted days from now |
| Render.DurationDays | lib/checkssl/checkssl.go:213-215 | the window's length in the caller's day format, which is the count `numberOfDays` gives for the end with the clock at the start, unless the end is the zero time |
| Render.DisplayDate | lib/checkssl/checkssl.go:203-206 | the formatted date, then the day count in parentheses; the zero time keeps the parentheses around an empty count |
| Render.LeastDaysIsEarliest | lib/checkssl/checkssl.go:305-312 | for expiries after the zero time, the loop's value is the earliest expiry of the chain, and the zero time for an empty chain |
| Render.LastCaIndexIsLast | lib/checkssl/checkssl.go:317-319 | the index is -1 exactly when no certificate is a CA; otherwise that one is a CA and none after it is |
| Render.LastCaNameIsLastCa | lib/checkssl/checkssl.go:317-319 | the CA column is the name of the last CA certificate, or "" without one |
| Render.CsvFields | lib/checkssl/checkssl.go:321 | a row has as many fields as the header has columns |
| Render.AsCsv | lib/checkssl/checkssl.go:304-322 | the loop computes the seven fields of `CsvFields` and joins them with commas |
| Render.CsvRowMatchesHeader | lib/checkssl/checkssl.go:301-322 | a row splits back into exactly its fields if and only if no field holds a comma; in general it splits into as many columns as the header has plus one per comma in its fields |
| Render.CsvCommaInError | lib/checkssl/checkssl.go:321 | a result whose error text is "a, b" gives a row of 8 columns under a header of 7 |
| Render.EmptyServerCsv | lib/checkssl/checkssl.go:304-330 | the zero `CheckedServer` renders as ",PASS,,,,," |
| Render.TlsVersionName | lib/checkssl/checkssl.go:351-366 | an unknown version is shown as "unknown TLS version: " and its decimal number |
| Render.UnknownTlsVersionIdentifies | lib/checkssl/checkssl.go:365 | two unknown versions with the same text are the same version |
| Render.MozillaRecommendedCipher | lib/checkssl/checkssl.go:368-387 | the note is non-empty exactly for the six suites the code tests |
| Render.TlsAlgoName | lib/checkssl/checkssl.go:389-406 | an unknown suite is shown as "unknown TLS algo: " and its number in lower-case hex |
| Render.UnknownTlsAlgoIdentifies | lib/checkssl/checkssl.go:404 | two unknown suites with the same text are the same suite |
| Render.HttpVersionName | lib/checkssl/checkssl.go:408-422 | without colour, h3, h2, http/1.1 and http/1 give "HTTP/3", "HTTP/2", "HTTP/1.1 (OLD)" and "HTTP/1 (OLD)"; with colour, h2 starts in green and the two old versions start in red; an unknown protocol is echoed after "unknown HTTPS version "; a known one never gets that prefix |
| Render.HttpVersionIgnoresCase | lib/checkssl/checkssl.go:410 | two spellings of a known protocol (h3, h2, http/1.1, http/1) that differ only in letter case get the same text |
| Render.ExpandServerNamesPlain | lib/checkssl/checkssl.go:424-430 | a banner with neither "ATS" nor "gws" is unchanged |
| Render.ExpandServerNamesAts | lib/checkssl/checkssl.go:426 | "ATS" is spelled out as "Apache Traffic Server (ATS)" |
| Render.ExpandServerNamesGws | lib/checkssl/checkssl.go:427 | "gws" is spelled out as "Google Web Server (gws)" |
| Render.ExpandServerNamesFirstAts | lib/checkssl/checkssl.go:424-430 | in a banner without "gws", the leftmost "ATS" is replaced by "Apache Traffic Server (ATS)" and the rest is kept |
| Render.ExpandServerNamesFirstGws | lib/checkssl/checkssl.go:424-430 | in a banner without "ATS", the leftmost "gws" is replaced by "Google Web Server (gws)" and the rest is kept |
| Render.ExpandServerNamesBoth | lib/checkssl/checkssl.go:424-430 | in a banner holding both names, the leftmost "ATS" and the leftmost "gws" never overlap, each is spelled out in place, and the text around and between them is kept |
| Render.TokensApart | lib/checkssl/checkssl.go:426-427 | an "ATS" and a "gws" in the same banner never overlap |
| Render.GwsAfterAtsExpansion | lib/checkssl/checkssl.go:426-427 | every "gws" present once "ATS" is spelled out was already in the banner, wholly before the expansion or shifted behind it |
| Render.GwsBeforeAtsExpansion | lib/checkssl/checkssl.go:426-427 | every "gws" of the banner survives the expansion of "ATS", shifted when it stands behind it |
| Render.NoGwsAfterAtsExpansion | lib/checkssl/checkssl.go:426-427 | spelling out an "ATS" never creates a "gws" that the second replacement would then rewrite |
| Render.AsString | lib/checkssl/checkssl.go:217-252 | the report is the header lines, one line per certificate and the summary line |
| Render.WriteCertLines | lib/checkssl/checkssl.go:234-248 | the loop produces the numbered certificate lines in chain order |
| Flags.Arguments | main.go:44-47 | the arguments are the command line without the program name |
| Flags.NonFlags | main.go:48-63 | only arguments that are not flags are kept, and no more than were given |
| Flags.NonFlagsAppend | main.go:48-63 | filtering commutes with concatenation, so flags may be mixed in anywhere |
| Flags.NonFlagsKeeps | main.go:48-63 | every argument that is not a flag is kept |
| Flags.NonFlagsWithoutFlags | main.go:48-63 | a list without flags is kept whole and in order |
| Flags.TargetsMembership | main.go:44-63 | a string is a target exactly when it is not a flag and appears after the program name |
| Flags.DaysValue | main.go:50-51 | the parsed day count is a 32-bit integer |
| Flags.DaysValueOfFlag | main.go:50-51 | only the leading "-days=" is removed before parsing |
| Flags.DaysValueRoundTrip | main.go:50-51 | "-days=N" reads back N for every 32-bit N |
| Flags.DaysValueRangeBeforeSyntax | main.go:50-51 | a day count above the 32-bit unsigned range reads as the largest 32-bit integer even when other characters follow it |
| GoText.ParseInt32 | main.go:51 | the value of `strconv.ParseInt(s, 10, 32)` with the error dropped is a 32-bit integer |
| GoText.ParseIntString | main.go:51-54 | parsing the decimal text of a 32-bit integer gives it back |
| GoText.ScanDigitsOfDecimal | main.go:51 | the digit loop reads back any 32-bit unsigned value from its decimal text |
| GoText.ParseInt32Cases | main.go:51 | for a sign, a run of digits and a rest: a value past 2^32-1 saturates to the 32-bit bound of the sign, even when a non-digit follows; otherwise a missing or trailing non-digit gives 0; otherwise the value is clamped to the 32-bit range |
| GoText.DigitsValueOfDigits | lib/checkssl/checkssl.go:365 | the digits of a number in base 10 or 16 denote that number |
| GoText.DigitsInjective | lib/checkssl/checkssl.go:404 | different numbers have different digits |
| GoText.ReplaceFirstAt | lib/checkssl/checkssl.go:67 | replacing the first occurrence at its leftmost position keeps everything around it |
| GoText.ReplaceFirstAbsent | lib/checkssl/checkssl.go:426-427 | a string without the pattern is left unchanged |
| GoText.ReplaceFirstKeepsPrefix | checkssl.go:42-45 | a prefix in which the pattern does not start is kept |
| GoText.SplitJoin | lib/checkssl/checkssl.go:321 | joining fields without the separator and splitting again gives the fields back |
| GoText.SplitJoinExactly | lib/checkssl/checkssl.go:321 | splitting joined fields gives them back if and only if none holds the separator, and yields one extra part per separator inside a field |
| GoText.ToLowerAscii | lib/checkssl/checkssl.go:410 | lower-casing keeps the length and every character that is not an upper-case letter, turns each upper-case letter into its lower-case one, and leaves no upper-case letter |
| Flags.HoursDuration | main.go:54 | N hours within the `time.Duration` range become that duration; more overflow to 0 |
| Flags.DaysThresholdRoundTrip | main.go:49-56 | "-days=N" sets the threshold N days after now when N days fit in a `time.Duration`, and to now otherwise |
| Flags.DaysThresholdMalformed | main.go:50-55 | a value that does not start with a sign or digit counts as 0 days, so the threshold is now |
| Flags.LastDaysFlag | main.go:49-56 | the flag found is one of the arguments and is a "-days=" flag |
| Flags.LastDaysFlagAbsent | main.go:49-56 | there is no last "-days=" flag exactly when there is none at all |
| Flags.LastDaysFlagOverrides | main.go:49-56 | a "-days=" flag with no later one is the one that counts |
| Flags.ThresholdAfterDaysFlag | main.go:49-56 | with "-days=N" and no later "-days=" flag the threshold is now plus N days whatever came before; without one it keeps its value |
| Flags.FlagsSnoc | main.go:44-64 | what one more argument does to the targets, the last "-days=" flag, the threshold and the JSON switch |
| Cli.NoTargetsOnlyFlags | main.go:38-40 | help is shown exactly when every argument after the program name is a flag |
| Cli.ExitCodes | main.go:26-28 | one exit code per target, that of the target's check |
| Cli.SumZero | main.go:28 | codes that are never negative add up to 0 exactly when each is 0 |
| Cli.ExitSumZero | main.go:26-35 | the value passed to `os.Exit` is never negative, and is 0 exactly when every target's check exits with 0 |
| Cli.ExitStatus | main.go:35 | the status a parent process sees is the exit value modulo 256: between 0 and 255, equal to the value when that is below 256 |
| Cli.ExitStatusHidesFailures | main.go:26-35 | 64 targets that each exit with NOTVALIDYET all fail, yet their sum 256 gives status 0 |
| Cli.ZeroThresholdFailsValidChain | main.go:17-27 | without "-days=", a chain valid right now fails with THRESHOLDFAIL |
| Cli.CheckServer | main.go:27 | the per-target check is `Check` with the default timeout, a secure request and the flags' threshold |
| Cli.Program.constructor | main.go:16-18 | the globals start at 0, the zero time and false |
| Cli.Program.SeparateCommandLineArgumentsFromFlags | main.go:42-67 | the result is the targets in order; the threshold is set by the last "-days=" flag; JSON is on if it was on or some argument starts with "-json"; the return code is untouched |
| Cli.Program.ApplyFlag | main.go:49-59 | a "-days=" flag resets the threshold, a "-json" flag turns JSON on, nothing else changes |
| Cli.Program.Run | main.go:20-36 | the exit code is the return code: its old value plus the sum of the targets' exit codes under the threshold the flags set |
| Legacy.LegacyClassify | checkssl.go:134-144 | the code is 0, 2 or 3: THRESHOLDFAIL exactly when the threshold is after the end; EXPIRED exactly when it is not and the start is after now; PASS exactly when neither holds |
| Legacy.LegacyZeroThreshold | checkssl.go:134-137 | with the default zero threshold no certificate ending at or after it is THRESHOLDFAIL |
| Legacy.LegacyAcceptsCurrentPass | checkssl.go:134-144 | what the current classifier passes the older one passes once the certificate has started; a threshold equal to the end passes only in the older one |
| Legacy.LegacyNormalizeScheme | checkssl.go:42-45 | every normalised target starts with "https://" |
| Legacy.LegacyNormalizeHttp | checkssl.go:42-45 | "http://x" becomes "https://https://x", where the current code gives "https://x" |
| Legacy.LegacyNormalizeKeepsHttps | checkssl.go:42-45 | a target starting with "https://" and holding no "http://" is unchanged |
| Legacy.LegacyCodes | checkssl.go:58-75 | one older-classifier code per certificate of the verified chain |
| Legacy.LegacyStep | checkssl.go:29-82 | a failed request prints FAIL and ends the run with EXPIRED, leaving the return code as it was; a successful one prints the verdict of its return code and goes on from that code |
| Legacy.LegacyStatusKeepsFailure | checkssl.go:71-74 | once the return code is non-zero, the exit status is non-zero and every later verdict is FAIL |
| Legacy.LegacyFailureSticks | checkssl.go:71-82 | once a target prints FAIL every later one does, and the process does not exit with 0 |
| Legacy.LegacyProgram.constructor | checkssl.go:18-20 | the globals start at 0, 0 and the zero time |
| Legacy.LegacyProgram.SeparateCommandLineArgumentsFromFlags | checkssl.go:85-109 | the result is the targets in order; the day count and the threshold are set by the last "-days=" flag; the return code is untouched |
| Legacy.LegacyProgram.ApplyFlag | checkssl.go:93-100 | a "-days=" flag resets the day count and the threshold |
| Legacy.LegacyProgram.CheckSsl | checkssl.go:39-83 | a failed request prints FAIL and ends the process with EXPIRED; otherwise the return code becomes the code of the last failing certificate or keeps its value, and PASS is printed exactly when it is 0 |
| Legacy.LegacyProgram.Run | checkssl.go:23-33 | the exit status and the printed verdicts, including the FAIL of a request that ends the run, are those of `LegacyStatus` and `LegacyVerdicts` over the targets the flags leave; the day count is the last "-days=" flag's and the return code that of `LegacyReturnCode` |

## Left out

- **Networking.** `http.Transport`, `net.Dialer`, the `httptrace` callbacks, `client.Do` and `http.Head` are I/O. They are the probe oracles. The oracle reports the TLS state, the address and the DNS error that the callbacks would have recorded.
- **`isTimeout`.** It matches the text of Go error messages. It is the boolean `timedOut` of a failed probe.
- **`errors.Unwrap`.** It is an optional message carried by the failed probe.
- **`getAllDnsRecordsFor`.** DNS I/O plus printing.
- **`AsJson`.** It depends on `encoding/json` reflection.
- **Number and date formatting.** The `%.1f` day counts and `time.Format(dateLayout)` are floating-point and library formatting. They are the formatter arguments `DaysFormatter` and `DateFormatter`. Only the zero-time rule of `numberOfDays` and the saturation of `Sub` are modelled.
- **Terminal colours.** The package-level colour variables are replaced by the explicit `colorEnabled` argument and the `Palette` value.
- **Printing, `os.Exit` and help text.** `displayHelpText`, `fmt.Print*` of results and `outputServerInformation` are output only. The value passed to `os.Exit` is the returned status; `Cli.ExitStatus` gives the 8-bit status the parent process sees. In the older program, the `Exited` outcome stops the run.
- **Clock readings.** Each `time.Now()` is the single argument `now`. Go reads the clock once per "-days=" flag, up to twice per certificate in the classifier (lib/checkssl/checkssl.go:185) and again for every date it renders as a day count. The model takes all these readings to be the same instant.
- **`Time.Add` overflow.** The threshold is `now` plus the offset on unbounded integers. The offset is at most about 292 years, because `time.ParseDuration` refuses longer durations. Go saturates `Add` only where the seconds count of a `time.Time`, ±(2^63−1) seconds, runs out: about 292 billion years away.
- **Panics in the older program.** A response without TLS state or without a verified chain would panic in the older program. The oracle always gives its first verified chain.
- **`lambda/main.go`.** It is a thin adapter onto a cloud function runtime and is not part of this model.
- **Tests.** The test files, which call the network, are not part of this model.
- **`CheckServer(target, threshold)`.** `main.go` calls a package-level `CheckServer(target, threshold)` that the library does not define. `Cli.CheckServer` takes it to mean a `CheckSSL` with that threshold, the default timeout and a secure request.
- **Letter case.** `strings.ToLower` is modelled for ASCII letters only.
- Render.TlsVersionName: states only the fallback text; the five descriptions for known versions are in the definition, with no lemma about their wording.
- Render.TlsAlgoName: states only the fallback text; the six descriptions for known suites are in the definition, with no lemma about their wording.
- Render.AsString: relates the report to its parts. No lemma reads individual lines back out of the concatenated text.
