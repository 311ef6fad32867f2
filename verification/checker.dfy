/**
 * The verification orchestrator of lib/checkssl/checkssl.go: target
 * normalisation, the single insecure retry, and the assembly of a
 * `CheckedServer` from one certificate chain.
 *
 * The network (transport, dialer, trace callbacks and `client.Do`) is an
 * oracle `Probe`: given the URL, the insecure flag and the dial timeout it
 * says what one HEAD request observed.
 */
module Checker {
  import opened Wrappers
  import opened GoText
  import opened Tolerance
  import opened Report

  const DEFAULT_TIMEOUT_SEC := 15
  const HTTPS_SCHEME := "https://"
  const HTTP_SCHEME := "http://"
  const MISSING_COMMON_NAME := "(missing common name)"
  const MISSING_TLS := "Missing TLS Connection"

  /** What the code reads from one `x509.Certificate`. */
  datatype PeerCert = PeerCert(commonName: string, isCA: bool, notBefore: Time, notAfter: Time)

  /** What the code reads from a response's `tls.ConnectionState`. */
  datatype TlsState = TlsState(
    serverName: string,
    version: Uint16,
    cipherSuite: Uint16,
    negotiatedProtocol: string,
    peerCertificates: seq<PeerCert>)

  /**
   * One attempt at a HEAD request.
   * - RequestRejected: `http.NewRequest` refused the URL.
   * - RequestFailed: `client.Do` returned an error; `ipAddress` and `dnsError`
   *   are what the DNSDone/GotConn callbacks recorded before that, `timedOut`
   *   is `isTimeout(err)` and `unwrapped` is the message of `errors.Unwrap(err)`.
   * - Responded: the `Server` and `x-powered-by` headers, `response.Proto`, and
   *   the TLS state if the response carries one.
   */
  datatype ProbeOutcome =
    | RequestRejected(err: string)
    | RequestFailed(ipAddress: string, dnsError: Option<string>, timedOut: bool, unwrapped: Option<string>)
    | Responded(ipAddress: string, server: string, poweredBy: string, proto: string, tls: Option<TlsState>)

  /** The network: (url, insecure, timeoutSeconds) to what one request observed. */
  type Probe = (string, bool, int) -> ProbeOutcome

  /**
   * The first "http://" anywhere in the target becomes "https://", then
   * "https://" is put in front unless the string already starts with it.
   */
  function NormalizeTarget(target: string): (url: string)
    ensures HTTPS_SCHEME <= url
  {
    var t := ReplaceFirst(target, HTTP_SCHEME, HTTPS_SCHEME);
    if HTTPS_SCHEME <= t then t else HTTPS_SCHEME + t
  }

  /** No "http://" starts inside a leading "https://". */
  lemma HttpNotInsideHttpsScheme(u: string, j: nat)
    requires j < |HTTPS_SCHEME|
    ensures !OccursAt(HTTPS_SCHEME + u, HTTP_SCHEME, j)
  {
    var s := HTTPS_SCHEME + u;
    assert OccursAt(s, HTTP_SCHEME, j) ==> s[j..j + 7][0] == s[j] && s[j..j + 7][4] == s[j + 4];
    assert s[j] == HTTPS_SCHEME[j];
    if j == 0 {
      assert s[4] != ':';
    } else {
      assert s[j] != 'h';
    }
  }

  /** A target already in the "https://" form with no "http://" in it is left alone. */
  lemma NormalizeKeepsHttps(target: string)
    requires HTTPS_SCHEME <= target && !Contains(target, HTTP_SCHEME)
    ensures NormalizeTarget(target) == target
  {
    ReplaceFirstAbsent(target, HTTP_SCHEME, HTTPS_SCHEME);
  }

  /** A bare host gets the scheme put in front. */
  lemma NormalizeBareHost(target: string)
    requires !(HTTPS_SCHEME <= target) && !Contains(target, HTTP_SCHEME)
    ensures NormalizeTarget(target) == HTTPS_SCHEME + target
  {
    ReplaceFirstAbsent(target, HTTP_SCHEME, HTTPS_SCHEME);
  }

  /** An "http://" URL has its scheme rewritten. */
  lemma NormalizeHttpScheme(rest: string)
    ensures NormalizeTarget(HTTP_SCHEME + rest) == HTTPS_SCHEME + rest
  {
    var s := HTTP_SCHEME + rest;
    assert OccursAt(s, HTTP_SCHEME, 0) by { assert s[..7] == HTTP_SCHEME; }
    ReplaceFirstAt(s, HTTP_SCHEME, HTTPS_SCHEME, 0);
    assert s[7..] == rest;
  }

  /**
   * The first "http://" is rewritten wherever it stands, even in the path,
   * and the scheme is added in front when the result still lacks it.
   */
  lemma NormalizeRewritesFirstHttp(target: string, i: nat)
    requires OccursAt(target, HTTP_SCHEME, i)
    requires forall j: nat :: j < i ==> !OccursAt(target, HTTP_SCHEME, j)
    ensures var t := target[..i] + HTTPS_SCHEME + target[i + 7..];
      NormalizeTarget(target) == if HTTPS_SCHEME <= t then t else HTTPS_SCHEME + t
  {
    ReplaceFirstAt(target, HTTP_SCHEME, HTTPS_SCHEME, i);
  }

  /** The certificate's subject CN, or a fixed sentinel when it is empty. */
  function CommonNameOf(p: PeerCert): (cn: string)
    ensures cn != ""
    ensures p.commonName != "" ==> cn == p.commonName
    ensures p.commonName == "" ==> cn == MISSING_COMMON_NAME
  {
    if p.commonName == "" then MISSING_COMMON_NAME else p.commonName
  }

  /** The classifier's verdict on one certificate. */
  function CodeOf(p: PeerCert, threshold: Time, now: Time): int {
    Classify(threshold, p.notBefore, p.notAfter, now)
  }

  /** The `CheckCert` the loop builds for one peer certificate. */
  function CertOf(p: PeerCert, threshold: Time, now: Time): (c: CheckCert)
    ensures c.commonName == CommonNameOf(p) && c.isCertificateAuthority == p.isCA
    ensures c.validNotBefore == p.notBefore && c.validNotAfter == p.notAfter
    ensures c.isInvalid <==> !Within(threshold, p.notBefore, p.notAfter)
  {
    CheckCert(CommonNameOf(p), p.isCA, p.notBefore, p.notAfter, CodeOf(p, threshold, now) > RETURNCODE_PASS)
  }

  function Codes(peers: seq<PeerCert>, threshold: Time, now: Time): (codes: seq<int>)
    ensures |codes| == |peers|
    ensures forall k :: 0 <= k < |peers| ==> codes[k] == CodeOf(peers[k], threshold, now)
  {
    seq(|peers|, k requires 0 <= k < |peers| => CodeOf(peers[k], threshold, now))
  }

  /** One `CheckCert` per peer certificate, in the order the server sent them. */
  function Chain(peers: seq<PeerCert>, threshold: Time, now: Time): (certs: seq<CheckCert>)
    ensures |certs| == |peers|
    ensures forall k :: 0 <= k < |peers| ==> certs[k] == CertOf(peers[k], threshold, now)
  {
    seq(|peers|, k requires 0 <= k < |peers| => CertOf(peers[k], threshold, now))
  }

  /** No code is a failure (`newCode > RETURNCODE_PASS` never fired). */
  predicate AllPass(codes: seq<int>) {
    forall k :: 0 <= k < |codes| ==> codes[k] <= RETURNCODE_PASS
  }

  /**
   * What a field holding `init` contains after a loop that overwrites it
   * with every failing code in turn.
   */
  function LastFailure(codes: seq<int>, init: int): int {
    if codes == [] then init
    else if codes[|codes| - 1] > RETURNCODE_PASS then codes[|codes| - 1]
    else LastFailure(codes[..|codes| - 1], init)
  }

  /** A sequence passes exactly when its front passes and its last code passes. */
  lemma AllPassSnoc(codes: seq<int>)
    requires codes != []
    ensures AllPass(codes) <==> AllPass(codes[..|codes| - 1]) && codes[|codes| - 1] <= RETURNCODE_PASS
  {
    var n := |codes| - 1;
    if AllPass(codes[..n]) && codes[n] <= RETURNCODE_PASS {
      forall k | 0 <= k < |codes| ensures codes[k] <= RETURNCODE_PASS {
        if k < n { assert codes[k] == codes[..n][k]; }
      }
    }
  }

  lemma AllPassAppend(a: seq<int>, b: seq<int>)
    ensures AllPass(a + b) <==> AllPass(a) && AllPass(b)
  {
    if AllPass(a) && AllPass(b) {
      forall k | 0 <= k < |a + b| ensures (a + b)[k] <= RETURNCODE_PASS {
        if k >= |a| { assert (a + b)[k] == b[k - |a|]; }
      }
    }
    if AllPass(a + b) {
      forall k | 0 <= k < |a| ensures a[k] <= RETURNCODE_PASS {
        assert (a + b)[k] == a[k];
      }
      forall k | 0 <= k < |b| ensures b[k] <= RETURNCODE_PASS {
        assert (a + b)[|a| + k] == b[k];
      }
    }
  }

  /** The position of the last failing code, or -1 when every code passes. */
  function LastFailingIndex(codes: seq<int>): (k: int)
    ensures -1 <= k < |codes|
  {
    if codes == [] then -1
    else if codes[|codes| - 1] > RETURNCODE_PASS then |codes| - 1
    else LastFailingIndex(codes[..|codes| - 1])
  }

  /** There is a last failing code exactly when not every code passes, and nothing after it fails. */
  lemma {:induction false} LastFailingIndexIsLast(codes: seq<int>)
    ensures var k := LastFailingIndex(codes);
      (k == -1 <==> AllPass(codes)) &&
      (k >= 0 ==> codes[k] > RETURNCODE_PASS && AllPass(codes[k + 1..]))
    decreases |codes|
  {
    if codes != [] {
      var n := |codes| - 1;
      var front := codes[..n];
      AllPassSnoc(codes);
      if codes[n] > RETURNCODE_PASS {
        assert codes[n + 1..] == [];
      } else {
        LastFailingIndexIsLast(front);
        var k := LastFailingIndex(front);
        if k >= 0 {
          assert codes[k + 1..] == front[k + 1..] + [codes[n]];
          AllPassAppend(front[k + 1..], [codes[n]]);
          assert codes[k] == front[k];
        }
      }
    }
  }

  /** The overwrite loop leaves the last failing code, or `init` when there is none. */
  lemma {:induction false} LastFailureIsLastFailing(codes: seq<int>, init: int)
    ensures var k := LastFailingIndex(codes);
      LastFailure(codes, init) == if k == -1 then init else codes[k]
    decreases |codes|
  {
    if codes != [] {
      LastFailureIsLastFailing(codes[..|codes| - 1], init);
    }
  }

  /** The loop leaves `init` when every code passes. */
  lemma LastFailureAllPass(codes: seq<int>, init: int)
    requires AllPass(codes)
    ensures LastFailure(codes, init) == init
  {
    LastFailingIndexIsLast(codes);
    LastFailureIsLastFailing(codes, init);
  }

  /** A field that already held a failure keeps holding one. */
  lemma LastFailureKeepsFailure(codes: seq<int>, init: int)
    requires init != RETURNCODE_PASS
    ensures LastFailure(codes, init) != RETURNCODE_PASS
  {
    LastFailingIndexIsLast(codes);
    LastFailureIsLastFailing(codes, init);
  }

  /** The `ServerInfo` field: Server header, " - " only after a non-empty one, x-powered-by. */
  function ServerInfo(prior: string, server: string, poweredBy: string): (info: string)
    ensures prior + server == "" ==> info == poweredBy
    ensures prior + server != "" ==> info == prior + server + " - " + poweredBy
  {
    var banner := prior + server;
    (if banner != "" then banner + " - " else banner) + poweredBy
  }

  /**
   * The fields the certificate loop produces, starting from `base`: the
   * server name falls back to the first certificate's name, one entry per
   * certificate, the last failing code and the pass flag.
   */
  function Assemble(base: CheckedServer, serverName: string, peers: seq<PeerCert>, threshold: Time, now: Time): CheckedServer {
    base.(
      serverName := if serverName == "" && |peers| > 0 then CommonNameOf(peers[0]) else serverName,
      certs := base.certs + Chain(peers, threshold, now),
      exitCode := LastFailure(Codes(peers, threshold, now), base.exitCode),
      passed := base.passed && AllPass(Codes(peers, threshold, now)))
  }

  /**
   * `CheckServer(target, insecure)` as a function of the clock and the
   * network. A failed secure request that did not time out is replaced by
   * the result of one insecure attempt on the normalised target, which is
   * then marked failed with RETURNCODE_ERROR.
   */
  function Check(target: string, insecure: bool, threshold: Time, now: Time, timeoutSeconds: int, probe: Probe): (out: CheckedServer)
    ensures HTTPS_SCHEME <= out.target
    decreases if insecure then 0 else 1
  {
    var url := NormalizeTarget(target);
    var initial := EmptyServer.(target := url, passed := true);
    match probe(url, insecure, timeoutSeconds)
    case RequestRejected(e) => initial.(err := e)
    case RequestFailed(ip, dnsError, timedOut, unwrapped) =>
      var traced := initial.(ipAddress := ip);
      var traced := if dnsError.Some? then traced.(err := dnsError.value, passed := false, exitCode := RETURNCODE_ERROR) else traced;
      var current := if !insecure && !timedOut then Check(url, true, threshold, now, timeoutSeconds, probe) else traced;
      current.(err := if unwrapped.Some? then unwrapped.value else current.err, passed := false, exitCode := RETURNCODE_ERROR)
    case Responded(_, _, _, _, _) => Respond(initial, probe(url, insecure, timeoutSeconds), threshold, now)
  }

  /**
   * The part of `CheckServer` after a response arrived: address, server
   * banner and protocol, then either the missing-TLS failure or the
   * certificate loop on the negotiated state.
   */
  function Respond(initial: CheckedServer, answer: ProbeOutcome, threshold: Time, now: Time): CheckedServer
    requires answer.Responded?
  {
    var answered := initial.(ipAddress := answer.ipAddress, serverInfo := ServerInfo(initial.serverInfo, answer.server, answer.poweredBy),
                             httpVersion := if initial.httpVersion == "" then answer.proto else initial.httpVersion);
    match answer.tls
    case None => answered.(passed := false, err := MISSING_TLS)
    case Some(state) =>
      var negotiated := answered.(tlsVersion := state.version, tlsAlgorithm := state.cipherSuite, httpVersion := state.negotiatedProtocol);
      Assemble(negotiated, state.serverName, state.peerCertificates, threshold, now)
  }

  /** Every result carries one of the five return codes, and a passing result carries 0. */
  lemma CheckExitCode(target: string, insecure: bool, threshold: Time, now: Time, timeoutSeconds: int, probe: Probe)
    ensures var out := Check(target, insecure, threshold, now, timeoutSeconds, probe);
      out.exitCode in {RETURNCODE_PASS, RETURNCODE_EXPIRED, RETURNCODE_THRESHOLDFAIL, RETURNCODE_NOTVALIDYET, RETURNCODE_ERROR} &&
      (out.passed ==> out.exitCode == RETURNCODE_PASS)
  {
    var url := NormalizeTarget(target);
    match probe(url, insecure, timeoutSeconds)
    case RequestRejected(_) =>
    case RequestFailed(_, _, _, _) =>
    case Responded(_, _, _, _, tls) =>
      var initial := EmptyServer.(target := url, passed := true);
      assert Check(target, insecure, threshold, now, timeoutSeconds, probe) == Respond(initial, probe(url, insecure, timeoutSeconds), threshold, now);
      if tls.Some? {
        var codes := Codes(tls.value.peerCertificates, threshold, now);
        LastFailingIndexIsLast(codes);
        LastFailureIsLastFailing(codes, RETURNCODE_PASS);
      }
  }

  /** A URL that `http.NewRequest` rejects leaves the result passing with exit code 0 and the error recorded. */
  lemma CheckRejectedRequest(target: string, insecure: bool, threshold: Time, now: Time, timeoutSeconds: int, probe: Probe)
    requires probe(NormalizeTarget(target), insecure, timeoutSeconds).RequestRejected?
    ensures var out := Check(target, insecure, threshold, now, timeoutSeconds, probe);
      out.passed && out.exitCode == RETURNCODE_PASS && out.certs == [] && out.target == NormalizeTarget(target) &&
      out.err == probe(NormalizeTarget(target), insecure, timeoutSeconds).err
  {
  }

  /**
   * A failed request always ends with `passed` false and RETURNCODE_ERROR,
   * the unwrapped error as message when there is one; without a retry no
   * certificate is reported.
   */
  lemma CheckFailedRequest(target: string, insecure: bool, threshold: Time, now: Time, timeoutSeconds: int, probe: Probe)
    requires probe(NormalizeTarget(target), insecure, timeoutSeconds).RequestFailed?
    ensures var out := Check(target, insecure, threshold, now, timeoutSeconds, probe);
      var failure := probe(NormalizeTarget(target), insecure, timeoutSeconds);
      !out.passed && out.exitCode == RETURNCODE_ERROR &&
      (failure.unwrapped.Some? ==> out.err == failure.unwrapped.value) &&
      ((insecure || failure.timedOut) ==>
        out.certs == [] && out.target == NormalizeTarget(target) && out.ipAddress == failure.ipAddress &&
        (failure.unwrapped.None? && failure.dnsError.Some? ==> out.err == failure.dnsError.value))
  {
  }

  /**
   * After a secure failure that was not a timeout, the chain the insecure
   * attempt obtained is reported with its per-certificate verdicts, yet the
   * result still fails with RETURNCODE_ERROR.
   */
  lemma CheckRetryKeepsChain(target: string, threshold: Time, now: Time, timeoutSeconds: int, probe: Probe)
    requires var failure := probe(NormalizeTarget(target), false, timeoutSeconds);
      failure.RequestFailed? && !failure.timedOut
    requires var retry := probe(NormalizeTarget(NormalizeTarget(target)), true, timeoutSeconds);
      retry.Responded? && retry.tls.Some?
    ensures var out := Check(target, false, threshold, now, timeoutSeconds, probe);
      var peers := probe(NormalizeTarget(NormalizeTarget(target)), true, timeoutSeconds).tls.value.peerCertificates;
      out.certs == Chain(peers, threshold, now) && !out.passed && out.exitCode == RETURNCODE_ERROR &&
      out.target == NormalizeTarget(NormalizeTarget(target))
  {
  }

  /** No reported certificate is invalid. */
  predicate AllValid(certs: seq<CheckCert>) {
    forall k :: 0 <= k < |certs| ==> !certs[k].isInvalid
  }

  /** The certificate at `k` is invalid and none after it is. */
  predicate LastInvalidAt(certs: seq<CheckCert>, k: int) {
    0 <= k < |certs| && certs[k].isInvalid && AllValid(certs[k + 1..])
  }

  /** The codes pass exactly when the entries built from them are valid. */
  lemma CodesAgreeWithChain(peers: seq<PeerCert>, threshold: Time, now: Time)
    ensures AllPass(Codes(peers, threshold, now)) <==> AllValid(Chain(peers, threshold, now))
  {
    var codes, certs := Codes(peers, threshold, now), Chain(peers, threshold, now);
    forall k | 0 <= k < |peers| ensures codes[k] <= RETURNCODE_PASS <==> !certs[k].isInvalid { }
  }

  lemma SliceChain(peers: seq<PeerCert>, i: nat, threshold: Time, now: Time)
    requires i <= |peers|
    ensures Codes(peers, threshold, now)[i..] == Codes(peers[i..], threshold, now)
    ensures Chain(peers, threshold, now)[i..] == Chain(peers[i..], threshold, now)
  {
  }

  /**
   * Starting from a passing result without certificates, the certificate loop
   * reports one entry per peer in order, passes exactly when no entry is
   * invalid, exits with 0 exactly when it passes and otherwise with the code
   * of the last invalid certificate.
   */
  lemma AssembleVerdict(base: CheckedServer, serverName: string, peers: seq<PeerCert>, threshold: Time, now: Time)
    requires base.passed && base.exitCode == RETURNCODE_PASS && base.certs == []
    ensures var out := Assemble(base, serverName, peers, threshold, now);
      && out.certs == Chain(peers, threshold, now)
      && (out.passed <==> AllValid(out.certs))
      && (out.passed <==> out.exitCode == RETURNCODE_PASS)
      && (!out.passed ==> exists k :: LastInvalidAt(out.certs, k) && out.exitCode == CodeOf(peers[k], threshold, now))
  {
    var codes := Codes(peers, threshold, now);
    var certs := Chain(peers, threshold, now);
    assert base.certs + certs == certs;
    CodesAgreeWithChain(peers, threshold, now);
    LastFailingIndexIsLast(codes);
    LastFailureIsLastFailing(codes, RETURNCODE_PASS);
    if !AllPass(codes) {
      var k := LastFailingIndex(codes);
      SliceChain(peers, k + 1, threshold, now);
      CodesAgreeWithChain(peers[k + 1..], threshold, now);
      assert LastInvalidAt(certs, k);
    }
  }

  /**
   * The success path: the verdict of `AssembleVerdict` on the chain the
   * server presented, the normalised target, no error, the negotiated
   * protocol, and the server name from TLS or else the first certificate's
   * name.
   */
  lemma CheckChain(target: string, insecure: bool, threshold: Time, now: Time, timeoutSeconds: int, probe: Probe)
    requires var answer := probe(NormalizeTarget(target), insecure, timeoutSeconds);
      answer.Responded? && answer.tls.Some?
    ensures var out := Check(target, insecure, threshold, now, timeoutSeconds, probe);
      var state := probe(NormalizeTarget(target), insecure, timeoutSeconds).tls.value;
      var peers := state.peerCertificates;
      && out.certs == Chain(peers, threshold, now)
      && out.err == "" && out.target == NormalizeTarget(target)
      && out.httpVersion == state.negotiatedProtocol
      && out.serverName == (if state.serverName == "" && |peers| > 0 then CommonNameOf(peers[0]) else state.serverName)
      && (out.passed <==> AllValid(out.certs))
      && (out.passed <==> out.exitCode == RETURNCODE_PASS)
      && (!out.passed ==> exists k :: LastInvalidAt(out.certs, k) && out.exitCode == CodeOf(peers[k], threshold, now))
  {
    var url := NormalizeTarget(target);
    var answer := probe(url, insecure, timeoutSeconds);
    var state := answer.tls.value;
    var initial := EmptyServer.(target := url, passed := true);
    assert Check(target, insecure, threshold, now, timeoutSeconds, probe) == Respond(initial, answer, threshold, now);
    var answered := initial.(ipAddress := answer.ipAddress, serverInfo := ServerInfo("", answer.server, answer.poweredBy), httpVersion := answer.proto);
    var negotiated := answered.(tlsVersion := state.version, tlsAlgorithm := state.cipherSuite, httpVersion := state.negotiatedProtocol);
    assert Respond(initial, answer, threshold, now) == Assemble(negotiated, state.serverName, state.peerCertificates, threshold, now);
    AssembleVerdict(negotiated, state.serverName, state.peerCertificates, threshold, now);
  }

  /** A response without TLS state fails with the fixed message, but its exit code stays 0. */
  lemma CheckMissingTls(target: string, insecure: bool, threshold: Time, now: Time, timeoutSeconds: int, probe: Probe)
    requires var answer := probe(NormalizeTarget(target), insecure, timeoutSeconds);
      answer.Responded? && answer.tls.None?
    ensures var out := Check(target, insecure, threshold, now, timeoutSeconds, probe);
      !out.passed && out.exitCode == RETURNCODE_PASS && out.err == MISSING_TLS && out.certs == [] &&
      out.httpVersion == probe(NormalizeTarget(target), insecure, timeoutSeconds).proto
  {
  }

  /** An insecure check makes exactly one request: nothing else the network would say matters. */
  lemma InsecureCheckProbesOnce(target: string, threshold: Time, now: Time, timeoutSeconds: int, p1: Probe, p2: Probe)
    requires p1(NormalizeTarget(target), true, timeoutSeconds) == p2(NormalizeTarget(target), true, timeoutSeconds)
    ensures Check(target, true, threshold, now, timeoutSeconds, p1) == Check(target, true, threshold, now, timeoutSeconds, p2)
  {
  }

  /**
   * A secure check makes at most two requests: the secure one and a single
   * insecure one on the normalised target.
   */
  lemma SecureCheckProbesAtMostTwice(target: string, threshold: Time, now: Time, timeoutSeconds: int, p1: Probe, p2: Probe)
    requires var url := NormalizeTarget(target);
      p1(url, false, timeoutSeconds) == p2(url, false, timeoutSeconds) &&
      p1(NormalizeTarget(url), true, timeoutSeconds) == p2(NormalizeTarget(url), true, timeoutSeconds)
    ensures Check(target, false, threshold, now, timeoutSeconds, p1) == Check(target, false, threshold, now, timeoutSeconds, p2)
  {
    InsecureCheckProbesOnce(NormalizeTarget(target), threshold, now, timeoutSeconds, p1, p2);
  }

  /** There is no retry after a success, a rejected request or a timeout. */
  lemma NoRetryUnlessFailedWithoutTimeout(target: string, threshold: Time, now: Time, timeoutSeconds: int, p1: Probe, p2: Probe)
    requires var first := p1(NormalizeTarget(target), false, timeoutSeconds);
      first == p2(NormalizeTarget(target), false, timeoutSeconds) && !(first.RequestFailed? && !first.timedOut)
    ensures Check(target, false, threshold, now, timeoutSeconds, p1) == Check(target, false, threshold, now, timeoutSeconds, p2)
  {
  }

  /**
   * `CheckSSL`: the dial timeout and the date the certificates must still be
   * valid on. `CheckServer` reads both and changes neither.
   */
  class CheckSSL {
    var timeoutSeconds: int
    var dateNeededValidFor: Time

    /** `NewCheckSSL`: the default timeout and a threshold of now. */
    constructor (now: Time)
      ensures timeoutSeconds == DEFAULT_TIMEOUT_SEC && dateNeededValidFor == now
    {
      timeoutSeconds := DEFAULT_TIMEOUT_SEC;
      dateNeededValidFor := now;
    }

    method SetTimeout(seconds: int)
      modifies this
      ensures timeoutSeconds == seconds && dateNeededValidFor == old(dateNeededValidFor)
    {
      timeoutSeconds := seconds;
    }

    method SetThreshold(threshold: Time)
      modifies this
      ensures dateNeededValidFor == threshold && timeoutSeconds == old(timeoutSeconds)
    {
      dateNeededValidFor := threshold;
    }

    /**
     * Builds the result field by field, appending one entry per peer
     * certificate; the insecure retry is a recursive call.
     */
    method CheckServer(target: string, insecure: bool, now: Time, probe: Probe) returns (output: CheckedServer)
      ensures output == Check(target, insecure, dateNeededValidFor, now, timeoutSeconds, probe)
      decreases if insecure then 0 else 1
    {
      var url := ReplaceFirst(target, HTTP_SCHEME, HTTPS_SCHEME);
      if !(HTTPS_SCHEME <= url) {
        url := HTTPS_SCHEME + url;
      }
      output := EmptyServer;
      output := output.(target := url);
      output := output.(passed := true);

      match probe(url, insecure, timeoutSeconds) {
        case RequestRejected(e) =>
          output := output.(err := e);
          return;
        case RequestFailed(ip, dnsError, timedOut, unwrapped) =>
          output := output.(ipAddress := ip);
          if dnsError.Some? {
            output := output.(err := dnsError.value, passed := false, exitCode := RETURNCODE_ERROR);
          }
          if !insecure {
            if !timedOut {
              output := CheckServer(url, true, now, probe);
            }
          }
          if unwrapped.Some? {
            output := output.(err := unwrapped.value);
          }
          output := output.(passed := false, exitCode := RETURNCODE_ERROR);
          return;
        case Responded(_, _, _, _, _) =>
          output := RecordResponse(output, probe(url, insecure, timeoutSeconds), now);
      }
    }

    /** The statements of `CheckServer` that read a response. */
    method RecordResponse(start: CheckedServer, answer: ProbeOutcome, now: Time) returns (output: CheckedServer)
      requires answer.Responded?
      ensures output == Respond(start, answer, dateNeededValidFor, now)
    {
      output := start;
      output := output.(ipAddress := answer.ipAddress);
      output := output.(serverInfo := output.serverInfo + answer.server);
      if output.serverInfo != "" {
        output := output.(serverInfo := output.serverInfo + " - ");
      }
      output := output.(serverInfo := output.serverInfo + answer.poweredBy);
      if output.httpVersion == "" {
        output := output.(httpVersion := answer.proto);
      }
      if answer.tls.Some? {
        var state := answer.tls.value;
        output := output.(serverName := state.serverName, tlsVersion := state.version,
                          tlsAlgorithm := state.cipherSuite, httpVersion := state.negotiatedProtocol);
        output := RecordChain(output, state.peerCertificates, now);
      } else {
        output := output.(passed := false, err := MISSING_TLS);
      }
    }

    /** The loop over the peer certificates, starting from what the response already filled in. */
    method RecordChain(start: CheckedServer, peers: seq<PeerCert>, now: Time) returns (output: CheckedServer)
      ensures output == Assemble(start, start.serverName, peers, dateNeededValidFor, now)
    {
      output := start;
      var i := 0;
      while i < |peers|
        invariant 0 <= i <= |peers|
        invariant output == Assemble(start, start.serverName, peers[..i], dateNeededValidFor, now)
      {
        var val := peers[i];
        var certInfo := CheckCert("", false, 0, 0, false);
        certInfo := certInfo.(isCertificateAuthority := val.isCA);
        certInfo := certInfo.(validNotAfter := val.notAfter);
        certInfo := certInfo.(validNotBefore := val.notBefore);
        var commonName := val.commonName;
        if commonName == "" {
          commonName := MISSING_COMMON_NAME;
        }
        certInfo := certInfo.(commonName := commonName);
        if output.serverName == "" {
          output := output.(serverName := commonName);
        }
        var newCode := Classify(dateNeededValidFor, val.notBefore, val.notAfter, now);
        if newCode > RETURNCODE_PASS {
          certInfo := certInfo.(isInvalid := true);
          output := output.(exitCode := newCode, passed := false);
        }
        output := output.(certs := output.certs + [certInfo]);
        AssembleStep(start, start.serverName, peers, i, dateNeededValidFor, now);
        i := i + 1;
      }
      assert peers[..|peers|] == peers;
    }
  }

  /** Extending the processed prefix by one certificate, as one loop iteration does. */
  lemma AssembleStep(base: CheckedServer, serverName: string, peers: seq<PeerCert>, i: nat, threshold: Time, now: Time)
    requires i < |peers|
    ensures var before := Assemble(base, serverName, peers[..i], threshold, now);
      var code := CodeOf(peers[i], threshold, now);
      var after := before.(
        serverName := if before.serverName == "" then CommonNameOf(peers[i]) else before.serverName,
        exitCode := if code > RETURNCODE_PASS then code else before.exitCode,
        passed := before.passed && !(code > RETURNCODE_PASS),
        certs := before.certs + [CertOf(peers[i], threshold, now)]);
      Assemble(base, serverName, peers[..i + 1], threshold, now) == after
  {
    var front := peers[..i];
    var next := peers[..i + 1];
    assert next[..i] == front;
    var codes := Codes(next, threshold, now);
    assert codes[..i] == Codes(front, threshold, now);
    assert Chain(next, threshold, now) == Chain(front, threshold, now) + [CertOf(peers[i], threshold, now)];
    AllPassSnoc(codes);
  }
}
