/**
 * The result model of lib/checkssl/checkssl.go: one `CheckedServer` per
 * probed target, one `CheckCert` per certificate the server presented.
 * Both are plain Go structs returned by value, so they are datatypes here.
 */
module Report {
  import opened Tolerance

  /** `uint16`, the width of the negotiated TLS version and cipher-suite identifiers. */
  type Uint16 = x: int | 0 <= x < 0x1_0000

  datatype CheckCert = CheckCert(
    commonName: string,
    isCertificateAuthority: bool,
    validNotBefore: Time,
    validNotAfter: Time,
    isInvalid: bool)

  datatype CheckedServer = CheckedServer(
    target: string,
    err: string,
    exitCode: int,
    serverInfo: string,
    certs: seq<CheckCert>,
    passed: bool,
    httpVersion: string,
    tlsVersion: Uint16,
    tlsAlgorithm: Uint16,
    serverName: string,
    ipAddress: string)

  /** The zero value of `CheckedServer`. */
  const EmptyServer := CheckedServer("", "", 0, "", [], false, "", 0, 0, "", "")
}
