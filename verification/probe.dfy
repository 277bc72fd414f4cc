/** What the three probes (tls.go, quic.go, sni.go) observe of a server,
    and the choices they share. The handshakes and requests themselves are
    not modelled: each probe is a decision over what they returned. */
module Probe {
  import opened Common
  import opened Config

  /** The parts of a peer certificate the probes look at: the subject's
      organizations and common name, and the raw SubjectPublicKeyInfo. */
  datatype Cert = Cert(organization: seq<string>, commonName: string, spki: seq<byte>)

  /** A response body: none, its bytes, or an error while reading it. */
  datatype Body = NoBody | BodyRead(bytes: seq<byte>) | BodyError

  /** An HTTP response: the status, the first values of the Alt-Svc and
      Content-Type headers ("" when absent), and the body. */
  datatype Response = Response(status: int, altSvc: string, contentType: string, body: Body)

  /** What a probe returns: whether the address passed, with the record as
      the probe leaves it, or a run-time panic (`rand.Intn(0)` in the TLS and
      QUIC probes, a slice or index out of range in the ping probe). */
  datatype Verdict = Verdict(ok: bool, record: ScanRecord) | Panic

  /** The status range the TLS and QUIC probes accept: 2xx and 3xx. */
  predicate StatusOk(status: int)
  {
    200 <= status < 400
  }

  /** The record of an accepted probe: its time grows by the elapsed time. */
  function Charged(record: ScanRecord, rtt: int): (r: ScanRecord)
    ensures r.ip == record.ip && r.pingRtt == record.pingRtt && r.rtt - record.rtt == rtt
  {
    record.(rtt := record.rtt + rtt)
  }

  /** The server name of the TLS and QUIC probes: a random host when the
      configured list is empty, else the entry `pick` (the draw of
      `rand.Intn(len)`, below the length) selects. */
  function ServerName(names: seq<string>, randomHost: string, pick: nat): (name: string)
    requires |names| == 0 || pick < |names|
    ensures |names| == 0 ==> name == randomHost
    ensures |names| > 0 ==> name in names
  {
    if |names| == 0 then randomHost else names[pick]
  }

  /** Every configured name is chosen by some draw. */
  lemma EveryNameReachable(names: seq<string>, randomHost: string, name: string)
    requires name in names
    ensures exists pick: nat :: pick < |names| && ServerName(names, randomHost, pick) == name
  {
    var pick :| 0 <= pick < |names| && names[pick] == name;
    assert ServerName(names, randomHost, pick) == name;
  }
}
