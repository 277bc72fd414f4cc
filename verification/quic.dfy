/** `testQuic` (quic.go) as a decision over what the QUIC session showed. */
module Quic {
  import opened Common
  import opened Config
  import opened Strings
  import opened Probe

  /** What `testQuic` sees of one address: whether the local UDP socket
      opened, whether the QUIC dial succeeded and its TLS handshake
      completed, the peer certificates, whether `http.NewRequest` accepted
      the URL of the drawn verification host, the response to the HTTP/3
      verification request, and the elapsed time. */
  datatype Observation = Observation(
    listenOk: bool,
    dialOk: bool,
    handshakeComplete: bool,
    certs: seq<Cert>,
    requestOk: bool,
    response: Option<Response>,
    rtt: int)

  /** The Alt-Svc entry a Google front end advertises for QUIC. */
  const QuicAltSvc: string := "quic=\":443\""

  /** The Content-Type under which level 4 reads the body. */
  const XmlType: string := "application/xml; charset=UTF-8"

  /** The body of the storage front end's NoSuchBucket error, which level 4
      refuses. */
  const NoSuchBucket: string := "<?xml version='1.0' encoding='UTF-8'?><Error><Code>NoSuchBucket</Code><Message>The specified bucket does not exist.</Message></Error>"

  /** The bytes of an ASCII text (its UTF-8 encoding, for the texts here). */
  function Ascii(s: string): (b: seq<byte>)
    ensures |b| == |s|
  {
    seq(|s|, i requires 0 <= i < |s| => (s[i] as int) % 256)
  }

  /** `errNoSuchBucket`. */
  function NoSuchBucketBytes(): seq<byte>
  {
    Ascii(NoSuchBucket)
  }

  /** Level 1, checked at every level: the handshake completed and there
      is an intermediate certificate. */
  predicate Connected(o: Observation)
  {
    o.listenOk && o.dialOk && o.handshakeComplete && |o.certs| >= 2
  }

  /** Level 2: the intermediate certificate's key is one of the two pins. */
  predicate Pinned(certs: seq<Cert>, g2pkp: seq<byte>, g3pkp: seq<byte>)
    requires |certs| >= 2
  {
    certs[1].spki == g2pkp || certs[1].spki == g3pkp
  }

  /** Level 3: a 2xx or 3xx response that advertises QUIC on port 443. */
  predicate Answered(response: Option<Response>)
  {
    response.Some? && StatusOk(response.value.status) && ContainsStr(response.value.altSvc, QuicAltSvc)
  }

  /** Level 4, only for an XML body: it is read without error and is not
      the NoSuchBucket error. A missing body, or any other content type,
      passes. */
  predicate BodyOk(level: int, r: Response)
  {
    r.body.NoBody?
    || !(level > 3 && r.contentType == XmlType)
    || (r.body.BodyRead? && r.body.bytes != NoSuchBucketBytes())
  }

  /** The acceptance ladder as one condition. */
  predicate Accepts(cfg: ScanConfig, g2pkp: seq<byte>, g3pkp: seq<byte>, o: Observation)
  {
    Connected(o)
    && (cfg.level > 1 ==> Pinned(o.certs, g2pkp, g3pkp))
    && (cfg.level > 2 ==> |cfg.httpVerifyHosts| > 0 && o.requestOk && Answered(o.response) && BodyOk(cfg.level, o.response.value))
    && o.rtt > cfg.scanMinRtt
  }

  /** `testQuic`, check by check; the pins `g2pkp` and `g3pkp` are
      parameters. As in `testTls`, an empty host list panics at level 3, so
      does a host whose URL `http.NewRequest` rejects (the nil request's
      `Close` is set), and only an accepted address adds its time to the
      record. */
  function TestQuic(cfg: ScanConfig, g2pkp: seq<byte>, g3pkp: seq<byte>, o: Observation, record: ScanRecord): (v: Verdict)
    ensures v.Panic? <==> Connected(o) && (cfg.level > 1 ==> Pinned(o.certs, g2pkp, g3pkp))
                          && cfg.level > 2 && (|cfg.httpVerifyHosts| == 0 || !o.requestOk)
    ensures v.Verdict? ==> (v.ok <==> Accepts(cfg, g2pkp, g3pkp, o))
    ensures v.Verdict? ==> v.record == if v.ok then Charged(record, o.rtt) else record
  {
    if !o.listenOk || !o.dialOk then Verdict(false, record)
    else if !o.handshakeComplete then Verdict(false, record)
    else if |o.certs| < 2 then Verdict(false, record)
    else if cfg.level > 1 && o.certs[1].spki != g2pkp && o.certs[1].spki != g3pkp then Verdict(false, record)
    else if cfg.level > 2 && |cfg.httpVerifyHosts| == 0 then Panic
    else if cfg.level > 2 && !o.requestOk then Panic
    else if cfg.level > 2 && !Answered(o.response) then Verdict(false, record)
    else if cfg.level > 2 && !o.response.value.body.NoBody? && cfg.level > 3 && o.response.value.contentType == XmlType
            && (o.response.value.body.BodyError? || o.response.value.body.bytes == NoSuchBucketBytes()) then Verdict(false, record)
    else if o.rtt > cfg.scanMinRtt then Verdict(true, Charged(record, o.rtt))
    else Verdict(false, record)
  }

  /** The levels are nested, as in `testTls`. */
  lemma LevelsNested(cfg: ScanConfig, g2pkp: seq<byte>, g3pkp: seq<byte>, o: Observation, record: ScanRecord, lower: int)
    requires lower <= cfg.level
    requires TestQuic(cfg, g2pkp, g3pkp, o, record).Verdict? && TestQuic(cfg, g2pkp, g3pkp, o, record).ok
    ensures TestQuic(cfg.(level := lower), g2pkp, g3pkp, o, record) == TestQuic(cfg, g2pkp, g3pkp, o, record)
  {
  }

  /** Even at level 1 a session without an intermediate certificate is
      rejected. */
  lemma OneCertRejects(cfg: ScanConfig, g2pkp: seq<byte>, g3pkp: seq<byte>, o: Observation, record: ScanRecord)
    requires |o.certs| < 2
    ensures TestQuic(cfg, g2pkp, g3pkp, o, record) == Verdict(false, record)
  {
  }
}
