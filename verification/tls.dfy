/** `testTls` (tls.go) as a decision over what the connection showed. */
module Tls {
  import opened Common
  import opened Config
  import opened Probe

  /** What `testTls` sees of one address: whether the TCP dial and the TLS
      handshake succeeded, the peer certificates, whether `http.NewRequest`
      accepted the URL of the drawn verification host, the response to the
      verification request (`None` when the client returned none), and the
      elapsed time. */
  datatype Observation = Observation(
    dialOk: bool,
    handshakeOk: bool,
    certs: seq<Cert>,
    requestOk: bool,
    response: Option<Response>,
    rtt: int)

  /** The organization the intermediate certificate must name. */
  const GoogleTrust: string := "Google Trust Services LLC"

  /** Level 2: there is an intermediate certificate, its first organization
      is Google Trust Services, and its key is the pinned `gpkp`. */
  predicate Pinned(certs: seq<Cert>, gpkp: seq<byte>)
  {
    |certs| >= 2 && |certs[1].organization| > 0 && certs[1].organization[0] == GoogleTrust
    && certs[1].spki == gpkp
  }

  /** Level 3: a response with a 2xx or 3xx status. */
  predicate Answered(response: Option<Response>)
  {
    response.Some? && StatusOk(response.value.status)
  }

  /** The acceptance ladder as one condition: each level adds its check to
      the ones below, and the elapsed time must exceed the minimum. */
  predicate Accepts(cfg: ScanConfig, gpkp: seq<byte>, o: Observation)
  {
    o.dialOk && o.handshakeOk
    && (cfg.level > 1 ==> Pinned(o.certs, gpkp))
    && (cfg.level > 2 ==> |cfg.httpVerifyHosts| > 0 && o.requestOk && Answered(o.response))
    && o.rtt > cfg.scanMinRtt
  }

  /** `testTls`, check by check. The verification host is drawn with
      `rand.Intn(len(HTTPVerifyHosts))`, which panics on an empty list; the
      error of `http.NewRequest` is dropped, so a URL it rejects leaves a
      nil request whose `Close` field is then set, which panics too. A
      rejected address leaves the record as it was; an accepted one adds
      the elapsed time. */
  function TestTls(cfg: ScanConfig, gpkp: seq<byte>, o: Observation, record: ScanRecord): (v: Verdict)
    ensures v.Panic? <==> o.dialOk && o.handshakeOk && (cfg.level > 1 ==> Pinned(o.certs, gpkp))
                          && cfg.level > 2 && (|cfg.httpVerifyHosts| == 0 || !o.requestOk)
    ensures v.Verdict? ==> (v.ok <==> Accepts(cfg, gpkp, o))
    ensures v.Verdict? ==> v.record == if v.ok then Charged(record, o.rtt) else record
  {
    if !o.dialOk then Verdict(false, record)
    else if !o.handshakeOk then Verdict(false, record)
    else if cfg.level > 1 && |o.certs| < 2 then Verdict(false, record)
    else if cfg.level > 1 && (|o.certs[1].organization| == 0 || o.certs[1].organization[0] != GoogleTrust) then Verdict(false, record)
    else if cfg.level > 1 && o.certs[1].spki != gpkp then Verdict(false, record)
    else if cfg.level > 2 && |cfg.httpVerifyHosts| == 0 then Panic
    else if cfg.level > 2 && !o.requestOk then Panic
    else if cfg.level > 2 && (o.response.None? || !StatusOk(o.response.value.status)) then Verdict(false, record)
    else if o.rtt > cfg.scanMinRtt then Verdict(true, Charged(record, o.rtt))
    else Verdict(false, record)
  }

  /** The levels are nested: what passes at one level passes at every
      lower one, with the same record. */
  lemma LevelsNested(cfg: ScanConfig, gpkp: seq<byte>, o: Observation, record: ScanRecord, lower: int)
    requires lower <= cfg.level && TestTls(cfg, gpkp, o, record).Verdict? && TestTls(cfg, gpkp, o, record).ok
    ensures TestTls(cfg.(level := lower), gpkp, o, record) == TestTls(cfg, gpkp, o, record)
  {
  }

  /** The time gate is strict: an elapsed time equal to the minimum
      rejects, whatever else the connection showed. */
  lemma EqualRttRejects(cfg: ScanConfig, gpkp: seq<byte>, o: Observation, record: ScanRecord)
    requires o.rtt == cfg.scanMinRtt
    ensures TestTls(cfg, gpkp, o, record) != Verdict(true, Charged(record, o.rtt))
  {
  }
}
