/** `testSni` (sni.go): every configured server name is probed in turn,
    each over its own connection, as a loop over what each connection
    showed. */
module Sni {
  import opened Common
  import opened Config
  import opened Probe

  /** What one server name's connection showed: whether the TCP dial and
      the TLS handshake succeeded, the peer certificates, whether the HEAD
      request could be built, the status of its response (`None` for a
      request error), and the elapsed time. */
  datatype Observation = Observation(
    dialOk: bool,
    handshakeOk: bool,
    certs: seq<Cert>,
    requestOk: bool,
    status: Option<int>,
    rtt: int)

  /** Level 2: the leaf certificate is issued to the probed name. */
  predicate LeafNamed(certs: seq<Cert>, name: string)
  {
    |certs| > 0 && certs[0].commonName == name
  }

  /** Level 3: the HEAD request went through and its status is below 400;
      there is no lower bound. */
  predicate HeadOk(o: Observation)
  {
    o.requestOk && o.status.Some? && o.status.value < 400
  }

  /** One name passes: each level adds its check, and only an elapsed time
      below the minimum fails, so equality passes. */
  predicate NamePasses(cfg: ScanConfig, name: string, o: Observation)
  {
    o.dialOk && o.handshakeOk
    && (cfg.level > 1 ==> LeafNamed(o.certs, name))
    && (cfg.level > 2 ==> HeadOk(o))
    && !(o.rtt < cfg.scanMinRtt)
  }

  /** The times of the names probed, added up. */
  function TotalRtt(obs: seq<Observation>): int
    decreases |obs|
  {
    if |obs| == 0 then 0 else TotalRtt(obs[..|obs| - 1]) + obs[|obs| - 1].rtt
  }

  /** How one name's probe ends, and whether it opens a connection that it
      then closes. Every path after a successful dial closes it. */
  function ProbeName(cfg: ScanConfig, name: string, o: Observation): (r: (bool, nat, nat))
    ensures r.0 <==> NamePasses(cfg, name, o)
    ensures r.1 == r.2 && r.1 == (if o.dialOk then 1 else 0)
  {
    if !o.dialOk then (false, 0, 0)
    else if !o.handshakeOk then (false, 1, 1)
    else if cfg.level > 1 && !LeafNamed(o.certs, name) then (false, 1, 1)
    else if cfg.level > 2 && !o.requestOk then (false, 1, 1)
    else if cfg.level > 2 && o.status.None? then (false, 1, 1)
    else if cfg.level > 2 && o.status.value >= 400 then (false, 1, 1)
    else (!(o.rtt < cfg.scanMinRtt), 1, 1)
  }

  /** `testSni`: probe the names in order, stopping at the first failure.
      `passed` is the number of names that passed; each adds its time to
      the record, and a later failure leaves those additions in place.
      `opens` and `closes` count the connections. */
  method TestSni(cfg: ScanConfig, obs: seq<Observation>, record: ScanRecord)
    returns (ok: bool, rec: ScanRecord, passed: nat, opens: nat, closes: nat)
    requires |obs| == |cfg.serverName|
    ensures passed <= |obs| && forall i :: 0 <= i < passed ==> NamePasses(cfg, cfg.serverName[i], obs[i])
    ensures ok <==> passed == |obs|
    ensures !ok ==> !NamePasses(cfg, cfg.serverName[passed], obs[passed])
    ensures rec == record.(rtt := record.rtt + TotalRtt(obs[..passed]))
    ensures opens == closes
  {
    var names := cfg.serverName;
    rec := record;
    passed := 0;
    opens, closes := 0, 0;
    while passed < |names|
      invariant passed <= |names| && forall i :: 0 <= i < passed ==> NamePasses(cfg, names[i], obs[i])
      invariant rec == record.(rtt := record.rtt + TotalRtt(obs[..passed]))
      invariant opens == closes
      decreases |names| - passed
    {
      var (pass, o, c) := ProbeName(cfg, names[passed], obs[passed]);
      opens, closes := opens + o, closes + c;
      if !pass {
        return false, rec, passed, opens, closes;
      }
      assert obs[..passed + 1][..passed] == obs[..passed];
      rec := rec.(rtt := rec.rtt + obs[passed].rtt);
      passed := passed + 1;
    }
    ok := true;
  }

  /** The levels are nested: a name that passes at one level passes at
      every lower one. */
  lemma LevelsNested(cfg: ScanConfig, name: string, o: Observation, lower: int)
    requires lower <= cfg.level && NamePasses(cfg, name, o)
    ensures NamePasses(cfg.(level := lower), name, o)
  {
  }

  /** Unlike the strict gates of `testTls` and `testQuic`, an elapsed time
      equal to the minimum passes here. */
  lemma EqualRttPasses(cfg: ScanConfig, name: string, o: Observation)
    requires o.dialOk && o.handshakeOk && cfg.level <= 1 && o.rtt == cfg.scanMinRtt
    ensures NamePasses(cfg, name, o)
  {
  }
}
