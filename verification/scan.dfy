/** Sample confirmation (`testip`), the result ledger `ScanOptions`, and one
    sequential schedule of the worker pool and the producer loop (scan.go).
    The probe, the ping, the clock and the interrupt signal are oracle
    arguments. */
module Scan {
  import opened Common
  import opened Config

  // ---------------------------------------------------------------------
  // testip

  /** One call of the probe: whether it passed, and the round trip it added
      to the record's time; or a run-time panic inside the probe (a
      `Panic` verdict of the TLS, QUIC or ping probe). */
  datatype Probe = Probe(pass: bool, rtt: int) | Crash

  /** A call that returned true. */
  predicate Passed(p: Probe)
  {
    p.Probe? && p.pass
  }

  /** The outcome of `testip`: nil, the averaged record, the run-time panic
      of dividing by a zero sample count, or a panic of the probe itself. */
  datatype TestOutcome = Rejected | Accepted(record: ScanRecord) | ZeroCount | ProbePanicked

  /** The round trips the probes added up. */
  function TotalRtt(probes: seq<Probe>): int
    decreases |probes|
  {
    if |probes| == 0 then 0
    else
      var last := probes[|probes| - 1];
      TotalRtt(probes[..|probes| - 1]) + (if last.Probe? then last.rtt else 0)
  }

  /** `testip`: probe the address `count` times, giving up at the first
      failure, and going down with the first probe that panics; if all pass, divide the accumulated times by the count
      (truncating, as Go's `time.Duration` division). `calls` is the number
      of probe calls made. */
  method TestIp(ip: string, count: int, probes: seq<Probe>) returns (r: TestOutcome, calls: nat)
    requires count <= |probes|
    ensures count <= 0 ==> calls == 0
    ensures count == 0 <==> r.ZeroCount?
    ensures count < 0 ==> r == Accepted(ScanRecord(ip, 0, 0))
    ensures count > 0 ==> 1 <= calls <= count && forall i :: 0 <= i < calls - 1 ==> Passed(probes[i])
    ensures r.Rejected? <==> count > 0 && probes[calls - 1].Probe? && !probes[calls - 1].pass
    ensures r.ProbePanicked? <==> count > 0 && probes[calls - 1].Crash?
    ensures r.Accepted? && count > 0 ==>
              calls == count && r.record == ScanRecord(ip, 0, GoDiv(TotalRtt(probes[..count]), count))
  {
    var record := NewRecord(ip);
    var i := 0;
    calls := 0;
    while i < count
      invariant 0 <= i <= |probes| && (count > 0 ==> i <= count) && (count <= 0 ==> i == 0)
      invariant calls == i && forall j :: 0 <= j < i ==> Passed(probes[j])
      invariant record == ScanRecord(ip, 0, TotalRtt(probes[..i]))
      decreases count - i
    {
      calls := calls + 1;
      if probes[i].Crash? {
        return ProbePanicked, calls;
      }
      if !probes[i].pass {
        return Rejected, calls;
      }
      assert probes[..i + 1][..i] == probes[..i];
      record := record.(rtt := record.rtt + probes[i].rtt);
      i := i + 1;
    }
    if count == 0 {
      return ZeroCount, calls;
    }
    r := Accepted(record.(pingRtt := GoDiv(record.pingRtt, count), rtt := GoDiv(record.rtt, count)));
  }

  // ---------------------------------------------------------------------
  // The ledger

  /** `ScanOptions`: the records found so far and the count of addresses
      scanned, a Go `int32`. */
  datatype Ledger = Ledger(records: seq<ScanRecord>, counter: int32)

  /** Go's `int32` wrap-around. */
  function Wrap32(x: int): int32
  {
    (x + 0x8000_0000) % 0x1_0000_0000 - 0x8000_0000
  }

  /** `AddRecord`: one record more, at the end. */
  function AddRecord(l: Ledger, rec: ScanRecord): (r: Ledger)
    ensures RecordSize(r) == RecordSize(l) + 1 && r.records[RecordSize(l)] == rec
    ensures r.records[..RecordSize(l)] == l.records && r.counter == l.counter
  {
    l.(records := l.records + [rec])
  }

  /** `IncScanCounter`: one more address scanned; `atomic.AddInt32` wraps
      from the largest `int32` to the smallest. */
  function IncScanCounter(l: Ledger): (r: Ledger)
    ensures r.records == l.records
    ensures l.counter < 0x7FFF_FFFF ==> r.counter == l.counter + 1
    ensures l.counter == 0x7FFF_FFFF ==> r.counter == -0x8000_0000
  {
    var c := Wrap32(l.counter + 1);
    assert l.counter < 0x7FFF_FFFF ==> c == l.counter + 1 by {
      if l.counter < 0x7FFF_FFFF {
        DivUnique(l.counter + 1 + 0x8000_0000, 0x1_0000_0000, 0, l.counter + 1 + 0x8000_0000);
      }
    }
    assert l.counter == 0x7FFF_FFFF ==> c == -0x8000_0000 by {
      DivUnique(0x1_0000_0000, 0x1_0000_0000, 1, 0);
    }
    l.(counter := c)
  }

  /** `RecordSize`. */
  function RecordSize(l: Ledger): nat
  {
    |l.records|
  }

  /** Wrapping once per step is wrapping the total. */
  lemma WrapAdd(x: int, n: int)
    ensures Wrap32(Wrap32(x) + n) == Wrap32(x + n)
  {
    ModAdd(x + 0x8000_0000, n, 0x1_0000_0000);
  }

  // ---------------------------------------------------------------------
  // The worker

  /** What `Ping` does with an address under `VerifyPing`: it answers after
      `rtt`, returns an error, or panics (a slice or index out of range in
      its reply loop). */
  datatype PingSeen = Replied(rtt: int) | PingError | PingPanic

  /** What one address meets in `testip_worker`: the ping, the outcome of
      `testip`, and whether the scan was cancelled by the time a record was
      ready. Without `VerifyPing` the ping is not made and `ping` is
      ignored. */
  datatype Item = Item(ip: string, ping: PingSeen, test: TestOutcome, cancelled: bool)

  /** The ping gate: with `VerifyPing`, a ping that errs, or one faster than a
      positive minimum, skips the address. Equality with the minimum
      passes. */
  predicate PingGate(cfg: GScanConfig, it: Item)
  {
    !cfg.verifyPing
    || (it.ping.Replied? && !(cfg.ping.scanMinPingRtt > 0 && it.ping.rtt < cfg.ping.scanMinPingRtt))
  }

  /** The ping panics the worker: only with `VerifyPing`, which makes it. */
  predicate PingPanics(cfg: GScanConfig, it: Item)
  {
    cfg.verifyPing && it.ping.PingPanic?
  }

  /** The ping time the worker adds to an accepted record: measured only
      with `VerifyPing`. */
  function PingTime(cfg: GScanConfig, it: Item): int
  {
    if cfg.verifyPing && it.ping.Replied? then it.ping.rtt else 0
  }

  /** Where the worker is after one address: going on with a ledger,
      returned because the scan was cancelled, or crashed. A panic in a
      worker goroutine ends the whole process. */
  datatype Step = Going(l: Ledger) | Cancelled(l: Ledger) | Panicked

  /** The loop body of `testip_worker` for one address. */
  function WorkerStep(cfg: GScanConfig, l: Ledger, it: Item): Step
  {
    if PingPanics(cfg, it) then Panicked
    else if !PingGate(cfg, it) then Going(l)
    else
      match it.test
      case ZeroCount => Panicked
      case ProbePanicked => Panicked
      case Rejected => Going(IncScanCounter(l))
      case Accepted(rec) =>
        if it.cancelled then Cancelled(l)
        else Going(IncScanCounter(AddRecord(l, rec.(pingRtt := rec.pingRtt + PingTime(cfg, it)))))
  }

  /** The address ends the worker: its ping panics, or it passes the gate
      and then `testip` panics, or it brings a record after cancellation. */
  predicate Halts(cfg: GScanConfig, it: Item)
  {
    || PingPanics(cfg, it)
    || (PingGate(cfg, it) && (it.test.ZeroCount? || it.test.ProbePanicked? || (it.test.Accepted? && it.cancelled)))
  }

  /** The records the addresses bring, in order: the accepted ones past the
      ping gate, with the ping time added. */
  function Found(cfg: GScanConfig, items: seq<Item>): seq<ScanRecord>
    decreases |items|
  {
    if |items| == 0 then []
    else
      var it := items[|items| - 1];
      Found(cfg, items[..|items| - 1])
      + (if PingGate(cfg, it) && it.test.Accepted?
         then [it.test.record.(pingRtt := it.test.record.pingRtt + PingTime(cfg, it))]
         else [])
  }

  /** The number of addresses past the ping gate. */
  function Reached(cfg: GScanConfig, items: seq<Item>): nat
    decreases |items|
  {
    if |items| == 0 then 0
    else Reached(cfg, items[..|items| - 1]) + (if PingGate(cfg, items[|items| - 1]) then 1 else 0)
  }

  /** The ledger after the addresses `items`, none of which halts the
      worker. */
  function After(cfg: GScanConfig, l: Ledger, items: seq<Item>): Ledger
  {
    Ledger(l.records + Found(cfg, items), Wrap32(l.counter + Reached(cfg, items)))
  }

  /** One more address that does not halt the worker moves the ledger from
      `After` one prefix to the next. */
  lemma {:induction false} StepAfter(cfg: GScanConfig, l: Ledger, items: seq<Item>, i: nat)
    requires i < |items| && !Halts(cfg, items[i])
    ensures WorkerStep(cfg, After(cfg, l, items[..i]), items[i]) == Going(After(cfg, l, items[..i + 1]))
  {
    var it := items[i];
    assert items[..i + 1][..i] == items[..i];
    assert items[..i + 1][i] == it;
    var a := After(cfg, l, items[..i]);
    if PingGate(cfg, it) {
      WrapAdd(l.counter + Reached(cfg, items[..i]), 1);
      DivUnique(0x1_0000_0000, 0x1_0000_0000, 1, 0);
    }
  }

  /** `testip_worker` over the addresses it receives, in order. `k` is the
      number of addresses it finished: all of them, unless one halts it.
      The ledger it leaves holds the records found in the addresses before
      that point, and the counter grew by those past the ping gate. */
  method Worker(cfg: GScanConfig, l: Ledger, items: seq<Item>) returns (s: Step, k: nat)
    ensures k <= |items| && forall j :: 0 <= j < k ==> !Halts(cfg, items[j])
    ensures s.Going? <==> k == |items|
    ensures s.Going? ==> s.l == After(cfg, l, items)
    ensures s.Cancelled? ==> s.l == After(cfg, l, items[..k]) && items[k].cancelled && items[k].test.Accepted?
    ensures s.Panicked? ==> || PingPanics(cfg, items[k])
                            || (PingGate(cfg, items[k]) && (items[k].test.ZeroCount? || items[k].test.ProbePanicked?))
  {
    k := 0;
    var cur := l;
    assert items[..0] == [];
    while k < |items|
      invariant k <= |items| && forall j :: 0 <= j < k ==> !Halts(cfg, items[j])
      invariant cur == After(cfg, l, items[..k])
      decreases |items| - k
    {
      var step := WorkerStep(cfg, cur, items[k]);
      if step.Cancelled? || step.Panicked? {
        return step, k;
      }
      StepAfter(cfg, l, items, k);
      cur := step.l;
      k := k + 1;
    }
    assert items[..k] == items;
    s := Going(cur);
  }

  // ---------------------------------------------------------------------
  // The producer

  /** The producer loop of `Scan`. `interrupts[i]` says the interrupt
      signal won the `select` at the `i`-th address; `sizes[i]` is what
      `RecordSize` reads after the `i`-th send. The loop stops right after
      the first send at which the size has reached `limit`. `evalCount`
      counts the addresses sent, which are a prefix of the queue. */
  method Produce(ips: seq<string>, interrupts: seq<bool>, sizes: seq<int>, limit: int)
    returns (evalCount: nat, sent: seq<string>, interrupted: bool)
    requires |interrupts| == |ips| && |sizes| == |ips|
    ensures evalCount <= |ips| && sent == ips[..evalCount]
    ensures forall j :: 0 <= j < evalCount ==> !interrupts[j]
    ensures forall j :: 0 <= j < evalCount - 1 ==> sizes[j] < limit
    ensures interrupted ==> evalCount < |ips| && interrupts[evalCount]
    ensures interrupted ==> forall j :: 0 <= j < evalCount ==> sizes[j] < limit
    ensures !interrupted && evalCount < |ips| ==> evalCount > 0 && sizes[evalCount - 1] >= limit
  {
    evalCount := 0;
    sent := [];
    interrupted := false;
    while evalCount < |ips|
      invariant evalCount <= |ips| && sent == ips[..evalCount]
      invariant forall j :: 0 <= j < evalCount ==> !interrupts[j] && sizes[j] < limit
      decreases |ips| - evalCount
    {
      if interrupts[evalCount] {
        interrupted := true;
        return;
      }
      sent := sent + [ips[evalCount]];
      evalCount := evalCount + 1;
      if sizes[evalCount - 1] >= limit {
        return;
      }
    }
  }

  /** The sizes `RecordSize` reads when a single worker handles every
      address before the next is sent. */
  function SequentialSizes(cfg: GScanConfig, l: Ledger, items: seq<Item>): (sizes: seq<int>)
    ensures |sizes| == |items|
  {
    seq(|items|, j requires 0 <= j < |items| => RecordSize(After(cfg, l, items[..j + 1])))
  }

  /** Each address brings at most one record. */
  lemma FoundGrowsByOne(cfg: GScanConfig, items: seq<Item>, i: nat)
    requires i < |items|
    ensures |Found(cfg, items[..i + 1])| <= |Found(cfg, items[..i])| + 1
  {
    assert items[..i + 1][..i] == items[..i];
  }

  /** Under that schedule the quota is never overshot: the loop stops at
      the first send that brings the ledger to `limit` records, so it holds
      at most `limit` of them. (With concurrent workers it can overshoot.) */
  lemma SequentialQuota(cfg: GScanConfig, l: Ledger, items: seq<Item>, limit: int, evalCount: nat)
    requires evalCount <= |items| && RecordSize(l) < limit
    requires forall j :: 0 <= j < evalCount - 1 ==> SequentialSizes(cfg, l, items)[j] < limit
    ensures RecordSize(After(cfg, l, items[..evalCount])) <= limit
  {
    if evalCount > 0 {
      FoundGrowsByOne(cfg, items, evalCount - 1);
      if evalCount > 1 {
        assert SequentialSizes(cfg, l, items)[evalCount - 2] < limit;
      } else {
        assert items[..0] == [];
      }
    }
  }
}
