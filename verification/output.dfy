/** The end of a scan in gscan.go: the records found are sorted by round
    trip and their addresses written in one of two layouts; and, before
    the scan, the operation named in the configuration picks the probe. */
module Output {
  import opened Common
  import opened Config
  import opened Strings

  // ---------------------------------------------------------------------
  // Sorting the records

  /** Ascending by round-trip time. */
  predicate Sorted(s: seq<ScanRecord>)
  {
    forall i, j :: 0 <= i < j < |s| ==> s[i].rtt <= s[j].rtt
  }

  /** Put `x` into a sorted list, before the first record that is not
      faster. */
  function Insert(x: ScanRecord, s: seq<ScanRecord>): (r: seq<ScanRecord>)
    requires Sorted(s)
    ensures Sorted(r) && multiset(r) == multiset(s) + multiset{x}
    ensures |r| == |s| + 1 && (r[0] == x || (|s| > 0 && r[0] == s[0]))
  {
    if |s| == 0 then [x]
    else if x.rtt <= s[0].rtt then [x] + s
    else
      var tail := Insert(x, s[1..]);
      assert s == [s[0]] + s[1..];
      assert s[0].rtt <= tail[0].rtt;
      [s[0]] + tail
  }

  /** `sort.Slice(records, ...)` by round trip. The key the code names,
      `SSLRTT`, is not a field of `ScanRecord`, which has `RTT` only, so
      the sort is by `RTT`. `sort.Slice` is not stable: records with equal
      times may come out in any order, and this is one of them. */
  function SortByRtt(records: seq<ScanRecord>): (r: seq<ScanRecord>)
    ensures Sorted(r) && multiset(r) == multiset(records) && |r| == |records|
  {
    if |records| == 0 then []
    else
      assert records == [records[0]] + records[1..];
      Insert(records[0], SortByRtt(records[1..]))
  }

  /** Sorting keeps exactly the records: each record found is written out,
      and nothing else. */
  lemma SortKeepsRecords(records: seq<ScanRecord>, x: ScanRecord)
    ensures x in SortByRtt(records) <==> x in records
  {
    var r := SortByRtt(records);
    assert x in r <==> x in multiset(r);
    assert x in records <==> x in multiset(records);
  }

  /** The addresses, in record order. */
  function Ips(records: seq<ScanRecord>): (a: seq<string>)
    ensures |a| == |records|
  {
    seq(|records|, i requires 0 <= i < |records| => records[i].ip)
  }

  // ---------------------------------------------------------------------
  // The two output layouts

  /** The quote around each address in the `gop` layout. */
  const Quote: string := "\""

  /** What stands between two quoted addresses in the `gop` layout. */
  const Gap: string := ", "

  /** The text written to the output file, or `None` when no record was
      found and nothing is written. With the separator `gop` every address
      is quoted and followed by a comma; otherwise the addresses are joined
      with the separator. */
  function Output(records: seq<ScanRecord>, separator: string): (r: Option<string>)
    ensures r.None? <==> |records| == 0
  {
    if |records| == 0 then None
    else
      var a := Ips(SortByRtt(records));
      if separator == "gop" then Some(Quote + Join(a, Quote + Gap + Quote) + Quote + ",")
      else Some(Join(a, separator))
  }

  /** Each text between `open` and `close`. */
  function Wrap(a: seq<string>, open: string, close: string): (w: seq<string>)
    ensures |w| == |a|
  {
    seq(|a|, i requires 0 <= i < |a| => open + a[i] + close)
  }

  /** Joining on `close + sep + open` and wrapping the whole is joining the
      wrapped texts on `sep`. */
  lemma {:induction false} WrappedJoin(a: seq<string>, open: string, close: string, sep: string)
    requires |a| >= 1
    ensures open + Join(a, close + sep + open) + close == Join(Wrap(a, open, close), sep)
    decreases |a|
  {
    if |a| > 1 {
      var inner := Join(a[1..], close + sep + open);
      WrappedJoin(a[1..], open, close, sep);
      assert Wrap(a[1..], open, close) == Wrap(a, open, close)[1..];
      assert open + Join(a, close + sep + open) + close
          == (open + a[0] + close) + sep + (open + inner + close);
    }
  }

  /** The `gop` layout quotes every address and puts ", " between them and
      a comma after the last. */
  lemma GopQuotes(records: seq<ScanRecord>)
    requires |records| > 0
    ensures Output(records, "gop") == Some(Join(Wrap(Ips(SortByRtt(records)), Quote, Quote), Gap) + ",")
  {
    WrappedJoin(Ips(SortByRtt(records)), Quote, Quote, Gap);
  }

  /** With a one-character separator that no address contains, the file
      splits back into the sorted addresses. */
  lemma PlainSplits(records: seq<ScanRecord>, sep: char)
    requires |records| > 0
    requires forall i :: 0 <= i < |records| ==> sep !in records[i].ip
    ensures Output(records, [sep]).Some?
    ensures Split(Output(records, [sep]).value, sep) == Ips(SortByRtt(records))
  {
    var s := SortByRtt(records);
    var a := Ips(s);
    forall i | 0 <= i < |a| ensures sep !in a[i] {
      assert s[i] in multiset(records);
    }
    assert [sep] != "gop";
    SplitJoin(a, sep);
  }

  /** The addresses come out fastest first. */
  lemma OutputOrdered(records: seq<ScanRecord>, i: nat, j: nat)
    requires i < j < |records|
    ensures SortByRtt(records)[i].rtt <= SortByRtt(records)[j].rtt
    ensures Ips(SortByRtt(records))[i] == SortByRtt(records)[i].ip
  {
  }

  // ---------------------------------------------------------------------
  // Choosing the probe

  /** The probes `testIPFunc` can be set to. */
  datatype ProbeKind = QuicProbe | TlsProbe | SniProbe

  /** The operation name that selects each probe. */
  function ProbeName(p: ProbeKind): string
  {
    match p
    case QuicProbe => "quic"
    case TlsProbe => "tls"
    case SniProbe => "sni"
  }

  /** The settings each probe runs with. */
  function SettingsOf(g: GScanConfig, p: ProbeKind): ScanConfig
  {
    match p
    case QuicProbe => g.quic
    case TlsProbe => g.tls
    case SniProbe => g.sni
  }

  /** The operation, lower-cased, picks the settings and the probe; any
      other name, `socks5` included, leaves both unset (`None`), and the
      scan cannot start, since the next statement reads the unset settings'
      input file. */
  function Dispatch(g: GScanConfig): (r: Option<(ScanConfig, ProbeKind)>)
    ensures r.Some? ==> ToLower(g.operation) == ProbeName(r.value.1) && r.value.0 == SettingsOf(g, r.value.1)
    ensures r.None? ==> forall p: ProbeKind :: ToLower(g.operation) != ProbeName(p)
  {
    var op := ToLower(g.operation);
    if op == "quic" then Some((g.quic, QuicProbe))
    else if op == "tls" then Some((g.tls, TlsProbe))
    else if op == "sni" then Some((g.sni, SniProbe))
    else None
  }

  /** Each probe's own name selects it. */
  lemma DispatchByName(g: GScanConfig, p: ProbeKind)
    requires g.operation == ProbeName(p)
    ensures Dispatch(g) == Some((SettingsOf(g, p), p))
  {
    assert ToLower(g.operation) == g.operation;
  }

  /** Lower-casing twice is lower-casing once. */
  lemma LowerIdempotent(s: string)
    ensures ToLower(ToLower(s)) == ToLower(s)
  {
  }

  /** The case of the operation does not matter. */
  lemma DispatchIgnoresCase(g: GScanConfig)
    ensures Dispatch(g.(operation := ToLower(g.operation))) == Dispatch(g)
  {
    LowerIdempotent(g.operation);
  }
}
