/** IPv4 range lines and their containment de-duplication (ip_range.go).

    An address is a dotted quad; a range is an inclusive interval of the
    big-endian 32-bit encodings. Parsing follows the range file grammar line
    by line; a Go run-time panic (index out of range) is an explicit outcome. */
module IpRange {
  import opened Common
  import opened Strings

  type Octet = n: int | 0 <= n < 256

  /** A CIDR prefix length. */
  type PrefixLen = n: int | 0 <= n <= 32

  /** An IPv4 address in its four-byte form. */
  datatype IPv4 = IPv4(a: Octet, b: Octet, c: Octet, d: Octet)

  const AddressSpace: nat := 0x1_0000_0000

  // ---------------------------------------------------------------------
  // Dotted quads (net.ParseIP and net.IP.String on IPv4)

  /** One field of a dotted quad: decimal digits, no leading zero, at most 255. */
  function ParseOctet(s: string): (o: Option<Octet>)
    ensures o.Some? ==> 1 <= |s| <= 3 && AllDigits(s)
  {
    if 1 <= |s| && AllDigits(s) && (|s| == 1 || s[0] != '0') && DecimalValue(s) <= 255 then
      LeadingDigitLength(s);
      Some(DecimalValue(s))
    else None
  }

  /** A digit string without a leading zero and value below 256 has at most three digits. */
  lemma LeadingDigitLength(s: string)
    requires 1 <= |s| && AllDigits(s) && (|s| == 1 || s[0] != '0') && DecimalValue(s) <= 255
    ensures |s| <= 3
  {
    FormatOfValue(s);
  }

  /** `net.ParseIP` restricted to dotted quads: exactly four fields. */
  function ParseIPv4(s: string): Option<IPv4>
  {
    var f := Split(s, '.');
    if |f| != 4 then None
    else
      match (ParseOctet(f[0]), ParseOctet(f[1]), ParseOctet(f[2]), ParseOctet(f[3]))
      case (Some(a), Some(b), Some(c), Some(d)) => Some(IPv4(a, b, c, d))
      case _ => None
  }

  function Fields(ip: IPv4): seq<string>
  {
    [FormatDecimal(ip.a), FormatDecimal(ip.b), FormatDecimal(ip.c), FormatDecimal(ip.d)]
  }

  /** `net.IP.String` for an IPv4 address. */
  function FormatIPv4(ip: IPv4): string
  {
    Join(Fields(ip), ".")
  }

  /** The characters of a printed address are digits and dots. */
  predicate DigitsAndDots(s: string)
  {
    forall c :: c in s ==> IsDigit(c) || c == '.'
  }

  lemma Join4(f: seq<string>, sep: string)
    requires |f| == 4
    ensures Join(f, sep) == f[0] + sep + (f[1] + sep + (f[2] + sep + f[3]))
  {
    assert f[1..][1..] == f[2..];
    assert f[2..][1..] == f[3..];
    assert Join(f[3..], sep) == f[3];
    assert Join(f[2..], sep) == f[2] + sep + f[3];
    assert Join(f[1..], sep) == f[1] + sep + (f[2] + sep + f[3]);
  }

  lemma DigitsOnly(s: string)
    requires AllDigits(s)
    ensures forall c :: c in s ==> IsDigit(c)
  {
    forall c | c in s
      ensures IsDigit(c)
    {
      var i :| 0 <= i < |s| && s[i] == c;
    }
  }

  lemma FormatIPv4Chars(ip: IPv4)
    ensures DigitsAndDots(FormatIPv4(ip))
    ensures '.' in FormatIPv4(ip)
  {
    var f := Fields(ip);
    Join4(f, ".");
    DigitsOnly(f[0]);
    DigitsOnly(f[1]);
    DigitsOnly(f[2]);
    DigitsOnly(f[3]);
    assert FormatIPv4(ip) == f[0] + "." + (f[1] + "." + (f[2] + "." + f[3]));
  }

  lemma SplitFormat(ip: IPv4)
    ensures Split(FormatIPv4(ip), '.') == Fields(ip)
  {
    var f := Fields(ip);
    forall i | 0 <= i < 4
      ensures '.' !in f[i]
    {
      DecimalHasNo(if i == 0 then ip.a else if i == 1 then ip.b else if i == 2 then ip.c else ip.d, '.');
    }
    SplitJoin(f, '.');
  }

  lemma ParseOctetFormat(o: Octet)
    ensures ParseOctet(FormatDecimal(o)) == Some(o)
  {
    DecimalRoundTrip(o);
  }

  /** Printing an address and parsing it back gives the address. */
  lemma ParseFormatIPv4(ip: IPv4)
    ensures ParseIPv4(FormatIPv4(ip)) == Some(ip)
  {
    SplitFormat(ip);
    ParseOctetFormat(ip.a);
    ParseOctetFormat(ip.b);
    ParseOctetFormat(ip.c);
    ParseOctetFormat(ip.d);
  }

  lemma FormatParseOctet(s: string)
    requires ParseOctet(s).Some?
    ensures FormatDecimal(ParseOctet(s).value) == s
  {
    FormatOfValue(s);
  }

  /** Only the canonical spelling of an address parses: printing what was
      parsed gives back the text. */
  lemma FormatParseIPv4(s: string)
    requires ParseIPv4(s).Some?
    ensures FormatIPv4(ParseIPv4(s).value) == s
  {
    var f := Split(s, '.');
    FormatParseOctet(f[0]);
    FormatParseOctet(f[1]);
    FormatParseOctet(f[2]);
    FormatParseOctet(f[3]);
    assert Fields(ParseIPv4(s).value) == f;
    JoinSplit(s, '.');
  }

  lemma ParsedIPv4Chars(s: string)
    requires ParseIPv4(s).Some?
    ensures DigitsAndDots(s) && '.' in s
    ensures TrimSpace(s) == s
  {
    FormatParseIPv4(s);
    FormatIPv4Chars(ParseIPv4(s).value);
    forall i | 0 <= i < |s|
      ensures !IsSpace(s[i])
    {
      assert s[i] in s;
    }
    TrimSpaceOfTrimmed(s);
  }

  // ---------------------------------------------------------------------
  // inet_aton / inet_ntoa

  /** `strconv.Atoi` on the digit strings it meets here; 0 on a syntax error. */
  function Atoi(s: string): nat
  {
    if 1 <= |s| && AllDigits(s) then DecimalValue(s) else 0
  }

  /** `inet_aton`: print the address, split the text at the dots, read each
      field back and combine them big-endian. */
  function InetAton(ip: IPv4): (n: int)
    ensures n == ip.a * 0x100_0000 + ip.b * 0x1_0000 + ip.c * 0x100 + ip.d
    ensures 0 <= n < AddressSpace
  {
    SplitFormat(ip);
    DecimalRoundTrip(ip.a);
    DecimalRoundTrip(ip.b);
    DecimalRoundTrip(ip.c);
    DecimalRoundTrip(ip.d);
    var bits := Split(FormatIPv4(ip), '.');
    Atoi(bits[0]) * 0x100_0000 + Atoi(bits[1]) * 0x1_0000 + Atoi(bits[2]) * 0x100 + Atoi(bits[3])
  }

  /** `inet_ntoa`: each byte of the address is one 8-bit field of the number,
      so only the low 32 bits matter. */
  function InetNtoa(n: int): (ip: IPv4)
  {
    IPv4((n / 0x100_0000) % 256, (n / 0x1_0000) % 256, (n / 0x100) % 256, n % 256)
  }

  /** The number an address encodes is its value modulo 2^32. */
  lemma AtonNtoa(n: int)
    ensures InetAton(InetNtoa(n)) == n % AddressSpace
  {
    var x1, d0 := n / 256, n % 256;
    var x2, d1 := x1 / 256, x1 % 256;
    var x3, d2 := x2 / 256, x2 % 256;
    var x4, d3 := x3 / 256, x3 % 256;
    var low := d3 * 0x100_0000 + d2 * 0x1_0000 + d1 * 0x100 + d0;
    assert n == x4 * AddressSpace + low;
    DivUnique(n, 0x1_0000, x2, d1 * 0x100 + d0);
    DivUnique(n, 0x100_0000, x3, d2 * 0x1_0000 + d1 * 0x100 + d0);
    DivUnique(n, AddressSpace, x4, low);
  }

  /** Encoding an address and decoding the number gives the address. */
  lemma NtoaAton(ip: IPv4)
    ensures InetNtoa(InetAton(ip)) == ip
  {
    var a, b, c, d: int := ip.a, ip.b, ip.c, ip.d;
    var n := InetAton(ip);
    assert (n / 0x100_0000) % 256 == a by {
      DivUnique(n, 0x100_0000, a, b * 0x1_0000 + c * 0x100 + d);
      DivUnique(a, 256, 0, a);
    }
    assert (n / 0x1_0000) % 256 == b by {
      DivUnique(n, 0x1_0000, a * 256 + b, c * 0x100 + d);
      DivUnique(a * 256 + b, 256, a, b);
    }
    assert (n / 0x100) % 256 == c by {
      DivUnique(n, 0x100, a * 0x1_0000 + b * 256 + c, d);
      DivUnique(a * 0x1_0000 + b * 256 + c, 256, a * 256 + b, c);
    }
    assert n % 256 == d by {
      DivUnique(n, 256, a * 0x1_0000 + b * 256 + c, d);
    }
  }

  // ---------------------------------------------------------------------
  // CIDR (net.ParseCIDR restricted to IPv4)

  datatype Cidr = Cidr(ip: IPv4, ones: PrefixLen)

  /** `net.ParseCIDR`: the address before the first '/', then a prefix length
      made of decimal digits only (leading zeros allowed) and at most 32. The
      address is the one written, not the masked network address. */
  function ParseCIDR(s: string): Option<Cidr>
  {
    if '/' !in s then None
    else
      var i := IndexOf(s, '/');
      var mask := s[i + 1..];
      match ParseIPv4(s[..i])
      case None => None
      case Some(ip) =>
        if 1 <= |mask| && AllDigits(mask) && DecimalValue(mask) <= 32 then Some(Cidr(ip, DecimalValue(mask)))
        else None
  }

  /** `v | (0xFFFFFFFF >> ones)` on a 32-bit value: the leading `ones` bits of
      `v` followed by all ones. A shift by 32 yields 0 in Go, so /32 keeps `v`. */
  function OrHostMask(v: int, ones: PrefixLen): (r: int)
    requires 0 <= v < AddressSpace
    ensures v <= r < AddressSpace
    ensures r / Pow2(32 - ones) == v / Pow2(32 - ones)
    ensures r % Pow2(32 - ones) == Pow2(32 - ones) - 1
  {
    var m := Pow2(32 - ones);
    HostMaskBound(v, ones);
    v - v % m + (m - 1)
  }

  lemma HostMaskBound(v: int, ones: PrefixLen)
    requires 0 <= v < AddressSpace
    ensures var m := Pow2(32 - ones);
            var r := v - v % m + (m - 1);
            v <= r < AddressSpace && r / m == v / m && r % m == m - 1
  {
    var m := Pow2(32 - ones);
    var top := Pow2(ones);
    assert top * m == AddressSpace by {
      Pow2Add(ones, 32 - ones);
      Pow2Values();
    }
    BlockEnd(v, m, top);
  }

  /** Setting the low bits of `v` within blocks of size `m` stays inside the
      block and inside the `top * m` space. */
  lemma BlockEnd(v: int, m: int, top: int)
    requires m >= 1 && top >= 1 && 0 <= v < top * m
    ensures var r := v - v % m + (m - 1);
            v <= r < top * m && r / m == v / m && r % m == m - 1
  {
    var q := v / m;
    var r := v - v % m + (m - 1);
    assert q < top by {
      if q >= top {
        MulLe(top, q, m);
      }
    }
    assert r < top * m by {
      MulLe(q + 1, top, m);
    }
    DivUnique(r, m, q, m - 1);
  }

  /** A CIDR line's last address: the written address with the host bits set. */
  function CidrEnd(c: Cidr): (e: int)
    ensures InetAton(c.ip) <= e < AddressSpace
  {
    OrHostMask(InetAton(c.ip), c.ones)
  }

  // ---------------------------------------------------------------------
  // Ranges and the line grammar

  /** An inclusive interval of 32-bit address numbers (StartIP..EndIP). */
  datatype IPRange = IPRange(start: int, end: int)

  predicate ValidRange(r: IPRange)
  {
    0 <= r.start <= r.end < AddressSpace
  }

  /** Outcome of `parseIPRange`. `RangePanic` is the run-time panic of slicing
      a start with fewer than three dots, or of `inet_aton` on an unparsable
      side (it indexes past the single field of "<nil>"). */
  datatype RangeParse = RangeOk(r: IPRange) | RangeInvalid | RangePanic

  /** `parseIPRange(start, end)`. An end without a dot is a last octet: it is
      completed with the first three fields of the start. */
  function ParseIPRange(start: string, end: string): (p: RangeParse)
    ensures p.RangeOk? ==> ValidRange(p.r)
  {
    var s := TrimSpace(start);
    var e0 := TrimSpace(end);
    var ss := Split(s, '.');
    if '.' !in e0 && |ss| < 3 then RangePanic
    else RangeBetween(s, if '.' !in e0 then Join(ss[..3], ".") + "." + e0 else e0)
  }

  /** The second half of `parseIPRange`: read both ends and compare them. A
      side that is not an address makes `inet_aton` panic. */
  function RangeBetween(s: string, e: string): (p: RangeParse)
    ensures p.RangePanic? <==> ParseIPv4(s).None? || ParseIPv4(e).None?
    ensures p.RangeInvalid? <==> && ParseIPv4(s).Some? && ParseIPv4(e).Some?
                                 && InetAton(ParseIPv4(s).value) > InetAton(ParseIPv4(e).value)
    ensures p.RangeOk? ==> p.r == IPRange(InetAton(ParseIPv4(s).value), InetAton(ParseIPv4(e).value))
    ensures p.RangeOk? ==> ValidRange(p.r)
  {
    match (ParseIPv4(s), ParseIPv4(e))
    case (Some(si), Some(ei)) =>
      if InetAton(si) > InetAton(ei) then RangeInvalid else RangeOk(IPRange(InetAton(si), InetAton(ei)))
    case _ => RangePanic
  }

  /** What one line of the range file contributes: nothing (comment or blank),
      a warning (malformed line, skipped), a range, or a panic that ends the load. */
  datatype LineResult = Ignored | Malformed | Parsed(r: IPRange) | Panics

  function FromRangeParse(p: RangeParse): LineResult
  {
    match p
    case RangeOk(r) => Parsed(r)
    case RangeInvalid => Malformed
    case RangePanic => Panics
  }

  /** The start written before the '/' of a mixed line's left side. */
  function MixedStart(left: string): string
  {
    if '/' in left then left[..IndexOf(left, '/')] else left
  }

  /** One line of `parseIPRangeFile`: single address, CIDR, `a-b`, `a-N`, or
      `a/n-b/m` (start before the left '/', end from the right CIDR). */
  function ParseLine(raw: string): (res: LineResult)
    ensures res.Parsed? ==> ValidRange(res.r)
  {
    var line := TrimSpace(raw);
    if HasPrefix(line, "#") || |line| == 0 then Ignored
    else if '-' in line && '/' in line then MixedLineResult(line)
    else if '/' in line then CidrLineResult(line)
    else if '-' in line then DashLineResult(line)
    else if ParseIPv4(line).None? then Malformed
    else FromRangeParse(ParseIPRange(line, line))
  }

  /** A line with both '-' and '/': the start before the left '/', the end of
      the CIDR on the right. */
  function MixedLineResult(line: string): (res: LineResult)
    ensures res.Parsed? ==> ValidRange(res.r)
  {
    var ss := Split(line, '-');
    if |ss| != 2 then Malformed
    else
      var startIP := MixedStart(ss[0]);
      if ParseIPv4(startIP).None? then Malformed
      else
        match ParseCIDR(ss[1])
        case None => Malformed
        case Some(c) => FromRangeParse(ParseIPRange(startIP, FormatIPv4(InetNtoa(CidrEnd(c)))))
  }

  /** A CIDR line: from the written address to the end of its block. */
  function CidrLineResult(line: string): (res: LineResult)
    ensures res.Parsed? ==> ValidRange(res.r)
  {
    match ParseCIDR(line)
    case None => Malformed
    case Some(c) => FromRangeParse(ParseIPRange(FormatIPv4(c.ip), FormatIPv4(InetNtoa(CidrEnd(c)))))
  }

  /** An `a-b` or `a-N` line. */
  function DashLineResult(line: string): (res: LineResult)
    ensures res.Parsed? ==> ValidRange(res.r)
  {
    var ss := Split(line, '-');
    if |ss| != 2 then Malformed else FromRangeParse(ParseIPRange(ss[0], ss[1]))
  }

  /** What each line of a file yields under `parse`, in order. */
  function MapLines(parse: string -> LineResult, lines: seq<string>): (res: seq<LineResult>)
    ensures |res| == |lines|
    ensures forall i :: 0 <= i < |lines| ==> res[i] == parse(lines[i])
  {
    seq(|lines|, i requires 0 <= i < |lines| => parse(lines[i]))
  }

  /** The line loop of `parseIPRangeFile` over what the lines yield: the ranges
      in order, or `None` once a line panics. */
  function Collect(res: seq<LineResult>): (out: Option<seq<IPRange>>)
    ensures out.Some? <==> forall i :: 0 <= i < |res| ==> !res[i].Panics?
    ensures out.Some? ==> |out.value| <= |res|
    ensures out.Some? ==> forall r :: r in out.value ==> Parsed(r) in res
  {
    if |res| == 0 then Some([])
    else
      assert forall x :: x in res[1..] ==> x in res;
      match (res[0], Collect(res[1..]))
      case (Panics, _) => None
      case (_, None) => None
      case (Parsed(r), Some(rest)) => Some([r] + rest)
      case (_, Some(rest)) => Some(rest)
  }

  /** The ranges of all lines of a file in order, or `None` when some line panics. */
  function ParseLines(lines: seq<string>): (res: Option<seq<IPRange>>)
    ensures res.Some? <==> forall i :: 0 <= i < |lines| ==> !ParseLine(lines[i]).Panics?
    ensures res.Some? ==> |res.value| <= |lines| && forall r :: r in res.value ==> ValidRange(r)
  {
    Collect(MapLines(ParseLine, lines))
  }

  // ---------------------------------------------------------------------
  // Containment de-duplication

  function Size(r: IPRange): int
  {
    r.end - r.start
  }

  /** `x` contains `y` in the sense of `contains`. */
  predicate Covers(x: IPRange, y: IPRange)
  {
    x.start <= y.start && x.end >= y.end
  }

  /** `contains(list, r)`: the loop over the kept ranges. */
  function ContainsRange(list: seq<IPRange>, r: IPRange): (b: bool)
    ensures b <==> exists x :: x in list && Covers(x, r)
  {
    if |list| == 0 then false
    else if Covers(list[0], r) then true
    else
      assert forall x :: x in list ==> x == list[0] || x in list[1..];
      ContainsRange(list[1..], r)
  }

  predicate SizeDescending(rs: seq<IPRange>)
  {
    forall i, j :: 0 <= i < j < |rs| ==> Size(rs[i]) >= Size(rs[j])
  }

  /** No range of the list contains another one of it. */
  predicate Antichain(rs: seq<IPRange>)
  {
    forall i, j :: 0 <= i < |rs| && 0 <= j < |rs| && i != j ==> !Covers(rs[i], rs[j])
  }

  /** Putting a range no smaller than the head in front keeps the order. */
  lemma ConsDescending(h: IPRange, t: seq<IPRange>)
    requires SizeDescending(t)
    requires |t| == 0 || Size(h) >= Size(t[0])
    ensures SizeDescending([h] + t)
  {
  }

  function InsertBySize(x: IPRange, rs: seq<IPRange>): (r: seq<IPRange>)
    requires SizeDescending(rs)
    ensures SizeDescending(r)
    ensures multiset(r) == multiset(rs) + multiset{x}
    ensures |r| == |rs| + 1
    ensures r[0] == x || (|rs| > 0 && r[0] == rs[0])
  {
    if |rs| == 0 || Size(rs[0]) <= Size(x) then
      ConsDescending(x, rs);
      [x] + rs
    else
      var tail := InsertBySize(x, rs[1..]);
      ConsDescending(rs[0], tail);
      assert rs == [rs[0]] + rs[1..];
      [rs[0]] + tail
  }

  /** The `sort.Slice` by size, largest first. Go's sort is not stable; this is
      one admissible order (ties keep input order). */
  function SortBySize(rs: seq<IPRange>): (r: seq<IPRange>)
    ensures SizeDescending(r)
    ensures multiset(r) == multiset(rs) && |r| == |rs|
  {
    if |rs| == 0 then []
    else
      assert rs == [rs[0]] + rs[1..];
      InsertBySize(rs[0], SortBySize(rs[1..]))
  }

  /** The keep-unless-contained loop: `kept` so far, `rest` still to see. */
  function DedupInto(kept: seq<IPRange>, rest: seq<IPRange>): seq<IPRange>
    decreases |rest|
  {
    if |rest| == 0 then kept
    else if ContainsRange(kept, rest[0]) then DedupInto(kept, rest[1..])
    else DedupInto(kept + [rest[0]], rest[1..])
  }

  function Dedup(sorted: seq<IPRange>): seq<IPRange>
  {
    DedupInto([], sorted)
  }

  /** The de-duplication of `parseIPRangeFile`: sort by size, then keep a range
      only if no kept range contains it. */
  function Canonicalize(rs: seq<IPRange>): seq<IPRange>
  {
    Dedup(SortBySize(rs))
  }

  /** `parseIPRangeFile` over the lines of the file. */
  function ParseIPRangeFile(lines: seq<string>): Option<seq<IPRange>>
  {
    match ParseLines(lines)
    case None => None
    case Some(rs) => Some(Canonicalize(rs))
  }

  /** Address `a` lies in some range of `rs`. */
  predicate InRanges(rs: seq<IPRange>, a: int)
  {
    exists r :: r in rs && r.start <= a <= r.end
  }
}
