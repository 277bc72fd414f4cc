/** What the range file grammar and the containment de-duplication of
    ip_range.go guarantee: how each kind of line reads, that skipped lines
    change nothing, and that the kept ranges cover exactly the addresses of
    the file without one containing another. */
module IpRangeFacts {
  import opened Common
  import opened Strings
  import opened IpRange

  // ---------------------------------------------------------------------
  // Text of printed addresses

  /** A line made only of digits, dots, dashes and slashes is its own trim. */
  lemma PlainLine(s: string)
    requires forall c :: c in s ==> IsDigit(c) || c == '.' || c == '-' || c == '/'
    ensures TrimSpace(s) == s
  {
    forall i | 0 <= i < |s|
      ensures !IsSpace(s[i])
    {
      assert s[i] in s;
    }
    TrimSpaceOfTrimmed(s);
  }

  /** A line that starts with a digit or a dot is not a comment. */
  lemma NotComment(s: string)
    requires |s| > 0 && (IsDigit(s[0]) || s[0] == '.')
    ensures !HasPrefix(s, "#") && |s| != 0
  {
  }

  /** The characters of a printed address. */
  lemma PrintedText(ip: IPv4)
    ensures var f := FormatIPv4(ip);
            DigitsAndDots(f) && '.' in f && |f| > 0 && (IsDigit(f[0]) || f[0] == '.')
            && TrimSpace(f) == f && '-' !in f && '/' !in f
  {
    var f := FormatIPv4(ip);
    FormatIPv4Chars(ip);
    assert f[0] in f;
    PlainLine(f);
  }

  /** Facts about a printed address used by every line shape. */
  lemma Printed(ip: IPv4)
    ensures var f := FormatIPv4(ip);
            DigitsAndDots(f) && '.' in f && |f| > 0 && (IsDigit(f[0]) || f[0] == '.')
            && ParseIPv4(f) == Some(ip) && TrimSpace(f) == f
            && '-' !in f && '/' !in f
  {
    PrintedText(ip);
    ParseFormatIPv4(ip);
  }

  lemma Join2(x: string, y: string, sep: string)
    ensures Join([x, y], sep) == x + sep + y
  {
    assert [x, y][1..] == [y];
  }

  /** The range an address pair yields once both ends are printed addresses. */
  lemma RangeOfPrinted(ip1: IPv4, ip2: IPv4)
    ensures RangeBetween(FormatIPv4(ip1), FormatIPv4(ip2))
            == if InetAton(ip1) <= InetAton(ip2) then RangeOk(IPRange(InetAton(ip1), InetAton(ip2)))
               else RangeInvalid
    ensures ParseIPRange(FormatIPv4(ip1), FormatIPv4(ip2)) == RangeBetween(FormatIPv4(ip1), FormatIPv4(ip2))
  {
    Printed(ip1);
    Printed(ip2);
  }

  /** Printing the address of a number below 2^32 and reading it back gives the number. */
  lemma AtonOfNtoa(e: int)
    requires 0 <= e < AddressSpace
    ensures InetAton(InetNtoa(e)) == e
  {
    AtonNtoa(e);
    DivUnique(e, AddressSpace, 0, e);
  }

  // ---------------------------------------------------------------------
  // The line shapes

  /** A line holding one address is the one-address range. */
  lemma LineSingle(raw: string)
    requires ParseIPv4(TrimSpace(raw)).Some?
    ensures var n := InetAton(ParseIPv4(TrimSpace(raw)).value);
            ParseLine(raw) == Parsed(IPRange(n, n))
  {
    var line := TrimSpace(raw);
    var ip := ParseIPv4(line).value;
    FormatParseIPv4(line);
    Printed(ip);
    NotComment(line);
    RangeOfPrinted(ip, ip);
  }

  /** A CIDR line runs from the written address to the end of its block. */
  lemma LineCidr(raw: string, c: Cidr)
    requires '-' !in TrimSpace(raw) && ParseCIDR(TrimSpace(raw)) == Some(c)
    ensures ParseLine(raw) == Parsed(IPRange(InetAton(c.ip), CidrEnd(c)))
  {
    var line := TrimSpace(raw);
    var i := IndexOf(line, '/');
    ParsedIPv4Chars(line[..i]);
    assert line[..i][0] in line[..i];
    assert line[..i][0] == line[0];
    NotComment(line);
    var e := CidrEnd(c);
    AtonOfNtoa(e);
    RangeOfPrinted(c.ip, InetNtoa(e));
  }

  /** The CIDR range holds exactly the addresses from the written one up to
      the end of its block: those at or above it that agree with it on the
      leading `ones` bits. */
  lemma CidrBlock(c: Cidr, a: int)
    requires 0 <= a < AddressSpace
    ensures var m := Pow2(32 - c.ones);
            InetAton(c.ip) <= a <= CidrEnd(c)
            <==> InetAton(c.ip) <= a && a / m == InetAton(c.ip) / m
  {
    var v, r, m := InetAton(c.ip), CidrEnd(c), Pow2(32 - c.ones);
    assert v <= a <= r <==> v <= a && a / m == v / m by {
      BlockMembers(v, r, m, a);
    }
  }

  /** Within blocks of size `m`, the numbers from `v` to the end `r` of its
      block are those at or above `v` in the same block. */
  lemma BlockMembers(v: int, r: int, m: int, a: int)
    requires m > 0 && v <= r && r / m == v / m && r % m == m - 1
    ensures v <= a <= r <==> v <= a && a / m == v / m
  {
    if v <= a <= r {
      DivMono(v, a, m);
      DivMono(a, r, m);
    }
    if v <= a && a / m == v / m {
      assert a == (a / m) * m + a % m;
      assert r == (r / m) * m + r % m;
    }
  }

  /** `/32` is a single address and `/0` runs to the last address. */
  lemma CidrExtremes(c: Cidr)
    ensures c.ones == 32 ==> CidrEnd(c) == InetAton(c.ip)
    ensures c.ones == 0 ==> CidrEnd(c) == AddressSpace - 1
  {
    var v, r, m := InetAton(c.ip), CidrEnd(c), Pow2(32 - c.ones);
    assert r / m == v / m && r % m == m - 1 && 0 <= v <= r < AddressSpace;
    assert c.ones == 32 ==> r == v by {
      if c.ones == 32 {
        assert m == 1;
        DivUnique(r, 1, r, 0);
        DivUnique(v, 1, v, 0);
      }
    }
    assert c.ones == 0 ==> r == AddressSpace - 1 by {
      if c.ones == 0 {
        Pow2Values();
        DivUnique(r, m, 0, r);
      }
    }
  }

  /** For a written address on a block boundary the CIDR range is the whole
      block. */
  lemma CidrAligned(c: Cidr)
    requires InetAton(c.ip) % Pow2(32 - c.ones) == 0
    ensures CidrEnd(c) == InetAton(c.ip) + Pow2(32 - c.ones) - 1
  {
  }

  /** A full `a-b` line is the range from `a` to `b`, or is skipped when `a` is
      the larger. */
  lemma LineDashFull(ip1: IPv4, ip2: IPv4)
    ensures ParseLine(FormatIPv4(ip1) + "-" + FormatIPv4(ip2))
            == if InetAton(ip1) <= InetAton(ip2) then Parsed(IPRange(InetAton(ip1), InetAton(ip2)))
               else Malformed
  {
    var f1, f2 := FormatIPv4(ip1), FormatIPv4(ip2);
    FormatIPv4Chars(ip1);
    FormatIPv4Chars(ip2);
    DashTextOf(f1, f2);
    DashLine(f1 + "-" + f2, f1, f2);
    RangeOfPrinted(ip1, ip2);
  }

  /** Two pieces of digits and dots joined by a '-' make a plain line with
      that one '-' and no '/'. */
  lemma DashTextOf(x: string, y: string)
    requires DigitsAndDots(x) && DigitsAndDots(y) && |x| > 0
    ensures var line := x + "-" + y;
            TrimSpace(line) == line && |line| > 0 && !HasPrefix(line, "#") && '/' !in line && '-' in line
            && Split(line, '-') == [x, y]
  {
    var line := x + "-" + y;
    forall c | c in line
      ensures IsDigit(c) || c == '.' || c == '-'
    {
      assert c in x || c == '-' || c in y;
    }
    PlainLine(line);
    assert x[0] in x;
    assert line[0] == x[0];
    NotComment(line);
    Join2(x, y, "-");
    SplitJoin([x, y], '-');
  }

  /** How the grammar reads a plain line cut by its one '-' into `x` and `y`. */
  lemma DashLine(line: string, x: string, y: string)
    requires TrimSpace(line) == line && |line| > 0 && !HasPrefix(line, "#")
    requires '/' !in line && '-' in line && Split(line, '-') == [x, y]
    ensures ParseLine(line) == FromRangeParse(ParseIPRange(x, y))
  {
  }

  /** The text a short end is completed to: the first three fields of the start
      and the last octet. */
  lemma ShortEndText(ip: IPv4, e: Octet)
    ensures var ss := Split(FormatIPv4(ip), '.');
            |ss| == 4 && Join(ss[..3], ".") + "." + FormatDecimal(e) == FormatIPv4(IPv4(ip.a, ip.b, ip.c, e))
  {
    var last := IPv4(ip.a, ip.b, ip.c, e);
    var ss := Split(FormatIPv4(ip), '.');
    SplitFormat(ip);
    assert ss[..3][1..] == [ss[1], ss[2]];
    Join2(ss[1], ss[2], ".");
    assert Join(ss[..3], ".") == ss[0] + "." + (ss[1] + "." + ss[2]);
    Join4(Fields(last), ".");
  }

  /** `parseIPRange` with a last octet as its end reads the completed address. */
  lemma ShortEndRange(ip: IPv4, e: Octet)
    ensures ParseIPRange(FormatIPv4(ip), FormatDecimal(e))
            == RangeBetween(FormatIPv4(ip), FormatIPv4(IPv4(ip.a, ip.b, ip.c, e)))
  {
    var f, d := FormatIPv4(ip), FormatDecimal(e);
    var g := FormatIPv4(IPv4(ip.a, ip.b, ip.c, e));
    assert TrimSpace(f) == f by { PrintedText(ip); }
    assert TrimSpace(g) == g && '.' in g by { PrintedText(IPv4(ip.a, ip.b, ip.c, e)); }
    assert TrimSpace(d) == d && '.' !in d by {
      DigitsOnly(d);
      DecimalHasNo(e, '.');
      PlainLine(d);
    }
    assert |Split(f, '.')| == 4 && Join(Split(f, '.')[..3], ".") + "." + d == g by {
      ShortEndText(ip, e);
    }
  }

  /** A short `a.b.c.d-e` line ends at `a.b.c.e`; it is skipped when `e < d`. */
  lemma LineDashShort(ip: IPv4, e: Octet)
    ensures var last := IPv4(ip.a, ip.b, ip.c, e);
            ParseLine(FormatIPv4(ip) + "-" + FormatDecimal(e))
            == if ip.d <= e then Parsed(IPRange(InetAton(ip), InetAton(last))) else Malformed
  {
    var last := IPv4(ip.a, ip.b, ip.c, e);
    var f1, d := FormatIPv4(ip), FormatDecimal(e);
    FormatIPv4Chars(ip);
    DigitsOnly(d);
    DashTextOf(f1, d);
    DashLine(f1 + "-" + d, f1, d);
    ShortEndRange(ip, e);
    RangeOfPrinted(ip, last);
  }

  /** How the grammar reads a line with some '/' cut by its one '-' into
      `left` and `right`. */
  lemma MixedLine(line: string, left: string, right: string)
    requires TrimSpace(line) == line && |line| > 0 && !HasPrefix(line, "#")
    requires '/' in line && '-' in line && Split(line, '-') == [left, right]
    requires ParseIPv4(MixedStart(left)).Some?
    ensures ParseLine(line)
            == match ParseCIDR(right)
               case None => Malformed
               case Some(c) => FromRangeParse(ParseIPRange(MixedStart(left), FormatIPv4(InetNtoa(CidrEnd(c)))))
  {
  }

  /** A printed CIDR reads back as itself. */
  lemma CidrText(ip: IPv4, ones: PrefixLen)
    ensures ParseCIDR(FormatIPv4(ip) + "/" + FormatDecimal(ones)) == Some(Cidr(ip, ones))
  {
    var f, d := FormatIPv4(ip), FormatDecimal(ones);
    assert '/' !in f by { PrintedText(ip); }
    assert ParseIPv4(f) == Some(ip) by { ParseFormatIPv4(ip); }
    assert 1 <= |d| && AllDigits(d) && DecimalValue(d) == ones by { DecimalRoundTrip(ones); }
    CidrOfParts(f, d, ip, ones);
  }

  /** `ParseCIDR` on an address, a '/' and a prefix length. */
  lemma CidrOfParts(f: string, d: string, ip: IPv4, ones: PrefixLen)
    requires '/' !in f && ParseIPv4(f) == Some(ip)
    requires 1 <= |d| && AllDigits(d) && DecimalValue(d) == ones
    ensures ParseCIDR(f + "/" + d) == Some(Cidr(ip, ones))
  {
    var t := f + "/" + d;
    assert '/' in t && IndexOf(t, '/') == |f| by {
      IndexOfAfter(f, "/" + d, '/');
      assert f + ("/" + d) == t;
    }
    assert t[..|f|] == f && t[|f| + 1..] == d;
  }

  /** A printed `a/n` line runs from `a` to the end of its block. */
  lemma LineCidrText(ip: IPv4, ones: PrefixLen)
    ensures ParseLine(FormatIPv4(ip) + "/" + FormatDecimal(ones))
            == Parsed(IPRange(InetAton(ip), CidrEnd(Cidr(ip, ones))))
  {
    var f, d := FormatIPv4(ip), FormatDecimal(ones);
    var line := f + "/" + d;
    assert TrimSpace(line) == line && '-' !in line by {
      PrintedText(ip);
      DigitsOnly(d);
      forall c | c in line
        ensures IsDigit(c) || c == '.' || c == '/'
      {
        assert c in f || c == '/' || c in d;
      }
      PlainLine(line);
    }
    assert ParseCIDR(line) == Some(Cidr(ip, ones)) by { CidrText(ip, ones); }
    LineCidr(line, Cidr(ip, ones));
  }

  /** The start of a mixed line is the address before any '/' on the left. */
  lemma MixedStartText(ip: IPv4, suffix: string)
    requires suffix == [] || suffix[0] == '/'
    ensures MixedStart(FormatIPv4(ip) + suffix) == FormatIPv4(ip)
  {
    var f := FormatIPv4(ip);
    PrintedText(ip);
    if suffix == [] {
      assert f + suffix == f;
    } else {
      IndexOfAfter(f, suffix, '/');
      assert (f + suffix)[..|f|] == f;
    }
  }

  /** Text made of digits, dots and slashes only. */
  predicate CidrChars(s: string)
  {
    forall c :: c in s ==> IsDigit(c) || c == '.' || c == '/'
  }

  /** The two sides of a mixed line are made of digits, dots and slashes, the
      left one starts with a digit and the right one holds a '/'. */
  lemma MixedSides(ip1: IPv4, suffix: string, ip2: IPv4, ones: PrefixLen)
    requires CidrChars(suffix)
    ensures var left := FormatIPv4(ip1) + suffix;
            var right := FormatIPv4(ip2) + "/" + FormatDecimal(ones);
            CidrChars(left) && CidrChars(right) && |left| > 0 && (IsDigit(left[0]) || left[0] == '.')
            && '/' in right
  {
    var f1, f2, d := FormatIPv4(ip1), FormatIPv4(ip2), FormatDecimal(ones);
    PrintedText(ip1);
    FormatIPv4Chars(ip2);
    DigitsOnly(d);
    assert (f1 + suffix)[0] == f1[0];
    assert (f2 + "/" + d)[|f2|] == '/';
    forall c | c in f1 + suffix
      ensures IsDigit(c) || c == '.' || c == '/'
    {
      assert c in f1 || c in suffix;
    }
    forall c | c in f2 + "/" + d
      ensures IsDigit(c) || c == '.' || c == '/'
    {
      assert c in f2 || c == '/' || c in d;
    }
  }

  /** Two sides of digits, dots and slashes joined by a '-' make a plain line
      with that one '-'. */
  lemma MixedTextOf(x: string, y: string)
    requires CidrChars(x) && CidrChars(y) && |x| > 0 && (IsDigit(x[0]) || x[0] == '.') && '/' in y
    ensures var line := x + "-" + y;
            TrimSpace(line) == line && |line| > 0 && !HasPrefix(line, "#")
            && '/' in line && '-' in line && Split(line, '-') == [x, y]
  {
    var line := x + "-" + y;
    forall c | c in line
      ensures IsDigit(c) || c == '.' || c == '-' || c == '/'
    {
      assert c in x || c == '-' || c in y;
    }
    PlainLine(line);
    assert line[0] == x[0];
    NotComment(line);
    Join2(x, y, "-");
    SplitJoin([x, y], '-');
  }

  /** A mixed line's text: the grammar takes the start from the left and the
      CIDR from the right. */
  lemma MixedLineText(ip1: IPv4, suffix: string, ip2: IPv4, ones: PrefixLen)
    requires suffix == [] || suffix[0] == '/'
    requires CidrChars(suffix)
    ensures ParseLine(FormatIPv4(ip1) + suffix + "-" + (FormatIPv4(ip2) + "/" + FormatDecimal(ones)))
            == FromRangeParse(ParseIPRange(FormatIPv4(ip1), FormatIPv4(InetNtoa(CidrEnd(Cidr(ip2, ones))))))
  {
    var left := FormatIPv4(ip1) + suffix;
    var right := FormatIPv4(ip2) + "/" + FormatDecimal(ones);
    MixedSides(ip1, suffix, ip2, ones);
    MixedTextOf(left, right);
    MixedStartText(ip1, suffix);
    assert ParseIPv4(FormatIPv4(ip1)).Some? by { ParseFormatIPv4(ip1); }
    CidrText(ip2, ones);
    MixedLine(left + "-" + right, left, right);
  }

  /** A mixed `a[/n]-b/m` line starts at `a` and ends where the CIDR `b/m` ends. */
  lemma LineMixed(ip1: IPv4, suffix: string, ip2: IPv4, ones: PrefixLen)
    requires suffix == [] || suffix[0] == '/'
    requires CidrChars(suffix)
    ensures var c := Cidr(ip2, ones);
            ParseLine(FormatIPv4(ip1) + suffix + "-" + (FormatIPv4(ip2) + "/" + FormatDecimal(ones)))
            == if InetAton(ip1) <= CidrEnd(c) then Parsed(IPRange(InetAton(ip1), CidrEnd(c))) else Malformed
  {
    RangeToNumber(ip1, CidrEnd(Cidr(ip2, ones)));
    MixedLineText(ip1, suffix, ip2, ones);
  }

  /** A range from a printed address to the printed form of a number. */
  lemma RangeToNumber(ip: IPv4, e: int)
    requires 0 <= e < AddressSpace
    ensures FromRangeParse(ParseIPRange(FormatIPv4(ip), FormatIPv4(InetNtoa(e))))
            == if InetAton(ip) <= e then Parsed(IPRange(InetAton(ip), e)) else Malformed
  {
    AtonOfNtoa(e);
    RangeOfPrinted(ip, InetNtoa(e));
  }

  /** A line with a '-' that `strings.Split` does not cut in exactly two is skipped. */
  lemma LineManyDashes(raw: string)
    requires !HasPrefix(TrimSpace(raw), "#")
    requires Count(TrimSpace(raw), '-') >= 2
    ensures ParseLine(raw) == Malformed
  {
    var line := TrimSpace(raw);
    SplitCount(line, '-');
    assert '-' in multiset(line);
  }

  // ---------------------------------------------------------------------
  // The line loop

  /** The loop over two blocks of results is the loop over each. */
  lemma {:induction false} CollectConcat(x: seq<LineResult>, y: seq<LineResult>)
    ensures Collect(x + y)
            == if Collect(x).Some? && Collect(y).Some? then Some(Collect(x).value + Collect(y).value)
               else None
    decreases |x|
  {
    if |x| == 0 {
      assert x + y == y;
      if Collect(y).Some? {
        assert [] + Collect(y).value == Collect(y).value;
      }
    } else {
      CollectConcat(x[1..], y);
      assert (x + y)[0] == x[0];
      assert (x + y)[1..] == x[1..] + y;
      var tail, cy := Collect(x[1..]), Collect(y);
      if x[0].Parsed? && tail.Some? && cy.Some? {
        assert [x[0].r] + (tail.value + cy.value) == ([x[0].r] + tail.value) + cy.value;
      }
    }
  }

  lemma MapLinesConcat(parse: string -> LineResult, a: seq<string>, b: seq<string>)
    ensures MapLines(parse, a + b) == MapLines(parse, a) + MapLines(parse, b)
  {
  }

  /** Reading two blocks of lines one after the other reads each on its own. */
  lemma ParseLinesConcat(a: seq<string>, b: seq<string>)
    ensures ParseLines(a + b)
            == if ParseLines(a).Some? && ParseLines(b).Some? then Some(ParseLines(a).value + ParseLines(b).value)
               else None
  {
    MapLinesConcat(ParseLine, a, b);
    CollectConcat(MapLines(ParseLine, a), MapLines(ParseLine, b));
  }

  /** A result that is not a range and not a panic leaves the loop's outcome alone. */
  lemma CollectSkip(x: seq<LineResult>, r: LineResult, y: seq<LineResult>)
    requires r.Ignored? || r.Malformed?
    ensures Collect(x + [r] + y) == Collect(x + y)
  {
    assert x + [r] + y == x + ([r] + y);
    assert ([r] + y)[1..] == y;
    CollectConcat(x, [r] + y);
    CollectConcat(x, y);
  }

  /** Whatever the per-line reader, a line it skips drops out of the loop. */
  lemma MapLinesSkip(parse: string -> LineResult, pre: seq<string>, bad: string, post: seq<string>)
    requires parse(bad).Ignored? || parse(bad).Malformed?
    ensures Collect(MapLines(parse, pre + [bad] + post)) == Collect(MapLines(parse, pre + post))
  {
    var a, b := MapLines(parse, pre), MapLines(parse, post);
    MapLinesConcat(parse, pre + [bad], post);
    MapLinesConcat(parse, pre, [bad]);
    MapLinesConcat(parse, pre, post);
    assert MapLines(parse, [bad]) == [parse(bad)];
    assert MapLines(parse, pre + [bad] + post) == a + [parse(bad)] + b;
    CollectSkip(a, parse(bad), b);
  }

  /** A comment, blank or malformed line contributes nothing. */
  lemma ParseLinesSkip(pre: seq<string>, bad: string, post: seq<string>)
    requires ParseLine(bad).Ignored? || ParseLine(bad).Malformed?
    ensures ParseLines(pre + [bad] + post) == ParseLines(pre + post)
  {
    MapLinesSkip(ParseLine, pre, bad, post);
  }

  // ---------------------------------------------------------------------
  // De-duplication

  /** The keep loop only appends, keeps only ranges it saw, and leaves every
      range it saw contained in one it kept. */
  lemma {:induction false} DedupIntoKeeps(kept: seq<IPRange>, rest: seq<IPRange>)
    ensures var out := DedupInto(kept, rest);
            |kept| <= |out| && out[..|kept|] == kept
            && (forall y :: y in out ==> y in kept || y in rest)
            && (forall x :: x in rest ==> ContainsRange(out, x))
    decreases |rest|
  {
    if |rest| > 0 {
      var x := rest[0];
      assert forall z :: z in rest ==> z == x || z in rest[1..];
      if ContainsRange(kept, x) {
        DedupIntoKeeps(kept, rest[1..]);
        var out := DedupInto(kept, rest[1..]);
        assert forall k :: k in kept ==> k in out by {
          forall k | k in kept
            ensures k in out
          {
            assert k in out[..|kept|];
          }
        }
      } else {
        var kept' := kept + [x];
        DedupIntoKeeps(kept', rest[1..]);
        var out := DedupInto(kept', rest[1..]);
        assert out[..|kept|] == out[..|kept'|][..|kept|];
        assert x == out[|kept|];
        assert Covers(x, x);
      }
    }
  }

  /** Removing one element keeps a list sorted. */
  lemma DropSorted(s: seq<IPRange>, k: nat)
    requires SizeDescending(s) && k < |s|
    ensures SizeDescending(s[..k] + s[k + 1..])
  {
    var t := s[..k] + s[k + 1..];
    forall i, j | 0 <= i < j < |t|
      ensures Size(t[i]) >= Size(t[j])
    {
      var i' := if i < k then i else i + 1;
      var j' := if j < k then j else j + 1;
      assert t[i] == s[i'] && t[j] == s[j'];
    }
  }

  /** On a size-descending input the keep loop yields a size-descending list
      in which no range contains another. */
  lemma {:induction false} DedupIntoAntichain(kept: seq<IPRange>, rest: seq<IPRange>)
    requires SizeDescending(kept + rest) && Antichain(kept)
    ensures SizeDescending(DedupInto(kept, rest)) && Antichain(DedupInto(kept, rest))
    decreases |rest|
  {
    if |rest| == 0 {
      assert kept + rest == kept;
    } else {
      var x := rest[0];
      var s := kept + rest;
      if ContainsRange(kept, x) {
        DropSorted(s, |kept|);
        assert s[..|kept|] == kept && s[|kept| + 1..] == rest[1..];
        DedupIntoAntichain(kept, rest[1..]);
      } else {
        var kept' := kept + [x];
        assert kept' + rest[1..] == s;
        forall i, j | 0 <= i < |kept'| && 0 <= j < |kept'| && i != j
          ensures !Covers(kept'[i], kept'[j])
        {
          if i < |kept| && j < |kept| {
            assert kept'[i] == kept[i] && kept'[j] == kept[j];
          } else if i < |kept| {
            assert kept[i] in kept;
          } else {
            assert kept[j] in kept;
            assert s[j] == kept[j] && s[|kept|] == x;
            assert Size(kept[j]) >= Size(x);
          }
        }
        DedupIntoAntichain(kept', rest[1..]);
      }
    }
  }

  /** The keep loop leaves a list with no containments as it is. */
  lemma {:induction false} DedupIntoAntichainFixed(kept: seq<IPRange>, rest: seq<IPRange>)
    requires Antichain(kept + rest)
    ensures DedupInto(kept, rest) == kept + rest
    decreases |rest|
  {
    if |rest| == 0 {
      assert kept + rest == kept;
    } else {
      var x := rest[0];
      var s := kept + rest;
      assert !ContainsRange(kept, x) by {
        forall k | k in kept
          ensures !Covers(k, x)
        {
          var i :| 0 <= i < |kept| && kept[i] == k;
          assert s[i] == k && s[|kept|] == x;
        }
      }
      assert (kept + [x]) + rest[1..] == s;
      DedupIntoAntichainFixed(kept + [x], rest[1..]);
    }
  }

  /** Sorting a list already in size order changes nothing. */
  lemma {:induction false} SortSorted(rs: seq<IPRange>)
    requires SizeDescending(rs)
    ensures SortBySize(rs) == rs
    decreases |rs|
  {
    if |rs| > 0 {
      DropSorted(rs, 0);
      assert rs[..0] + rs[1..] == rs[1..];
      SortSorted(rs[1..]);
      assert rs == [rs[0]] + rs[1..];
    }
  }

  /** The de-duplicated list is in size order, has no containments, holds only
      ranges of the input and contains every range of the input. */
  lemma CanonicalShape(rs: seq<IPRange>)
    ensures var out := Canonicalize(rs);
            SizeDescending(out) && Antichain(out)
            && (forall y :: y in out ==> y in rs)
            && (forall x :: x in rs ==> ContainsRange(out, x))
  {
    var s := SortBySize(rs);
    assert forall y :: y in s <==> y in rs by {
      forall y
        ensures y in s <==> y in rs
      {
        assert y in s <==> y in multiset(s);
        assert y in rs <==> y in multiset(rs);
      }
    }
    DedupIntoKeeps([], s);
    assert [] + s == s;
    DedupIntoAntichain([], s);
  }

  /** De-duplication keeps the set of covered addresses. */
  lemma CanonicalCoverage(rs: seq<IPRange>, a: int)
    ensures InRanges(Canonicalize(rs), a) <==> InRanges(rs, a)
  {
    CanonicalShape(rs);
    var out := Canonicalize(rs);
    if InRanges(rs, a) {
      var x :| x in rs && x.start <= a <= x.end;
      assert ContainsRange(out, x);
      var y :| y in out && Covers(y, x);
    }
  }

  /** De-duplicating twice is de-duplicating once. */
  lemma CanonicalIdempotent(rs: seq<IPRange>)
    ensures Canonicalize(Canonicalize(rs)) == Canonicalize(rs)
  {
    var out := Canonicalize(rs);
    CanonicalShape(rs);
    SortSorted(out);
    assert [] + out == out;
    DedupIntoAntichainFixed([], out);
  }

  // ---------------------------------------------------------------------
  // The worked example of ip_range.go

  /** The example's eleven lines as ranges, in file order: 1.9.22.0-255,
      1.9.0.0/16, 1.9.22.0-255, 1.9.22.0-255, 1.9.22.0-1.9.22.255, 1.9.0.0/16,
      3.3.3.0/24, 3.3.0.0/16, 3.3.3.0-255, 1.1.1.0/24, 1.9.0.0/16. A /24 block
      `small` lies in the /16 block `big`, `small2` in `big2`, and `other` in
      neither. */
  function ExampleShape(small: IPRange, big: IPRange, small2: IPRange, big2: IPRange, other: IPRange): seq<IPRange>
  {
    [small, big, small, small, small, big, small2, big2, small2, other, big]
  }

  /** Ranges placed like the example's: two blocks of one size, each strictly
      containing a smaller range, and a third range of the smaller size that no
      other range contains or is contained in. */
  predicate ExampleLayout(small: IPRange, big: IPRange, small2: IPRange, big2: IPRange, other: IPRange)
  {
    && Size(big) == Size(big2) && Size(small) == Size(small2) == Size(other) < Size(big)
    && Covers(big, small) && Covers(big2, small2)
    && !Covers(big, big2) && !Covers(big2, big)
    && !Covers(big, small2) && !Covers(big2, small)
    && !Covers(big, other) && !Covers(big2, other) && !Covers(other, small) && !Covers(other, small2)
    && !Covers(small, other) && !Covers(small2, other) && !Covers(small, small2) && !Covers(small2, small)
    && !Covers(other, big) && !Covers(other, big2) && !Covers(small, big2) && !Covers(small2, big)
  }

  /** A list without repeated elements has as many elements as its set. */
  lemma {:induction false} DistinctCard(s: seq<IPRange>)
    requires forall i, j :: 0 <= i < j < |s| ==> s[i] != s[j]
    ensures |set x | x in s| == |s|
    decreases |s|
  {
    if |s| > 0 {
      DistinctCard(s[1..]);
      assert (set x | x in s) == {s[0]} + (set x | x in s[1..]);
      assert s[0] !in s[1..];
    }
  }

  /** A size-ordered list of three distinct ranges, two large and one small,
      is one of the two orders of the large ones followed by the small one. */
  lemma OrderOfThree(out: seq<IPRange>, x: IPRange, y: IPRange, z: IPRange)
    requires SizeDescending(out) && Size(x) == Size(y) > Size(z)
    requires x != y && x != z && y != z
    requires x in out && y in out && z in out
    requires forall k :: 0 <= k < |out| ==> out[k] == x || out[k] == y || out[k] == z
    requires forall i, j :: 0 <= i < j < |out| ==> out[i] != out[j]
    ensures out == [x, y, z] || out == [y, x, z]
  {
    assert |out| == 3 by {
      DistinctCard(out);
      assert (set v | v in out) == {x, y, z};
    }
    var iz :| 0 <= iz < |out| && out[iz] == z;
    assert Size(out[0]) >= Size(out[1]) >= Size(out[2]);
    assert iz == 2;
  }

  /** In an antichain drawn from the example's ranges that holds both large
      blocks, only the large blocks and the unrelated range remain. */
  lemma LayoutSurvivors(out: seq<IPRange>, small: IPRange, big: IPRange, small2: IPRange, big2: IPRange, other: IPRange)
    requires ExampleLayout(small, big, small2, big2, other)
    requires Antichain(out) && big in out && big2 in out
    requires forall y :: y in out ==> y == small || y == big || y == small2 || y == big2 || y == other
    ensures forall k :: 0 <= k < |out| ==> out[k] == big || out[k] == big2 || out[k] == other
  {
    var ib :| 0 <= ib < |out| && out[ib] == big;
    var ib2 :| 0 <= ib2 < |out| && out[ib2] == big2;
    forall k | 0 <= k < |out|
      ensures out[k] == big || out[k] == big2 || out[k] == other
    {
      assert out[k] in out;
      assert k != ib ==> !Covers(out[ib], out[k]);
      assert k != ib2 ==> !Covers(out[ib2], out[k]);
    }
  }

  /** No range contains another in an antichain, so no range repeats. */
  lemma AntichainDistinct(out: seq<IPRange>)
    requires Antichain(out)
    ensures forall i, j :: 0 <= i < j < |out| ==> out[i] != out[j]
  {
    forall i, j | 0 <= i < j < |out|
      ensures out[i] != out[j]
    {
      assert !Covers(out[i], out[j]);
    }
  }

  /** De-duplicating any list made of ranges laid out like the example's, with
      the two large blocks and the unrelated range among them, keeps exactly
      those three. */
  lemma DedupOfLayout(rs: seq<IPRange>, small: IPRange, big: IPRange, small2: IPRange, big2: IPRange, other: IPRange)
    requires ExampleLayout(small, big, small2, big2, other)
    requires forall y :: y in rs ==> y == small || y == big || y == small2 || y == big2 || y == other
    requires big in rs && big2 in rs && other in rs
    ensures var out := Canonicalize(rs);
            out == [big, big2, other] || out == [big2, big, other]
  {
    var out := Canonicalize(rs);
    CanonicalShape(rs);
    assert big in out && big2 in out && other in out by {
      assert ContainsRange(out, big) && ContainsRange(out, big2) && ContainsRange(out, other);
    }
    LayoutSurvivors(out, small, big, small2, big2, other);
    AntichainDistinct(out);
    assert big != big2 && big != other && big2 != other by {
      assert Covers(big, big) && Covers(big2, big2);
    }
    OrderOfThree(out, big, big2, other);
  }

  /** A sorted list takes its ranges from the input. */
  lemma SortedFrom(rs: seq<IPRange>, k: nat)
    requires k < |SortBySize(rs)|
    ensures SortBySize(rs)[k] in rs
  {
    assert SortBySize(rs)[k] in multiset(SortBySize(rs));
  }

  /** Inserting into a non-empty sorted list puts the range first exactly
      when the list's first range is no larger. */
  lemma InsertHead(x: IPRange, rs: seq<IPRange>)
    requires SizeDescending(rs) && |rs| > 0
    ensures InsertBySize(x, rs)[0] == if Size(rs[0]) <= Size(x) then x else rs[0]
  {
  }

  /** A first range no smaller than any other stays first. */
  lemma LargestStaysFirst(rs: seq<IPRange>)
    requires |rs| > 1 && forall j :: 0 <= j < |rs| ==> Size(rs[j]) <= Size(rs[0])
    ensures SortBySize(rs)[0] == rs[0]
  {
    var tail := rs[1..];
    var st := SortBySize(tail);
    SortedFrom(tail, 0);
    var m :| 0 <= m < |tail| && tail[m] == st[0];
    assert Size(st[0]) <= Size(rs[0]) by {
      assert rs[m + 1] == st[0];
    }
    InsertHead(rs[0], st);
  }

  /** The first of the largest ranges heads the sorted list: a range of the
      largest size goes before every other, and of equal ones the earlier. */
  lemma {:induction false} SortKeepsFirstLargest(rs: seq<IPRange>, i: nat)
    requires i < |rs| && forall j :: 0 <= j < |rs| ==> Size(rs[j]) <= Size(rs[i])
    requires forall j :: 0 <= j < i ==> Size(rs[j]) < Size(rs[i])
    ensures |SortBySize(rs)| == |rs| && SortBySize(rs)[0] == rs[i]
    decreases i
  {
    if |rs| > 1 {
      if i == 0 {
        LargestStaysFirst(rs);
      } else {
        var tail := rs[1..];
        SortKeepsFirstLargest(tail, i - 1);
        InsertHead(rs[0], SortBySize(tail));
      }
    }
  }

  /** The keep loop always keeps the first range it sees. */
  lemma DedupHead(s: seq<IPRange>)
    requires |s| > 0
    ensures |Dedup(s)| > 0 && Dedup(s)[0] == s[0]
  {
    assert !ContainsRange([], s[0]) && [] + [s[0]] == [s[0]];
    DedupIntoKeeps([s[0]], s[1..]);
  }

  /** The five ranges of the example's layout, and nothing else. */
  lemma ExampleShapeElements(small: IPRange, big: IPRange, small2: IPRange, big2: IPRange, other: IPRange)
    ensures var rs := ExampleShape(small, big, small2, big2, other);
            && big in rs && big2 in rs && other in rs
            && forall y :: y in rs ==> y == small || y == big || y == small2 || y == big2 || y == other
  {
    var rs := ExampleShape(small, big, small2, big2, other);
    assert rs[1] == big && rs[7] == big2 && rs[9] == other;
  }

  /** In a file laid out like the example the first large block comes out first. */
  lemma ExampleHead(small: IPRange, big: IPRange, small2: IPRange, big2: IPRange, other: IPRange)
    requires ExampleLayout(small, big, small2, big2, other)
    ensures var out := Canonicalize(ExampleShape(small, big, small2, big2, other));
            |out| > 0 && out[0] == big
  {
    var rs := ExampleShape(small, big, small2, big2, other);
    assert forall j :: 0 <= j < |rs| ==> Size(rs[j]) <= Size(rs[1]);
    SortKeepsFirstLargest(rs, 1);
    DedupHead(SortBySize(rs));
  }

  /** De-duplicating a file laid out like the example keeps the first large
      block, then the second (the sort keeps ranges of equal size in file
      order), and then the unrelated range. */
  lemma ExampleDedupShape(small: IPRange, big: IPRange, small2: IPRange, big2: IPRange, other: IPRange)
    requires ExampleLayout(small, big, small2, big2, other)
    ensures Canonicalize(ExampleShape(small, big, small2, big2, other)) == [big, big2, other]
  {
    var rs := ExampleShape(small, big, small2, big2, other);
    ExampleShapeElements(small, big, small2, big2, other);
    DedupOfLayout(rs, small, big, small2, big2, other);
    ExampleHead(small, big, small2, big2, other);
    assert big != big2 by {
      assert Covers(big, big);
    }
  }

  // ---------------------------------------------------------------------
  // The example's own lines

  /** The eleven lines of the example in the comment of `parseIPRangeFile`. */
  const ExampleLines: seq<string> :=
    ["1.9.22.0-255", "1.9.0.0/16", "1.9.22.0-255", "1.9.22.0-255", "1.9.22.0-1.9.22.255",
     "1.9.0.0/16", "3.3.3.0/24", "3.3.0.0/16", "3.3.3.0-255", "1.1.1.0/24", "1.9.0.0/16"]

  // The example's lines as printed addresses.

  lemma Text1922Short()
    ensures FormatIPv4(IPv4(1, 9, 22, 0)) + "-" + FormatDecimal(255) == "1.9.22.0-255"
  {
  }

  lemma Text1922Last()
    ensures FormatIPv4(IPv4(1, 9, 22, 255)) == "1.9.22.255"
  {
  }

  lemma Text1922First()
    ensures FormatIPv4(IPv4(1, 9, 22, 0)) == "1.9.22.0"
  {
  }

  lemma Text1922Full()
    ensures FormatIPv4(IPv4(1, 9, 22, 0)) + "-" + FormatIPv4(IPv4(1, 9, 22, 255)) == "1.9.22.0-1.9.22.255"
  {
    Text1922First();
    Text1922Last();
  }

  lemma Text333Short()
    ensures FormatIPv4(IPv4(3, 3, 3, 0)) + "-" + FormatDecimal(255) == "3.3.3.0-255"
  {
  }

  lemma Text19Block()
    ensures FormatIPv4(IPv4(1, 9, 0, 0)) + "/" + FormatDecimal(16) == "1.9.0.0/16"
  {
  }

  lemma Text333Block()
    ensures FormatIPv4(IPv4(3, 3, 3, 0)) + "/" + FormatDecimal(24) == "3.3.3.0/24"
  {
  }

  lemma Text33Block()
    ensures FormatIPv4(IPv4(3, 3, 0, 0)) + "/" + FormatDecimal(16) == "3.3.0.0/16"
  {
  }

  lemma Text111Block()
    ensures FormatIPv4(IPv4(1, 1, 1, 0)) + "/" + FormatDecimal(24) == "1.1.1.0/24"
  {
  }

  /** 1.9.22.0/24, written two ways. */
  const Small1922: IPRange := IPRange(17372672, 17372927)

  /** 1.9.0.0/16. */
  const Block19: IPRange := IPRange(17367040, 17432575)

  /** 3.3.3.0/24. */
  const Small333: IPRange := IPRange(50529024, 50529279)

  /** 3.3.0.0/16. */
  const Block33: IPRange := IPRange(50528256, 50593791)

  /** 1.1.1.0/24. */
  const Block111: IPRange := IPRange(16843008, 16843263)

  lemma LineShort1922()
    ensures ParseLine("1.9.22.0-255") == Parsed(Small1922)
  {
    Text1922Short();
    LineDashShort(IPv4(1, 9, 22, 0), 255);
  }

  lemma LineFull1922()
    ensures ParseLine("1.9.22.0-1.9.22.255") == Parsed(Small1922)
  {
    Text1922Full();
    LineDashFull(IPv4(1, 9, 22, 0), IPv4(1, 9, 22, 255));
  }

  lemma LineShort333()
    ensures ParseLine("3.3.3.0-255") == Parsed(Small333)
  {
    Text333Short();
    LineDashShort(IPv4(3, 3, 3, 0), 255);
  }

  /** The last addresses of the example's four blocks: each address starts
      its block, so the block ends `2^(32-n) - 1` further on. */
  lemma BlockEnd19()
    ensures CidrEnd(Cidr(IPv4(1, 9, 0, 0), 16)) == Block19.end
  {
    assert InetAton(IPv4(1, 9, 0, 0)) == 17367040;
    Pow2Values();
    CidrAligned(Cidr(IPv4(1, 9, 0, 0), 16));
  }

  lemma BlockEnd33()
    ensures CidrEnd(Cidr(IPv4(3, 3, 0, 0), 16)) == Block33.end
  {
    assert InetAton(IPv4(3, 3, 0, 0)) == 50528256;
    Pow2Values();
    CidrAligned(Cidr(IPv4(3, 3, 0, 0), 16));
  }

  lemma BlockEnd333()
    ensures CidrEnd(Cidr(IPv4(3, 3, 3, 0), 24)) == Small333.end
  {
    assert InetAton(IPv4(3, 3, 3, 0)) == 50529024;
    Pow2Values();
    CidrAligned(Cidr(IPv4(3, 3, 3, 0), 24));
  }

  lemma BlockEnd111()
    ensures CidrEnd(Cidr(IPv4(1, 1, 1, 0), 24)) == Block111.end
  {
    assert InetAton(IPv4(1, 1, 1, 0)) == 16843008;
    Pow2Values();
    CidrAligned(Cidr(IPv4(1, 1, 1, 0), 24));
  }

  lemma LineBlock19()
    ensures ParseLine("1.9.0.0/16") == Parsed(Block19)
  {
    BlockEnd19();
    Text19Block();
    LineCidrText(IPv4(1, 9, 0, 0), 16);
  }

  lemma LineBlock33()
    ensures ParseLine("3.3.0.0/16") == Parsed(Block33)
  {
    BlockEnd33();
    Text33Block();
    LineCidrText(IPv4(3, 3, 0, 0), 16);
  }

  lemma LineBlock333()
    ensures ParseLine("3.3.3.0/24") == Parsed(Small333)
  {
    BlockEnd333();
    Text333Block();
    LineCidrText(IPv4(3, 3, 3, 0), 24);
  }

  lemma LineBlock111()
    ensures ParseLine("1.1.1.0/24") == Parsed(Block111)
  {
    BlockEnd111();
    Text111Block();
    LineCidrText(IPv4(1, 1, 1, 0), 24);
  }

  /** Results that are all ranges collect to those ranges, in order. */
  lemma {:induction false} CollectParsed(res: seq<LineResult>, rs: seq<IPRange>)
    requires |res| == |rs| && forall i :: 0 <= i < |res| ==> res[i] == Parsed(rs[i])
    ensures Collect(res) == Some(rs)
  {
    if |res| > 0 {
      CollectParsed(res[1..], rs[1..]);
      assert [rs[0]] + rs[1..] == rs;
    }
  }

  /** Lines that each yield a range load as those ranges, in file order. */
  lemma EachLineParsed(lines: seq<string>, rs: seq<IPRange>)
    requires |lines| == |rs| && forall i :: 0 <= i < |lines| ==> ParseLine(lines[i]) == Parsed(rs[i])
    ensures ParseLines(lines) == Some(rs)
  {
    CollectParsed(MapLines(ParseLine, lines), rs);
  }

  // Which line of the example holds which text.

  lemma AtShort1922(i: nat)
    requires i == 0 || i == 2 || i == 3
    ensures ParseLine(ExampleLines[i]) == Parsed(ExampleShape(Small1922, Block19, Small333, Block33, Block111)[i])
  {
    assert ExampleShape(Small1922, Block19, Small333, Block33, Block111)[i] == Small1922;
    assert ExampleLines[i] == "1.9.22.0-255";
    LineShort1922();
  }

  lemma AtBlock19(i: nat)
    requires i == 1 || i == 5 || i == 10
    ensures ParseLine(ExampleLines[i]) == Parsed(ExampleShape(Small1922, Block19, Small333, Block33, Block111)[i])
  {
    assert ExampleShape(Small1922, Block19, Small333, Block33, Block111)[i] == Block19;
    assert ExampleLines[i] == "1.9.0.0/16";
    LineBlock19();
  }

  lemma AtFull1922(i: nat)
    requires i == 4
    ensures ParseLine(ExampleLines[i]) == Parsed(ExampleShape(Small1922, Block19, Small333, Block33, Block111)[i])
  {
    assert ExampleShape(Small1922, Block19, Small333, Block33, Block111)[i] == Small1922;
    assert ExampleLines[i] == "1.9.22.0-1.9.22.255";
    LineFull1922();
  }

  lemma AtBlock333(i: nat)
    requires i == 6
    ensures ParseLine(ExampleLines[i]) == Parsed(ExampleShape(Small1922, Block19, Small333, Block33, Block111)[i])
  {
    assert ExampleShape(Small1922, Block19, Small333, Block33, Block111)[i] == Small333;
    assert ExampleLines[i] == "3.3.3.0/24";
    LineBlock333();
  }

  lemma AtBlock33(i: nat)
    requires i == 7
    ensures ParseLine(ExampleLines[i]) == Parsed(ExampleShape(Small1922, Block19, Small333, Block33, Block111)[i])
  {
    assert ExampleShape(Small1922, Block19, Small333, Block33, Block111)[i] == Block33;
    assert ExampleLines[i] == "3.3.0.0/16";
    LineBlock33();
  }

  lemma AtShort333(i: nat)
    requires i == 8
    ensures ParseLine(ExampleLines[i]) == Parsed(ExampleShape(Small1922, Block19, Small333, Block33, Block111)[i])
  {
    assert ExampleShape(Small1922, Block19, Small333, Block33, Block111)[i] == Small333;
    assert ExampleLines[i] == "3.3.3.0-255";
    LineShort333();
  }

  lemma AtBlock111(i: nat)
    requires i == 9
    ensures ParseLine(ExampleLines[i]) == Parsed(ExampleShape(Small1922, Block19, Small333, Block33, Block111)[i])
  {
    assert ExampleShape(Small1922, Block19, Small333, Block33, Block111)[i] == Block111;
    assert ExampleLines[i] == "1.1.1.0/24";
    LineBlock111();
  }

  /** Line `i` of the example yields range `i` of its layout. */
  lemma ExampleLineRange(i: nat)
    requires i < |ExampleLines|
    ensures ParseLine(ExampleLines[i]) == Parsed(ExampleShape(Small1922, Block19, Small333, Block33, Block111)[i])
  {
    if i == 0 || i == 2 || i == 3 {
      AtShort1922(i);
    } else if i == 1 || i == 5 || i == 10 {
      AtBlock19(i);
    } else if i == 4 {
      AtFull1922(i);
    } else if i == 6 {
      AtBlock333(i);
    } else if i == 7 {
      AtBlock33(i);
    } else if i == 8 {
      AtShort333(i);
    } else {
      AtBlock111(i);
    }
  }

  /** Each of the eleven lines yields its range, in file order. */
  lemma ExampleRanges()
    ensures ParseLines(ExampleLines) == Some(ExampleShape(Small1922, Block19, Small333, Block33, Block111))
  {
    forall i | 0 <= i < |ExampleLines|
      ensures ParseLine(ExampleLines[i]) == Parsed(ExampleShape(Small1922, Block19, Small333, Block33, Block111)[i])
    {
      ExampleLineRange(i);
    }
    EachLineParsed(ExampleLines, ExampleShape(Small1922, Block19, Small333, Block33, Block111));
  }

  /** The example's eleven lines load as 1.9.0.0/16, 3.3.0.0/16 and
      1.1.1.0/24, in that order, as the comment says. */
  lemma ExampleDedup()
    ensures ParseIPRangeFile(ExampleLines)
            == Some([IPRange(17367040, 17432575), IPRange(50528256, 50593791), IPRange(16843008, 16843263)])
  {
    ExampleRanges();
    ExampleDedupShape(Small1922, Block19, Small333, Block33, Block111);
  }
}
