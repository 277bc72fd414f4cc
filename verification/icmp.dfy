/** ICMP echo messages as ping.go writes and reads them ("Echo or Echo Reply
    Message" of RFC 792, sections 4.1 and 4.2 of RFC 4443), the IPv4 header
    strip (section 3.1 of RFC 791), the reply loop of `Pinger` and
    `testPing`. Sockets, clocks and the process id are parameters. */
module Icmp {
  import opened Common
  import opened Config
  import opened Checksum
  import opened Probe

  const EchoRequestV4: int := 8
  const EchoReplyV4: int := 0
  const EchoRequestV6: int := 128
  const EchoReplyV6: int := 129

  /** The types whose body is an echo body. */
  predicate IsEchoType(t: int)
  {
    t == EchoRequestV4 || t == EchoReplyV4 || t == EchoRequestV6 || t == EchoReplyV6
  }

  /** The types the reply loop reads past. */
  predicate IsEchoRequest(t: int)
  {
    t == EchoRequestV4 || t == EchoRequestV6
  }

  /** Go's `byte(x)` on an `int`: the low eight bits (Dafny's `%` by a
      positive number is the two's complement remainder Go keeps). */
  function Byte(x: int): byte
  {
    x % 256
  }

  // ---------------------------------------------------------------------
  // Echo body

  /** `icmpEcho`. */
  datatype Echo = Echo(id: int, seqNum: int, data: seq<byte>)

  /** `icmpEcho.Len`; `None` is the nil body. */
  function EchoLen(p: Option<Echo>): nat
  {
    match p
    case None => 0
    case Some(e) => 4 + |e.data|
  }

  /** `icmpEcho.Marshal`: identifier and sequence number big-endian, then the
      data. `ID>>8` is an arithmetic shift, which is Dafny's `/ 256`. */
  function MarshalEcho(p: Echo): (b: seq<byte>)
    ensures |b| == EchoLen(Some(p)) && b[4..] == p.data
  {
    [Byte(p.id / 256), Byte(p.id), Byte(p.seqNum / 256), Byte(p.seqNum)] + p.data
  }

  /** `parseICMPEcho`, whose caller guarantees the four header bytes. Data is
      what follows them (nil, that is empty, for a four-byte body). */
  function ParseEcho(b: seq<byte>): (p: Echo)
    requires |b| >= 4
    ensures 0 <= p.id <= 0xFFFF && 0 <= p.seqNum <= 0xFFFF && p.data == b[4..]
  {
    Echo((b[0] as int) * 256 + b[1] as int, (b[2] as int) * 256 + b[3] as int, b[4..])
  }

  /** Parsing a marshalled body keeps the low 16 bits of the identifier and
      of the sequence number, and the data. */
  lemma EchoTruncates(p: Echo)
    ensures ParseEcho(MarshalEcho(p)) == Echo(p.id % 0x1_0000, p.seqNum % 0x1_0000, p.data)
  {
    Low16Bytes(p.id);
    Low16Bytes(p.seqNum);
  }

  /** For identifiers and sequence numbers that fit 16 bits, parsing undoes
      marshalling. */
  lemma EchoRoundTrip(p: Echo)
    requires 0 <= p.id <= 0xFFFF && 0 <= p.seqNum <= 0xFFFF
    ensures ParseEcho(MarshalEcho(p)) == p
  {
    EchoTruncates(p);
    DivUnique(p.id, 0x1_0000, 0, p.id);
    DivUnique(p.seqNum, 0x1_0000, 0, p.seqNum);
  }

  // ---------------------------------------------------------------------
  // Messages

  /** `icmpMessage`. */
  datatype Message = Message(typ: int, code: int, checksum: int, body: Option<Echo>)

  /** The message before its checksum: type, code, two zero bytes, and the
      body when it has a length. */
  function Unchecked(m: Message): (b: seq<byte>)
    ensures |b| == 4 + EchoLen(m.body) && b[2] == 0 && b[3] == 0
  {
    [Byte(m.typ), Byte(m.code), 0, 0]
    + (if m.body.Some? && EchoLen(m.body) != 0 then MarshalEcho(m.body.value) else [])
  }

  /** Go's `^s` on a `uint32`. */
  function Not32(s: nat): nat
    requires s < 0x1_0000_0000
  {
    0xFFFF_FFFF - s
  }

  /** Bitwise exclusive or of the low `n` bits of `a` and `b`. */
  function XorBits(a: nat, b: nat, n: nat): (r: nat)
    ensures r < Pow2(n)
  {
    if n == 0 then 0 else (a % 2 + b % 2) % 2 + 2 * XorBits(a / 2, b / 2, n - 1)
  }

  /** Go's `a ^ b` on bytes. */
  function Xor8(a: byte, b: byte): byte
  {
    Pow2Values();
    XorBits(a, b, 8)
  }

  /** Exclusive or with zero bits keeps the value. */
  lemma {:induction false} XorBitsZero(b: nat, n: nat)
    requires b < Pow2(n)
    ensures XorBits(0, b, n) == b
  {
    if n > 0 {
      XorBitsZero(b / 2, n - 1);
    }
  }

  lemma XorZero(b: byte)
    ensures Xor8(0, b) == b
  {
    Pow2Values();
    XorBitsZero(b, 8);
  }

  /** The checksum step of `icmpMessage.Marshal`: fold the wrapped word sum
      twice and xor its complement into bytes 2 and 3, low byte first. */
  function WithChecksum(b: seq<byte>): (r: seq<byte>)
    requires |b| >= 4
    ensures |r| == |b| && r[0] == b[0] && r[1] == b[1] && r[4..] == b[4..]
  {
    var s := GoFold(WordSum(b) % 0x1_0000_0000);
    b[..2] + [Xor8(b[2], Byte(Not32(s))), Xor8(b[3], Byte(Not32(s) / 256))] + b[4..]
  }

  /** `icmpMessage.Marshal`. The checksum field of `m` is not used; the
      ICMPv6 echo types keep a zero checksum, which the kernel fills in. */
  function MarshalMessage(m: Message): (b: seq<byte>)
    ensures |b| == 4 + EchoLen(m.body)
    ensures b[0] == Byte(m.typ) && b[1] == Byte(m.code)
    ensures m.body.Some? ==> b[4..] == MarshalEcho(m.body.value)
    ensures m.typ == EchoRequestV6 || m.typ == EchoReplyV6 ==> b[2] == 0 && b[3] == 0
  {
    var b := Unchecked(m);
    if m.typ == EchoRequestV6 || m.typ == EchoReplyV6 then b else WithChecksum(b)
  }

  /** The two checksum bytes are the low 16 bits of the complement. */
  lemma ComplementBytes(s: nat)
    requires s < 0x1_0000_0000
    ensures Byte(Not32(s)) as int + 256 * (Byte(Not32(s) / 256) as int) == 0xFFFF - s % 0x1_0000
  {
    var n := Not32(s);
    Low16Bytes(n);
    assert s == 0x1_0000 * (s / 0x1_0000) + s % 0x1_0000;
    DivUnique(n, 0x1_0000, 0xFFFF - s / 0x1_0000, 0xFFFF - s % 0x1_0000);
  }

  /** Adding the complement of a folded sum gives a sum that folds to all
      ones. */
  lemma ComplementChecks(S: nat)
    ensures Fold(S + (0xFFFF - Fold(S))) == 0xFFFF
  {
    var F := Fold(S);
    FoldCongruent(S);
    var total := S + (0xFFFF - F);
    assert S == 0xFFFF * (S / 0xFFFF) + S % 0xFFFF;
    assert F == 0xFFFF * (F / 0xFFFF) + F % 0xFFFF;
    assert total == 0xFFFF * (S / 0xFFFF - F / 0xFFFF + 1);
    DivUnique(total, 0xFFFF, S / 0xFFFF - F / 0xFFFF + 1, 0);
    FoldOfMultiple(total);
  }

  /** After marshalling, the ones' complement sum over all 16-bit words of an
      ICMPv4 message, an odd last byte padded with zero, is 0xFFFF, in the
      loop's byte order and in network byte order, provided the body fits an
      IP datagram so that the 32-bit accumulator does not wrap. */
  lemma ChecksumVerifies(m: Message)
    requires m.typ != EchoRequestV6 && m.typ != EchoReplyV6
    requires m.body.Some? ==> |m.body.value.data| <= 0xFFFF
    ensures Fold(WordSum(MarshalMessage(m))) == 0xFFFF
    ensures Fold(WordSumNet(MarshalMessage(m))) == 0xFFFF
  {
    var b := Unchecked(m);
    var S := WordSum(b);
    assert S < 0x1_0000_0000 by {
      WordSumBound(b);
    }
    DivUnique(S, 0x1_0000_0000, 0, S);
    var s := GoFold(S);
    GoFoldLow(S);
    ComplementBytes(s);
    XorZero(Byte(Not32(s)));
    XorZero(Byte(Not32(s) / 256));
    var r := WithChecksum(b);
    assert r[2] as int + 256 * (r[3] as int) == 0xFFFF - Fold(S);
    WordSumHead(b);
    WordSumHead(r);
    ComplementChecks(S);
    NetworkOrderChecks(r);
  }

  /** `icmpMessage.Marshal` step by step, with the checksum loop: it builds
      the same bytes as `MarshalMessage`. */
  method Marshal(m: Message) returns (b: seq<byte>)
    ensures b == MarshalMessage(m)
  {
    b := [Byte(m.typ), Byte(m.code), 0, 0];
    if m.body.Some? && EchoLen(m.body) != 0 {
      b := b + MarshalEcho(m.body.value);
    }
    if m.typ == EchoRequestV6 || m.typ == EchoReplyV6 {
      return;
    }
    assert b == Unchecked(m);
    var s := SumWords(b);
    s := s / 0x1_0000 + s % 0x1_0000;
    s := s + s / 0x1_0000;
    assert s == GoFold(WordSum(b) % 0x1_0000_0000);
    var n := Not32(s);
    b := b[..2] + [Xor8(b[2], Byte(n)), Xor8(b[3], Byte(n / 256))] + b[4..];
  }

  /** `parseICMPMessage`. A message under four bytes is an error; an echo
      type with one to three body bytes makes `parseICMPEcho` index past the
      end, a run-time panic. */
  datatype MessageParse = TooShort | BodyPanic | Decoded(m: Message)

  function ParseMessage(b: seq<byte>): (r: MessageParse)
    ensures r.TooShort? <==> |b| < 4
    ensures r.BodyPanic? <==> 4 < |b| < 8 && IsEchoType(b[0])
    ensures r.Decoded? ==> r.m.typ == b[0] && r.m.code == b[1] && r.m.checksum == (b[2] as int) * 256 + b[3] as int
    ensures r.Decoded? ==> (r.m.body.Some? <==> |b| > 4 && IsEchoType(b[0]))
  {
    if |b| < 4 then TooShort
    else if |b| > 4 && IsEchoType(b[0]) && |b| < 8 then BodyPanic
    else
      var head := Message(b[0], b[1], (b[2] as int) * 256 + b[3] as int, None);
      if |b| > 4 && IsEchoType(b[0]) then Decoded(head.(body := Some(ParseEcho(b[4..]))))
      else Decoded(head)
  }

  /** Parsing a marshalled message gives it back, with the checksum the
      marshalling wrote, whenever its fields fit their bytes and any body
      belongs to an echo type. */
  lemma MessageRoundTrip(m: Message)
    requires 0 <= m.typ < 256 && 0 <= m.code < 256
    requires m.body.Some? ==> IsEchoType(m.typ) && 0 <= m.body.value.id <= 0xFFFF && 0 <= m.body.value.seqNum <= 0xFFFF
    ensures var b := MarshalMessage(m);
            ParseMessage(b) == Decoded(m.(checksum := (b[2] as int) * 256 + b[3] as int))
  {
    var b := MarshalMessage(m);
    DivUnique(m.typ, 256, 0, m.typ);
    DivUnique(m.code, 256, 0, m.code);
    if m.body.Some? {
      EchoRoundTrip(m.body.value);
      assert b[4..] == MarshalEcho(m.body.value);
    }
  }

  // ---------------------------------------------------------------------
  // IPv4 header

  /** The header length the IHL field gives: the low four bits of the first
      byte, counted in 32-bit words. */
  function HeaderLen(b: seq<byte>): nat
    requires |b| > 0
  {
    (b[0] % 16) * 4
  }

  /** Whether `ipv4Payload` would slice past the end of its buffer. */
  predicate HeaderOverruns(b: seq<byte>)
  {
    |b| >= 20 && HeaderLen(b) > |b|
  }

  /** `ipv4Payload`: a buffer under 20 bytes is returned as it is; otherwise
      the header of IHL words is dropped. */
  function Ipv4Payload(b: seq<byte>): (p: seq<byte>)
    requires !HeaderOverruns(b)
    ensures |b| < 20 ==> p == b
  {
    if |b| < 20 then b else b[HeaderLen(b)..]
  }

  /** A datagram whose IHL field gives its header's length loses exactly
      that header. */
  lemma StripHeader(h: seq<byte>, payload: seq<byte>)
    requires 20 <= |h| && |h| % 4 == 0 && h[0] % 16 == |h| / 4
    ensures !HeaderOverruns(h + payload) && Ipv4Payload(h + payload) == payload
  {
    assert (h + payload)[0] == h[0];
  }

  // ---------------------------------------------------------------------
  // The reply loop

  /** What a read returns: a datagram, or an error (the read deadline
      passing is one). */
  datatype ReadEvent = Received(pkt: seq<byte>) | ReadError

  /** Why the reply loop gives up: a read error, a message under four
      bytes, or a run-time panic. */
  datatype Failure = ReadFailed | TooShortFailed | Crashed

  /** How the reply loop ends: a reply (the message and the read it came
      from), or a failure. */
  datatype ReplyOutcome = Reply(m: Message, at: nat) | Failed(why: Failure)

  /** What one read tells the loop: stop with an outcome, skip an echo
      request, or take a message as the reply. */
  datatype ReadResult = Stop(why: Failure) | SkipRequest | Answer(m: Message)

  /** `c.Read(rb)`: the datagram's first bytes overwrite the buffer; a longer
      datagram is cut to the buffer's length, and past a shorter one the old
      bytes stay. */
  function ReadInto(rb: seq<byte>, pkt: seq<byte>): (r: seq<byte>)
    ensures |r| == |rb|
    ensures forall i :: 0 <= i < |r| ==> r[i] == if i < |pkt| then pkt[i] else rb[i]
  {
    if |pkt| >= |rb| then pkt[..|rb|] else pkt + rb[|pkt|..]
  }

  /** The message bytes of a read buffer: all of it for ICMPv6, the IPv4
      payload otherwise. */
  function Payload(buf: seq<byte>, isIpv6: bool): seq<byte>
    requires isIpv6 || !HeaderOverruns(buf)
  {
    if isIpv6 then buf else Ipv4Payload(buf)
  }

  /** One pass of the loop body over the bytes `buf` after a read: the
      result, and the message bytes it parsed. */
  function Classify(buf: seq<byte>, isIpv6: bool): (res: (ReadResult, seq<byte>))
    ensures res.0.Answer? ==> !IsEchoRequest(res.0.m.typ)
  {
    if !isIpv6 && HeaderOverruns(buf) then (Stop(Crashed), buf)
    else
      var payload := Payload(buf, isIpv6);
      match ParseMessage(payload)
      case TooShort => (Stop(TooShortFailed), payload)
      case BodyPanic => (Stop(Crashed), payload)
      case Decoded(m) => (if IsEchoRequest(m.typ) then SkipRequest else Answer(m), payload)
  }

  /** The reply loop of `Pinger` as written. The count a read returns is
      ignored, so bytes of earlier datagrams past a short one are parsed
      too; and `rb = ipv4Payload(rb)` makes the stripped slice the buffer of
      every later read. Running out of events is the read deadline. */
  function AwaitReply(rb: seq<byte>, events: seq<ReadEvent>, isIpv6: bool, k: nat): (r: ReplyOutcome)
    requires k <= |events|
    ensures r.Reply? ==> k <= r.at < |events| && !IsEchoRequest(r.m.typ)
    decreases |events| - k
  {
    if k == |events| then Failed(ReadFailed)
    else
      match events[k]
      case ReadError => Failed(ReadFailed)
      case Received(pkt) =>
        var (res, payload) := Classify(ReadInto(rb, pkt), isIpv6);
        match res
        case Stop(why) => Failed(why)
        case SkipRequest => AwaitReply(payload, events, isIpv6, k + 1)
        case Answer(m) => Reply(m, k)
  }

  /** The datagram as a read into a buffer of `cap` bytes delivers it. */
  function Cut(pkt: seq<byte>, cap: nat): (b: seq<byte>)
    ensures |b| <= cap && b <= pkt
  {
    if |pkt| > cap then pkt[..cap] else pkt
  }

  /** What a read tells the loop when the bytes it delivered are all that
      is parsed. */
  function ReadResultOf(cap: nat, e: ReadEvent, isIpv6: bool): ReadResult
  {
    match e
    case ReadError => Stop(ReadFailed)
    case Received(pkt) => Classify(Cut(pkt, cap), isIpv6).0
  }

  /** An answer is the parse of the message bytes of the datagram, and not
      an echo request. */
  lemma AnswerIsMessage(cap: nat, pkt: seq<byte>, isIpv6: bool, m: Message)
    requires ReadResultOf(cap, Received(pkt), isIpv6) == Answer(m)
    ensures isIpv6 || !HeaderOverruns(Cut(pkt, cap))
    ensures ParseMessage(Payload(Cut(pkt, cap), isIpv6)) == Decoded(m) && !IsEchoRequest(m.typ)
  {
  }

  /** The loop over the results of its reads: requests are skipped, the
      first answer is the reply, anything else ends the loop, and no reads
      left is the deadline. */
  function FirstAnswer(results: seq<ReadResult>, k: nat): (r: ReplyOutcome)
    requires k <= |results|
    ensures r.Reply? ==> k <= r.at < |results| && results[r.at] == Answer(r.m)
    ensures r.Reply? ==> forall j :: k <= j < r.at ==> results[j] == SkipRequest
    decreases |results| - k
  {
    if k == |results| then Failed(ReadFailed)
    else
      match results[k]
      case Stop(why) => Failed(why)
      case SkipRequest => FirstAnswer(results, k + 1)
      case Answer(m) => Reply(m, k)
  }

  /** Conversely, requests followed by an answer end the loop with that
      answer. */
  lemma {:induction false} FirstAnswerFinds(results: seq<ReadResult>, k: nat, a: nat, m: Message)
    requires k <= a < |results| && results[a] == Answer(m)
    requires forall j :: k <= j < a ==> results[j] == SkipRequest
    ensures FirstAnswer(results, k) == Reply(m, a)
    decreases a - k
  {
    if k < a {
      FirstAnswerFinds(results, k + 1, a, m);
    }
  }

  /** Nothing but requests until the reads run out is the deadline. */
  lemma {:induction false} OnlyRequestsTimeOut(results: seq<ReadResult>, k: nat)
    requires k <= |results|
    requires forall j :: k <= j < |results| ==> results[j] == SkipRequest
    ensures FirstAnswer(results, k) == Failed(ReadFailed)
    decreases |results| - k
  {
    if k < |results| {
      OnlyRequestsTimeOut(results, k + 1);
    }
  }

  /** The reply loop parsing just the bytes each read delivers, with the
      buffer keeping its length. A reply is what its own datagram says,
      and every datagram before it was an echo request. */
  function AwaitReplyFixed(cap: nat, events: seq<ReadEvent>, isIpv6: bool): (r: ReplyOutcome)
    ensures r.Reply? ==> r.at < |events| && ReadResultOf(cap, events[r.at], isIpv6) == Answer(r.m)
    ensures r.Reply? ==> forall j :: 0 <= j < r.at ==> ReadResultOf(cap, events[j], isIpv6) == SkipRequest
  {
    var results := seq(|events|, j requires 0 <= j < |events| => ReadResultOf(cap, events[j], isIpv6));
    assert forall j :: 0 <= j < |events| ==> results[j] == ReadResultOf(cap, events[j], isIpv6);
    FirstAnswer(results, 0)
  }

  /** Conversely, echo requests followed by any other message end the
      corrected loop with that message. */
  lemma {:induction false} FixedFindsReply(cap: nat, events: seq<ReadEvent>, isIpv6: bool, a: nat, m: Message)
    requires a < |events| && ReadResultOf(cap, events[a], isIpv6) == Answer(m)
    requires forall j :: 0 <= j < a ==> ReadResultOf(cap, events[j], isIpv6) == SkipRequest
    ensures AwaitReplyFixed(cap, events, isIpv6) == Reply(m, a)
  {
    var results := seq(|events|, j requires 0 <= j < |events| => ReadResultOf(cap, events[j], isIpv6));
    FirstAnswerFinds(results, 0, a, m);
  }

  /** A datagram with a 20-byte IPv4 header and an echo request behind it,
      read into a buffer of 28 bytes or more that it fills: the as-written
      loop skips it and reads next into the buffer's bytes after the
      header. */
  lemma {:induction false} ShrinkStep(rb: seq<byte>, n: nat, events: seq<ReadEvent>, k: nat, pkt: seq<byte>)
    requires k < |events| && events[k] == Received(pkt)
    requires 28 <= |rb| == n <= |pkt| && pkt[0] == 0x45 && pkt[20] == EchoRequestV4
    ensures AwaitReply(rb, events, false, k) == AwaitReply(pkt[20..n], events, false, k + 1)
  {
    var buf := ReadInto(rb, pkt);
    assert buf == pkt[..n];
    assert HeaderLen(buf) == 20;
    assert Classify(buf, false) == (SkipRequest, pkt[20..n]);
  }

  /** The same datagram read into an 8-byte buffer is not stripped, and its
      header's first byte becomes the type of a reply. */
  lemma {:induction false} ShrunkReply(rb: seq<byte>, events: seq<ReadEvent>, k: nat, pkt: seq<byte>)
    requires k < |events| && events[k] == Received(pkt)
    requires |rb| == 8 <= |pkt| && pkt[0] == 0x45
    ensures AwaitReply(rb, events, false, k) == HeaderAsReply(pkt, k)
  {
    var buf := ReadInto(rb, pkt);
    assert buf == pkt[..8];
    assert Payload(buf, false) == buf;
  }

  /** A datagram's first four bytes, which are its IPv4 header's version
      and length, type of service and total length, read as the type, code
      and checksum of a bodiless message that answered read `at`. */
  function HeaderAsReply(pkt: seq<byte>, at: nat): ReplyOutcome
    requires |pkt| >= 4
  {
    Reply(Message(pkt[0], pkt[1], (pkt[2] as int) * 256 + pkt[3] as int, None), at)
  }

  /** An 88-byte IPv4 datagram with a 20-byte header and an echo request,
      the size of the host's own request as a raw socket delivers it. */
  predicate RequestDatagram(pkt: seq<byte>)
  {
    |pkt| == 88 && pkt[0] == 0x45 && pkt[20] == EchoRequestV4
  }

  /** Every read delivers `pkt`. */
  predicate AllReceive(events: seq<ReadEvent>, pkt: seq<byte>)
  {
    forall j :: 0 <= j < |events| ==> events[j] == Received(pkt)
  }

  /** The as-written loop takes an IPv4 datagram's header for a reply after
      four echo requests: the buffer shrinks 88, 68, 48, 28, 8 bytes, and
      below 20 bytes it is no longer stripped, so the header's first byte
      0x45 is read as the type. */
  lemma {:induction false} ShrinkingBufferReply(rb: seq<byte>, pkt: seq<byte>, events: seq<ReadEvent>)
    requires |rb| == 88 && RequestDatagram(pkt) && |events| == 5 && AllReceive(events, pkt)
    ensures AwaitReply(rb, events, false, 0) == HeaderAsReply(pkt, 4)
  {
    ShrunkTail(pkt, events);
    ShrinkStep(rb, 88, events, 0, pkt);
  }

  /** The last four of the five reads: 68 bytes, then 48, 28 and 8. */
  lemma {:induction false} ShrunkTail(pkt: seq<byte>, events: seq<ReadEvent>)
    requires RequestDatagram(pkt) && |events| == 5 && AllReceive(events, pkt)
    ensures AwaitReply(pkt[20..88], events, false, 1) == HeaderAsReply(pkt, 4)
  {
    ShrinkStep(pkt[20..88], 68, events, 1, pkt);
    ShrunkLast(pkt, events);
  }

  /** The last three of the five reads: 48 bytes, then 28 and 8. */
  lemma {:induction false} ShrunkLast(pkt: seq<byte>, events: seq<ReadEvent>)
    requires RequestDatagram(pkt) && |events| == 5 && AllReceive(events, pkt)
    ensures AwaitReply(pkt[20..68], events, false, 2) == HeaderAsReply(pkt, 4)
  {
    ShrinkStep(pkt[20..68], 48, events, 2, pkt);
    ShrinkStep(pkt[20..48], 28, events, 3, pkt);
    ShrunkReply(pkt[20..28], events, 4, pkt);
  }

  /** Parsing only what each read delivers, any number of such requests
      are all skipped and the loop waits out the deadline. */
  lemma {:induction false} FixedWaits(pkt: seq<byte>, events: seq<ReadEvent>)
    requires RequestDatagram(pkt) && AllReceive(events, pkt)
    ensures AwaitReplyFixed(88, events, false) == Failed(ReadFailed)
  {
    assert HeaderLen(pkt) == 20;
    assert Classify(Cut(pkt, 88), false).0 == SkipRequest;
    var results := seq(|events|, j requires 0 <= j < |events| => ReadResultOf(88, events[j], false));
    OnlyRequestsTimeOut(results, 0);
  }

  // ---------------------------------------------------------------------
  // Pinger and testPing

  /** "Go Go Gadget Ping!!!" in ASCII. */
  const Gadget: seq<byte> := [71, 111, 32, 71, 111, 32, 71, 97, 100, 103, 101, 116, 32, 80, 105, 110, 103, 33, 33, 33]

  /** The request `Pinger` sends: an echo request of the address family,
      code 0, the low 16 bits of the process id as identifier, sequence
      number 1, and the phrase three times as data. */
  function Request(isIpv6: bool, pid: int): Message
  {
    Message(if isIpv6 then EchoRequestV6 else EchoRequestV4, 0, 0, Some(Echo(pid % 0x1_0000, 1, Gadget + Gadget + Gadget)))
  }

  /** The request is 68 bytes, so the read buffer is 88. */
  lemma RequestLength(isIpv6: bool, pid: int)
    ensures |MarshalMessage(Request(isIpv6, pid))| == 68
  {
  }

  /** The request reads back as itself: its type, code 0, its identifier
      and sequence number, and its data. */
  lemma RequestParses(isIpv6: bool, pid: int)
    ensures var b := MarshalMessage(Request(isIpv6, pid));
            ParseMessage(b) == Decoded(Request(isIpv6, pid).(checksum := (b[2] as int) * 256 + b[3] as int))
  {
    MessageRoundTrip(Request(isIpv6, pid));
  }

  /** How `Pinger` ends. */
  datatype PingOutcome = PingOk | ConnectFailed | WriteFailed | NoReply(reason: ReplyOutcome)

  /** A fresh buffer of `n` bytes, as `make` gives it: all zero. */
  function ZeroBuffer(n: nat): (b: seq<byte>)
    ensures |b| == n && forall i :: 0 <= i < n ==> b[i] == 0
  {
    seq(n, _ => 0)
  }

  /** `Pinger` as written: dial, send the request, then run the reply loop
      as written on a zeroed buffer 20 bytes longer than the request.
      Whether the address is IPv6, and the outcomes of dialling and writing,
      are parameters; the reads are `events`. */
  function Pinger(isIpv6: bool, pid: int, dialOk: bool, writeOk: bool, events: seq<ReadEvent>): (r: PingOutcome)
    ensures r == ConnectFailed <==> !dialOk
    ensures r == WriteFailed <==> dialOk && !writeOk
    ensures r == PingOk <==> dialOk && writeOk && AwaitReply(ZeroBuffer(88), events, isIpv6, 0).Reply?
    ensures r.NoReply? ==> r.reason.Failed? && r.reason == AwaitReply(ZeroBuffer(88), events, isIpv6, 0)
  {
    if !dialOk then ConnectFailed
    else if !writeOk then WriteFailed
    else
      var wb := MarshalMessage(Request(isIpv6, pid));
      RequestLength(isIpv6, pid);
      match AwaitReply(ZeroBuffer(20 + |wb|), events, isIpv6, 0)
      case Reply(_, _) => PingOk
      case other => NoReply(other)
  }

  /** `Pinger` with the reply loop corrected to parse only what each read
      delivers. */
  function PingerFixed(isIpv6: bool, pid: int, dialOk: bool, writeOk: bool, events: seq<ReadEvent>): (r: PingOutcome)
    ensures r == ConnectFailed <==> !dialOk
    ensures r == WriteFailed <==> dialOk && !writeOk
    ensures r == PingOk <==> dialOk && writeOk && AwaitReplyFixed(88, events, isIpv6).Reply?
    ensures r.NoReply? ==> r.reason.Failed? && r.reason == AwaitReplyFixed(88, events, isIpv6)
  {
    if !dialOk then ConnectFailed
    else if !writeOk then WriteFailed
    else
      var wb := MarshalMessage(Request(isIpv6, pid));
      RequestLength(isIpv6, pid);
      match AwaitReplyFixed(20 + |wb|, events, isIpv6)
      case Reply(_, _) => PingOk
      case other => NoReply(other)
  }

  /** On five reads of an 88-byte IPv4 echo request, the as-written
      `Pinger` reports success while the corrected one waits out the
      deadline. */
  lemma PingersDiffer(pid: int, pkt: seq<byte>, events: seq<ReadEvent>)
    requires RequestDatagram(pkt) && |events| == 5 && AllReceive(events, pkt)
    ensures Pinger(false, pid, true, true, events) == PingOk
    ensures PingerFixed(false, pid, true, true, events) == NoReply(Failed(ReadFailed))
  {
    ShrinkingBufferReply(ZeroBuffer(88), pkt, events);
    FixedWaits(pkt, events);
  }

  /** `testPing`: a ping that panics panics the probe; otherwise the ping
      must succeed and take longer than the minimum round trip, and only
      then does the record's time grow, by exactly the ping's. */
  function TestPing(ping: PingOutcome, rtt: int, cfg: ScanConfig, record: ScanRecord): (v: Verdict)
    ensures v.Panic? <==> ping == NoReply(Failed(Crashed))
    ensures v.Verdict? ==> (v.ok <==> ping == PingOk && rtt > cfg.scanMinRtt)
    ensures v.Verdict? ==> v.record == if v.ok then Charged(record, rtt) else record
  {
    if ping == NoReply(Failed(Crashed)) then Panic
    else if ping != PingOk then Verdict(false, record)
    else if rtt > cfg.scanMinRtt then Verdict(true, Charged(record, rtt))
    else Verdict(false, record)
  }
}
