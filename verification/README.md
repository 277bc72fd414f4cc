# gscan_quic in Dafny

A model of the deterministic core of gscan_quic, a scanner that searches
IPv4 ranges for Google front-end addresses that answer over TLS, QUIC or
with a chosen SNI name. The model covers:

- the IP range file: `inet_aton`/`inet_ntoa`, `parseIPRange`, the line
  grammar of `parseIPRangeFile` (single address, `a/n`, `a-b`, `a-N`,
  `a[/n]-b/m`), and the sort-by-size, keep-unless-contained de-duplication;
- the ICMP echo codec of `ping.go`: the echo body, the message with the
  Internet checksum of section 1 of RFC 1071, `parseICMPMessage`,
  `ipv4Payload`, the reply loop of `Pinger`, and `testPing`;
- sample confirmation `testip`, the `ScanOptions` ledger, and one sequential
  schedule of the worker and of the producer loop of `Scan`;
- the acceptance ladders of `testTls`, `testQuic` and `testSni`, each a
  decision over what its connection showed;
- the helpers of `util.go`: `readJson`, `mergeMap`, `randInt`,
  `randomChoice`, `randomHost`, `or`, and the index partition of `ops`;
- the end of `main`: sorting the records and writing their addresses, and the
  choice of probe from the configured operation.

Modules: `Common` (options, bytes, Go's truncating division), `Strings` (the
parts of Go's `strings` package the code uses), `Config` (the configuration
and `ScanRecord`), `IpRange` and `IpRangeFacts`, `Checksum`, `Icmp`, `Scan`,
`Probe` (certificates, responses, the server-name choice), `Tls`, `Quic`,
`Sni`, `Util` and `Output`.

Sockets, clocks and random numbers are parameters: a probe sees an
`Observation` record (dial and handshake outcomes, peer certificates, the
HTTP response, the elapsed time), the reply loop sees a sequence of read
events, and `rand.Intn(n)` is a draw reduced modulo `n`. Go run-time panics
that the input can cause (a slice past the end, `rand.Intn(0)`, a division by
zero) are explicit outcomes, not preconditions. Nothing in a worker
goroutine recovers, so a panic there ends the whole process: the model's
worker stops at the first one, whether it comes from the ping or from a probe.

## Model

| member | source | states |
|---|---|---|
| IpRange.InetAton | ip_range.go:23-37 | The number of an address is a·2^24 + b·2^16 + c·2^8 + d, below 2^32. |
| IpRange.NtoaAton | ip_range.go:14-37 | Encoding an address as a number and decoding it gives back the address. |
| IpRange.AtonNtoa | ip_range.go:14-37 | Decoding a number and encoding the address gives the number modulo 2^32, so numbers below 2^32 round-trip. |
| IpRange.ParseFormatIPv4 | ip_range.go:56-57 | `net.ParseIP` reads back every printed dotted quad as its address. |
| IpRange.FormatParseIPv4 | ip_range.go:139-143 | Only the canonical spelling of an address parses: printing the parsed address gives back the text. |
| IpRange.OrHostMask | ip_range.go:124-128 | Or-ing the host mask keeps the leading prefix bits, sets all the others, and never lowers the value; /32 leaves it alone. |
| IpRange.CidrEnd | ip_range.go:122-130 | A CIDR's end lies at or above the written address and below 2^32. |
| IpRange.ParseIPRange | ip_range.go:44-66 | A range `parseIPRange` accepts always has start at most end. |
| IpRange.RangeBetween | ip_range.go:56-65 | Reading both ends panics exactly when a side is not an address; otherwise a start whose number is above the end's is the error, and any other pair is the range from the start's number to the end's. |
| IpRange.ParseLine | ip_range.go:79-151 | Every range a line of the file yields is well ordered. |
| IpRange.MixedLineResult | ip_range.go:86-115 | A range from an `a[/n]-b/m` line is well ordered. |
| IpRange.CidrLineResult | ip_range.go:116-130 | A range from an `a/n` line is well ordered. |
| IpRange.DashLineResult | ip_range.go:131-137 | A range from an `a-b` or `a-N` line is well ordered. |
| IpRange.Collect | ip_range.go:78-153 | The line loop yields ranges exactly when no line panics, no more ranges than lines, and each a range some line yielded. |
| IpRange.ParseLines | ip_range.go:78-153 | A file yields ranges exactly when none of its lines panics, at most one per line, all well ordered. |
| IpRange.ContainsRange | ip_range.go:197-204 | `contains` holds exactly when some listed range starts no later and ends no earlier. |
| IpRange.SortBySize | ip_range.go:185-187 | The sort gives a permutation of the ranges ordered by size, largest first. |
| IpRangeFacts.LineSingle | ip_range.go:138-144 | A line holding one address yields the one-address range n..n. |
| IpRangeFacts.LineCidr | ip_range.go:116-130 | A CIDR line runs from the address as written, not the masked network, to the end of its block. |
| IpRangeFacts.LineCidrText | ip_range.go:116-130 | A printed `a/n` line runs from `a` to the end of its block. |
| IpRangeFacts.CidrBlock | ip_range.go:122-130 | The CIDR range holds exactly the addresses at or above the written one that share its leading prefix bits. |
| IpRangeFacts.CidrExtremes | ip_range.go:125-128 | /32 gives the single written address; /0 runs to 255.255.255.255. |
| IpRangeFacts.CidrAligned | ip_range.go:122-130 | A written address on a block boundary gives the whole block of 2^(32-n) addresses. |
| IpRangeFacts.LineDashFull | ip_range.go:131-137 | An `a-b` line is the range a..b, or is skipped when `a` is the larger. |
| IpRangeFacts.ShortEndRange | ip_range.go:48-54 | An end without a dot is completed with the first three fields of the start. |
| IpRangeFacts.LineDashShort | ip_range.go:48-54 | An `a.b.c.d-e` line is the range a.b.c.d..a.b.c.e, or is skipped when e < d. |
| IpRangeFacts.LineMixed | ip_range.go:86-115 | An `a[/n]-b/m` line starts at `a` and ends where the CIDR `b/m` ends, or is skipped when that end lies below `a`. |
| IpRangeFacts.LineManyDashes | ip_range.go:87-91 | A line with two or more dashes is skipped as malformed. |
| IpRangeFacts.ParseLinesSkip | ip_range.go:79-83 | A comment, blank or malformed line contributes nothing and does not stop the lines after it. |
| IpRangeFacts.ParseLinesConcat | ip_range.go:78-153 | Reading two blocks of lines one after the other reads each on its own and joins the results. |
| IpRangeFacts.DedupIntoKeeps | ip_range.go:188-193 | The keep loop only appends, keeps only ranges it saw, and leaves every range it saw inside a kept one. |
| IpRangeFacts.DedupIntoAntichain | ip_range.go:188-193 | On a size-ordered input the kept ranges stay size-ordered and none contains another. |
| IpRangeFacts.DedupIntoAntichainFixed | ip_range.go:188-193 | A list with no containments passes the keep loop unchanged. |
| IpRangeFacts.SortSorted | ip_range.go:185-187 | Sorting a list already in size order leaves it as it is. |
| IpRangeFacts.CanonicalShape | ip_range.go:185-194 | The de-duplicated list is in size order, has no containments, holds only input ranges and contains every input range. |
| IpRangeFacts.CanonicalCoverage | ip_range.go:185-204 | De-duplication keeps exactly the set of covered addresses. |
| IpRangeFacts.CanonicalIdempotent | ip_range.go:185-194 | De-duplicating twice is de-duplicating once. |
| IpRangeFacts.SortKeepsFirstLargest | ip_range.go:185-187 | The first of the largest ranges heads the sorted list: larger ranges go first, and of equal ones the earlier. |
| IpRangeFacts.DedupHead | ip_range.go:188-193 | The keep loop always keeps the first range of the sorted list. |
| IpRangeFacts.ExampleDedupShape | ip_range.go:164-193 | Any file laid out like the comment's example reduces to its first large block, then its second, then the unrelated range. |
| IpRangeFacts.CollectParsed | ip_range.go:78-153 | Lines that each yield a range collect to those ranges, in file order. |
| IpRangeFacts.EachLineParsed | ip_range.go:78-153 | A file whose every line yields a range loads as those ranges, in file order. |
| IpRangeFacts.ExampleRanges | ip_range.go:164-176 | The comment's eleven lines yield 1.9.22.0/24, 1.9.0.0/16, three times 1.9.22.0/24, 1.9.0.0/16, 3.3.3.0/24, 3.3.0.0/16, 3.3.3.0/24, 1.1.1.0/24 and 1.9.0.0/16, in that order. |
| IpRangeFacts.ExampleDedup | ip_range.go:164-193 | The comment's eleven lines load as 17367040-17432575 (1.9.0.0/16), 50528256-50593791 (3.3.0.0/16) and 16843008-16843263 (1.1.1.0/24), in that order. |
| Checksum.SumWords | ping.go:66-73 | The checksum loop's 32-bit accumulator holds the word sum of the buffer modulo 2^32. |
| Checksum.GoFoldLow | ping.go:74-75 | The two folding steps on a 32-bit accumulator give the full ones' complement sum in the low 16 bits. |
| Checksum.FoldCongruent | ping.go:74-75 | Folding keeps the value modulo 0xFFFF and is zero only for zero. |
| Checksum.ByteOrder | ping.go:68-70 | The loop's low-byte-first sum and the network-order sum of RFC 1071 differ by a multiple of 0xFFFF after an 8-bit shift. |
| Checksum.NetworkOrderChecks | ping.go:66-79 | A message whose sum checks in the loop's byte order checks in network order too. |
| Checksum.WordSumBound | ping.go:67-70 | The word sum grows by at most 32768 per byte, so it cannot wrap for messages under 2^17 bytes. |
| Icmp.MarshalEcho | ping.go:110-125 | An echo body is 4 + len(data) bytes and ends with the data. |
| Icmp.ParseEcho | ping.go:128-136 | A parsed body has a 16-bit identifier and sequence number and carries what follows them as data. |
| Icmp.EchoTruncates | ping.go:119-136 | Parsing a marshalled body keeps the low 16 bits of identifier and sequence number, and the data. |
| Icmp.EchoRoundTrip | ping.go:119-136 | For identifiers and sequence numbers below 2^16, parsing undoes marshalling. |
| Icmp.MarshalMessage | ping.go:53-65 | A message is type, code, two checksum bytes, then the marshalled body; ICMPv6 echo types leave the checksum bytes 0. |
| Icmp.Marshal | ping.go:53-81 | The marshalling with its checksum loop and xor builds exactly the message's bytes. |
| Icmp.XorZero | ping.go:78-79 | Xor-ing into the zeroed checksum bytes stores the complement bytes themselves. |
| Icmp.ChecksumVerifies | ping.go:66-80 | For every non-ICMPv6 message whose data fits an IP datagram the ones' complement sum of the output is 0xFFFF, in both byte orders. |
| Icmp.ParseMessage | ping.go:84-101 | Under 4 bytes is an error; an echo type with 1-3 body bytes panics; otherwise type, code and big-endian checksum are the first bytes and a body exists exactly for echo types longer than 4 bytes. |
| Icmp.MessageRoundTrip | ping.go:53-101 | Parsing a marshalled echo message gives it back with the checksum that was written. |
| Icmp.Ipv4Payload | ping.go:198-204 | A buffer under 20 bytes comes back unchanged. |
| Icmp.StripHeader | ping.go:198-204 | A datagram whose IHL field gives its header's length loses exactly that header. |
| Icmp.ReadInto | ping.go:180 | A read overwrites the buffer's first bytes with the datagram and keeps the old bytes past a short one. |
| Icmp.Classify | ping.go:183-193 | An answer taken from a read is never an echo request. |
| Icmp.AwaitReply | ping.go:175-194 | The as-written loop's reply comes from one of the reads and is not an echo request. |
| Icmp.FirstAnswer | ping.go:177-194 | The loop's reply is the first answer, and every read before it was a skipped echo request. |
| Icmp.FirstAnswerFinds | ping.go:177-194 | Conversely, echo requests followed by an answer end the loop with that answer. |
| Icmp.OnlyRequestsTimeOut | ping.go:177-182 | Nothing but echo requests until the deadline is a read failure. |
| Icmp.AnswerIsMessage | ping.go:183-193 | An answer is the parse of the datagram's own message bytes. |
| Icmp.AwaitReplyFixed | ping.go:175-194 | The corrected loop's reply is what its own datagram says, and every datagram before it was an echo request. |
| Icmp.FixedFindsReply | ping.go:177-194 | Conversely, echo requests followed by any other message end the corrected loop with that message. |
| Icmp.ShrinkingBufferReply | ping.go:176-194 | The as-written loop takes the IPv4 header of the fifth echo request for a reply of type 0x45. |
| Icmp.FixedWaits | ping.go:176-194 | The corrected loop skips any number of such echo requests and waits for the deadline. |
| Icmp.RequestLength | ping.go:161-168 | The request is 68 bytes, so the read buffer is 88. |
| Icmp.RequestParses | ping.go:161-168 | The request reads back as itself: echo request, code 0, its identifier, sequence number 1 and its data. |
| Icmp.Pinger | ping.go:142-196 | A failed dial and a failed write are reported as such; otherwise the ping succeeds exactly when the reply loop as written, on a zeroed buffer of 88 bytes, brings a reply, and returns the loop's failure when it does not. |
| Icmp.PingerFixed | ping.go:142-196 | The same with the corrected reply loop. |
| Icmp.PingersDiffer | ping.go:175-194 | On five reads of an 88-byte IPv4 echo request the as-written `Pinger` succeeds while the corrected one waits out the deadline. |
| Icmp.TestPing | ping.go:18-28 | `testPing` panics exactly when the ping panics; otherwise it passes exactly when the ping succeeds and takes longer than the minimum, and only then does the record's time grow, by exactly the ping's. |
| Scan.TestIp | scan.go:55-66 | Probing stops at the first failure and goes down with the first probe that panics; when all samples pass the times are averaged with truncating division; a zero count panics and a negative one accepts without probing. |
| Scan.AddRecord | scan.go:30-38 | One record is appended at the end and nothing else changes. |
| Scan.IncScanCounter | scan.go:40-45 | The counter grows by one, wrapping from the largest `int32` to the smallest. |
| Scan.WrapAdd | scan.go:40-45 | Wrapping once per increment is wrapping the total. |
| Scan.StepAfter | scan.go:68-98 | One more address moves the ledger from the records and count of one prefix to the next. |
| Scan.Worker | scan.go:68-98 | The worker's ledger holds the records of the accepted addresses past the ping gate, and its counter counts the addresses past the gate; it stops at a cancellation, at a ping that panics, or at a `testip` that panics past the gate. |
| Scan.Produce | scan.go:115-125 | The addresses sent are a prefix of the queue; the loop stops at an interrupt or right after the first send at which the quota is reached, and an interrupt comes only while every size read so far was under the quota. |
| Scan.FoundGrowsByOne | scan.go:86-96 | Each address brings at most one record. |
| Scan.SequentialQuota | scan.go:115-125 | With one worker handling each address before the next is sent, and a limit above the records held at the start, the ledger never exceeds the record limit. |
| Probe.Charged | tls.go:92-96 | An accepted probe adds exactly the elapsed time to the record and changes nothing else. |
| Probe.ServerName | tls.go:30-35 | The server name is the random host when the list is empty, and a listed name otherwise. |
| Probe.EveryNameReachable | quic.go:36-41 | Every listed name is chosen by some draw. |
| Tls.TestTls | tls.go:17-97 | It panics exactly when level 3 is reached with no verification host, or with one whose URL `http.NewRequest` rejects (the dropped error leaves a nil request); otherwise it accepts exactly under the level ladder and a strict time gate, and only acceptance adds the elapsed time. |
| Tls.LevelsNested | tls.go:56-96 | What passes at one level passes at every lower one, with the same record. |
| Tls.EqualRttRejects | tls.go:92-96 | An elapsed time equal to the minimum rejects. |
| Quic.TestQuic | quic.go:21-116 | It panics exactly when level 3 is reached with no verification host, or with one whose URL `http.NewRequest` rejects (the dropped error leaves a nil request); otherwise it accepts exactly under the level ladder (certificates, pins, Alt-Svc, NoSuchBucket body) and a strict time gate. |
| Quic.LevelsNested | quic.go:57-115 | What passes at one level passes at every lower one, with the same record. |
| Quic.OneCertRejects | quic.go:62-65 | Even at level 1 a session without an intermediate certificate rejects. |
| Sni.ProbeName | sni.go:23-71 | One name passes exactly under its level ladder and a non-strict time gate. |
| Sni.TestSni | sni.go:12-74 | The names are probed in order up to the first failure; all pass exactly when none fails; each name that passed adds its time, and a later failure keeps those additions. |
| Sni.LevelsNested | sni.go:35-63 | A name that passes at one level passes at every lower one. |
| Sni.EqualRttPasses | sni.go:67-71 | An elapsed time equal to the minimum passes. |
| Util.ReadJson | util.go:62-80 | The output is the kept lines, in order and without separators, each losing one trailing comma when the next kept line closes an object or array. |
| Util.KeptMembers | util.go:66-70 | A line is kept exactly when some input line trims to it and it is neither blank nor a `//` comment. |
| Util.NoClosersKeepsCommas | util.go:71-78 | Without closing lines, the kept lines are written unchanged. |
| Util.ClosingTrimsComma | util.go:71-73 | A kept `x,` followed by a closing line is written as `x`. |
| Util.Lookup | util.go:85 | A key is absent exactly when no field has it, and a found value is that of a field with the key. |
| Util.Set | util.go:91 | After `m[key] = value` the key maps to the value and every other key is unchanged. |
| Util.MergeMap | util.go:82-100 | Keys only in the first map keep their values. |
| Util.MergeFailsOnConflict | util.go:89-96 | With each key once, the merge fails exactly when some new object lands on a non-object value. |
| Util.MergeKeywise | util.go:83-97 | After a successful merge each key of the second map holds its overlay (objects merged recursively, anything else replaced) and every other key is unchanged. |
| Util.MergeFresh | util.go:89-91 | Merging into a map with none of the new keys appends the new fields and succeeds. |
| Util.RandInt | util.go:102-104 | `randInt(l, u)` lies in [l, u), and panics exactly when u <= l. |
| Util.RandIntReaches | util.go:102-104 | Every value of [l, u) is drawn by some draw. |
| Util.RandomChoice | util.go:106-108 | The choice is an element, and an empty list panics. |
| Util.RandomChoiceReaches | util.go:106-108 | Every element is chosen by some draw. |
| Util.RandomHost | util.go:113-124 | The host is 2 or 3 dot-joined labels of 3 to 6 letters from 'a' to 'y'. |
| Util.RandomHostLabels | util.go:113-124 | The host splits at its dots back into its labels. |
| Util.Or | util.go:126-134 | The result is zero exactly when every argument is zero. |
| Util.OrIsFirst | util.go:126-134 | A non-zero result is the first non-zero argument. |
| Util.ChunkSizes | util.go:145-149 | For a non-negative count the chunk bounds are ordered and stay within the count. |
| Util.NegativeChunksEmpty | util.go:145-149 | With a negative count every chunk is empty. |
| Util.Ops | util.go:142-158 | A negative worker count panics; otherwise each index of [0, count) is visited exactly once, by the worker whose chunk holds it. |
| Output.SortByRtt | gscan.go:211-214 | The records come out as a permutation ordered by round trip. |
| Output.SortKeepsRecords | gscan.go:211-214 | Exactly the records found are written out. |
| Output.Output | gscan.go:211-227 | Nothing is written exactly when there are no records. |
| Output.GopQuotes | gscan.go:221-223 | The `gop` layout is each sorted address in quotes, joined with ", ", with a comma after the last. |
| Output.PlainSplits | gscan.go:224-227 | With a one-character separator no address contains, the output splits back into the sorted addresses. |
| Output.OutputOrdered | gscan.go:212-218 | The addresses come out fastest first, one per record. |
| Output.Dispatch | gscan.go:119-134 | The lower-cased operation names the probe chosen and its settings; any other name chooses nothing. |
| Output.DispatchByName | gscan.go:121-130 | Each probe's own name selects it with its own settings. |
| Output.DispatchIgnoresCase | gscan.go:120 | The case of the operation does not matter. |

## Left out

- Network I/O (`net.Dial`, raw ICMP sockets, TLS and QUIC handshakes, HTTP and HTTP/3 clients): each probe is a decision over an `Observation` of what they returned.
- Concurrency (worker goroutines, channels, `context` cancellation, signals, `WaitGroup`, atomics): the worker and producer are modelled as one sequential schedule.
- Scan.SequentialQuota: holds for the sequential schedule only, because concurrent workers can add records after the size check and overshoot the limit. It also assumes the limit starts above the records held: with a `RecordLimit` of 0 or less (the zero value when the key is missing) the loop breaks only after the first send, so one record can still be added past the limit.
- Util.Ops: lists the calls worker by worker, because the goroutines run in an unspecified order; the set of `(index, worker)` calls is what is stated.
- Clocks: durations are integer nanoseconds given as parameters; `int64` overflow of durations is not modelled.
- Randomness: `rand.Intn(n)` is a draw reduced modulo `n`, which reaches every value but says nothing about the distribution.
- Util.RandomHost: requires 22 draws, the most the method can use, because the draws are given up front.
- IpRange.ParseFormatIPv4: `net.ParseIP` and `net.ParseCIDR` are modelled for dotted-quad IPv4 only; IPv6 and IPv4-mapped IPv6 text is treated as not an address, and in `Pinger` whether the target is IPv6 is a parameter. So a bare IPv6 line such as `2001:db8::1`, which `net.ParseIP` accepts at ip_range.go:139, is skipped as malformed in the model, while in Go it reaches `ss[0:3]` at ip_range.go:50 with fewer than three fields and the load panics.
- IpRange.SortBySize: `sort.Slice` is not stable; the model takes one admissible order (ties keep input order), and the de-duplication facts are proved for any size-descending order. The order `ExampleDedup` states is the one Go gives the eleven lines, since `sort.Slice` sorts fewer than 13 elements by insertion, which keeps ties in input order.
- Output.SortByRtt: as for `SortBySize`, one admissible order of records with equal times.
- Output.SortByRtt: gscan.go:213 compares a field `SSLRTT` that `ScanRecord` (scan.go:13-19) does not declare, so that file does not compile as written; the model sorts by `RTT`, the round-trip time the probes accumulate.
- The `lineno` warning counter and all logging of `parseIPRangeFile`.
- File access: opening the range file, the `bufio.Scanner` token limit and its errors in `parseIPRangeFile` and `readJson`, `readJsonConfig`'s file reads and JSON decoding, `initFiles`, backups, writing the output file and `main`'s flags.
- Go map iteration in `mergeMap` is random; the model iterates in list order, and the key-by-key facts hold for every order.
- `strings.TrimSpace` follows `unicode.IsSpace`; `strings.ToLower` is modelled only for the characters that lower to ASCII letters, which is all that decides comparisons against "quic", "tls" and "sni".
- The `ipaddr` cursor that feeds addresses to the producer (gscan.go:181-205) is not part of this model; the producer takes the address queue as a sequence.
- The certificate pins `gpkp`, `g2pkp` and `g3pkp` are parameters: `gpkp` is a base64 literal and the other two are not defined in the files modelled.
- The probe type `testIPFunc` declared in scan.go:53 does not match the probes' own signatures; `testip` takes the probe's results as a sequence.
- The vendored quic-go files are not part of this model: the scanner does not use them, or they hold no logic.

## Findings

| source | as written | input that shows it | evidently intended | confidence | as-written member | corrected member |
|---|---|---|---|---|---|---|
| ping.go:176-194 | `rb = ipv4Payload(rb)` makes the stripped slice the buffer of every later read, and the byte count of `c.Read` is ignored, so each skipped IPv4 echo request shrinks the buffer by its 20-byte header: 88, 68, 48, 28, then 8 bytes, which is no longer stripped | five reads that each deliver an 88-byte IPv4 datagram with first byte 0x45 and an echo request (type 8) at byte 20, as a raw socket delivers the host's own request: the fifth read is reported as a reply of type 0x45 built from the header | every read uses the full 88-byte buffer and only the bytes it delivered are parsed, so echo requests are skipped until a real reply or the deadline | not executed | Icmp.ShrinkingBufferReply | Icmp.AwaitReplyFixed |
