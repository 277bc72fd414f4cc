/** The Internet checksum of section 1 of RFC 1071 as ping.go computes it: a
    32-bit accumulator of 16-bit words, its carries folded back in, and the
    complement placed in the header. */
module Checksum {
  import opened Common

  /** The sum the checksum loop accumulates before any wrap-around: the
      buffer read as 16-bit words with the first byte of each pair as the low
      byte, and an odd last byte added on its own. */
  function WordSum(b: seq<byte>): nat
    decreases |b|
  {
    if |b| == 0 then 0
    else if |b| == 1 then b[0]
    else b[0] + 256 * b[1] + WordSum(b[2..])
  }

  /** The same sum in network byte order, as section 1 of RFC 1071 writes it:
      the first byte of each pair is the high byte, and an odd last byte is
      padded with a zero byte on its right. */
  function WordSumNet(b: seq<byte>): nat
    decreases |b|
  {
    if |b| == 0 then 0
    else if |b| == 1 then 256 * b[0]
    else 256 * b[0] + b[1] + WordSumNet(b[2..])
  }

  /** The second byte of every pair. */
  function HighBytes(b: seq<byte>): nat
    decreases |b|
  {
    if |b| < 2 then 0 else b[1] + HighBytes(b[2..])
  }

  /** The ones' complement sum of a number: add the carries above 16 bits
      back in until none are left. */
  function Fold(x: nat): (f: nat)
    ensures f < 0x1_0000
    decreases x
  {
    if x < 0x1_0000 then x
    else
      assert x / 0x1_0000 + x % 0x1_0000 < x by {
        assert x == (x / 0x1_0000) * 0x1_0000 + x % 0x1_0000;
      }
      Fold(x / 0x1_0000 + x % 0x1_0000)
  }

  /** Folding keeps the value modulo 0xFFFF and yields zero only for zero. */
  lemma {:induction false} FoldCongruent(x: nat)
    ensures Fold(x) % 0xFFFF == x % 0xFFFF
    ensures Fold(x) == 0 <==> x == 0
    decreases x
  {
    if x >= 0x1_0000 {
      var q, r := x / 0x1_0000, x % 0x1_0000;
      assert x == (q + r) + 0xFFFF * q;
      ModShift(q + r, q, 0xFFFF);
      assert q + r < x;
      FoldCongruent(q + r);
    }
  }

  /** A positive sum that is a multiple of 0xFFFF folds to 0xFFFF, the
      all-ones word that marks a correct checksum. */
  lemma FoldOfMultiple(x: nat)
    requires x > 0 && x % 0xFFFF == 0
    ensures Fold(x) == 0xFFFF
  {
    FoldCongruent(x);
    var f := Fold(x);
    if f != 0xFFFF {
      DivUnique(f, 0xFFFF, 0, f);
    }
  }

  /** The two folding steps of ping.go on a 32-bit accumulator:
      `s = s>>16 + s&0xffff` and then `s = s + s>>16`. */
  function GoFold(s: nat): (t: nat)
    requires s < 0x1_0000_0000
    ensures t < 0x1_0000_0000
  {
    var s1 := s / 0x1_0000 + s % 0x1_0000;
    s1 + s1 / 0x1_0000
  }

  /** Two folding steps suffice for a 32-bit accumulator: the low 16 bits of
      the result are the full ones' complement sum. */
  lemma GoFoldLow(s: nat)
    requires s < 0x1_0000_0000
    ensures GoFold(s) % 0x1_0000 == Fold(s)
  {
    var q, r := s / 0x1_0000, s % 0x1_0000;
    var s1 := q + r;
    if s < 0x1_0000 {
      DivUnique(s, 0x1_0000, 0, s);
      DivUnique(s1, 0x1_0000, 0, s1);
    } else {
      assert q <= 0xFFFF by {
        if q > 0xFFFF {
          MulLe(0x1_0000, q, 0x1_0000);
        }
      }
      assert Fold(s) == Fold(s1);
      if s1 < 0x1_0000 {
        DivUnique(s1, 0x1_0000, 0, s1);
      } else {
        var t := s1 - 0x1_0000;
        DivUnique(s1, 0x1_0000, 1, t);
        assert GoFold(s) == 0x1_0000 + (t + 1);
        DivUnique(GoFold(s), 0x1_0000, 1, t + 1);
        DivUnique(1 + t, 0x1_0000, 0, 1 + t);
        assert Fold(s1) == Fold(1 + t);
      }
    }
  }

  /** The checksum loop of `icmpMessage.Marshal`: add each 16-bit word (the
      first byte of a pair as the low byte) and then an odd last byte to a
      32-bit unsigned accumulator that wraps around. */
  method SumWords(b: seq<byte>) returns (s: nat)
    ensures s == WordSum(b) % 0x1_0000_0000
  {
    var csumcv := |b| - 1;
    s := 0;
    var i := 0;
    while i < csumcv
      invariant 0 <= i <= |b| && i % 2 == 0 && s < 0x1_0000_0000
      invariant (s + WordSum(b[i..])) % 0x1_0000_0000 == WordSum(b) % 0x1_0000_0000
      decreases |b| - i
    {
      var w := (b[i + 1] as int) * 256 + b[i] as int;
      assert WordSum(b[i..]) == w + WordSum(b[i + 2..]) by {
        assert b[i..][2..] == b[i + 2..];
      }
      AccumulateStep(s, w, WordSum(b[i + 2..]), WordSum(b));
      s := (s + w) % 0x1_0000_0000;
      i := i + 2;
    }
    if csumcv % 2 == 0 {
      assert i == csumcv && b[i..] == [b[i]];
      ModAdd(s + b[csumcv] as int, 0, 0x1_0000_0000);
      s := (s + b[csumcv]) % 0x1_0000_0000;
    } else {
      assert i == |b| && b[i..] == [];
    }
    DivUnique(s, 0x1_0000_0000, 0, s);
  }

  /** One step of the wrapping accumulator keeps what is still to be added
      in agreement with the total. */
  lemma AccumulateStep(s: int, w: int, rest: int, total: int)
    requires (s + (w + rest)) % 0x1_0000_0000 == total % 0x1_0000_0000
    ensures ((s + w) % 0x1_0000_0000 + rest) % 0x1_0000_0000 == total % 0x1_0000_0000
  {
    ModAdd(s + w, rest, 0x1_0000_0000);
  }

  /** No pair adds more than twice 32768, so the sum stays below 2^32 for
      buffers under 2^17 bytes. */
  lemma {:induction false} WordSumBound(b: seq<byte>)
    ensures WordSum(b) <= 0x8000 * |b|
    decreases |b|
  {
    if |b| >= 2 {
      WordSumBound(b[2..]);
    }
  }

  /** The two byte orders differ by a multiple of 0xFFFF once the
      little-endian sum is shifted by 8 bits (the byte order independence of
      section 2(B) of RFC 1071). */
  lemma {:induction false} ByteOrder(b: seq<byte>)
    ensures 256 * WordSum(b) == WordSumNet(b) + 0xFFFF * HighBytes(b)
    decreases |b|
  {
    if |b| >= 2 {
      ByteOrder(b[2..]);
    }
  }

  /** Both sums are zero exactly when every byte is zero. */
  lemma {:induction false} SumsZero(b: seq<byte>)
    ensures WordSum(b) == 0 <==> WordSumNet(b) == 0
    ensures WordSum(b) == 0 <==> forall i :: 0 <= i < |b| ==> b[i] == 0
    decreases |b|
  {
    if |b| >= 2 {
      SumsZero(b[2..]);
      assert forall i :: 2 <= i < |b| ==> b[i] == b[2..][i - 2];
    }
  }

  /** A sum that checks in one byte order checks in the other. */
  lemma NetworkOrderChecks(b: seq<byte>)
    requires Fold(WordSum(b)) == 0xFFFF
    ensures Fold(WordSumNet(b)) == 0xFFFF
  {
    FoldCongruent(WordSum(b));
    assert WordSum(b) % 0xFFFF == 0;
    var k := WordSum(b) / 0xFFFF;
    assert WordSum(b) == 0xFFFF * k;
    ByteOrder(b);
    assert WordSumNet(b) == 0xFFFF * (256 * k - HighBytes(b));
    DivUnique(WordSumNet(b), 0xFFFF, 256 * k - HighBytes(b), 0);
    SumsZero(b);
    FoldOfMultiple(WordSumNet(b));
  }

  /** The first four bytes of a buffer as two words. */
  lemma WordSumHead(b: seq<byte>)
    requires |b| >= 4
    ensures WordSum(b) == b[0] + 256 * b[1] + b[2] + 256 * b[3] + WordSum(b[4..])
  {
    assert b[2..][2..] == b[4..];
  }
}
