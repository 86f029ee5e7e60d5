/** The Internet checksum of RFC 1071 (include/common/util.c) and its use for the IPv4 header
    (dbr/dbr.c). */
module InternetChecksum {

  type Octet = x: int | 0 <= x < 256

  const WORD32: nat := 0x1_0000_0000

  function Word(lo: Octet, hi: Octet): nat {
    lo as int + 256 * (hi as int)
  }

  /** The sum of the 16-bit words of a buffer, in host (little-endian) order; a left-over byte
      counts as a word of its own. */
  function WordSum(b: seq<Octet>): nat {
    if |b| == 0 then 0
    else if |b| == 1 then b[0]
    else Word(b[0], b[1]) + WordSum(b[2..])
  }

  /** Words are little-endian: the bytes at even positions count once, those at odd ones 256 times. */
  lemma {:induction false} WordSumBytes(b: seq<Octet>)
    ensures WordSum(b) == Alternate(b, 0) + 256 * Alternate(b, 1)
  {
    if |b| >= 2 {
      WordSumBytes(b[2..]);
      AlternateNext(b, 0);
      AlternateNext(b, 1);
    }
  }

  /** The sum of every second byte. */
  function Alternate(b: seq<Octet>, from: nat): nat
    decreases |b| - from
  {
    if from < |b| then b[from] + Alternate(b, from + 2) else 0
  }

  lemma {:induction false} AlternateTail(b: seq<Octet>, from: nat)
    requires |b| >= 2
    ensures Alternate(b, from + 2) == Alternate(b[2..], from)
    decreases |b| - from
  {
    if from + 2 < |b| {
      AlternateTail(b, from + 2);
    }
  }

  lemma AlternateNext(b: seq<Octet>, from: nat)
    requires |b| >= 2 && from < 2
    ensures Alternate(b, from) == b[from] as int + Alternate(b[2..], from)
  {
    AlternateTail(b, from);
  }

  /** The one's complement value of a sum in 16 bits: 0 stays 0, any other sum becomes the number
      from 1 to 65535 congruent to it modulo 65535. */
  function OnesSum(s: nat): (r: nat)
    ensures r <= 65535 && (r == 0 <==> s == 0)
  {
    if s == 0 then 0 else 1 + (s - 1) % 65535
  }

  lemma OnesSumCongruent(s: nat)
    ensures OnesSum(s) % 65535 == s % 65535
  {
    if s > 0 {
      var q := (s - 1) / 65535;
      assert s == 65535 * q + OnesSum(s);
      AddMultiple(OnesSum(s), q);
    }
  }

  /** So 65537 words cannot overflow a 32-bit sum. */
  lemma {:induction false} WordSumBound(b: seq<Octet>)
    ensures WordSum(b) <= 65535 * ((|b| + 1) / 2)
  {
    if |b| >= 2 {
      WordSumBound(b[2..]);
    }
  }

  /** A buffer of n words, all bits set. */
  function AllOnes(n: nat): seq<Octet> {
    if n == 0 then [] else [255, 255] + AllOnes(n - 1)
  }

  /** The bound is reached, so that 65538 words can overflow. */
  lemma {:induction false} BoundIsReached(n: nat)
    ensures |AllOnes(n)| == 2 * n && WordSum(AllOnes(n)) == 65535 * n
    ensures n <= 65537 <==> WordSum(AllOnes(n)) < WORD32
  {
    if n > 0 {
      BoundIsReached(n - 1);
      assert AllOnes(n)[2..] == AllOnes(n - 1);
    }
  }

  lemma FoldKeepsOnesSum(s: nat)
    requires s >= 0x1_0000
    ensures OnesSum(s % 0x1_0000 + s / 0x1_0000) == OnesSum(s)
  {
    var q, r := s / 0x1_0000, s % 0x1_0000;
    assert s - 1 == 65535 * q + (r + q - 1);
    AddMultiple(r + q - 1, q);
  }

  lemma {:induction false} AddMultiple(x: nat, q: nat)
    ensures (65535 * q + x) % 65535 == x % 65535
  {
    if q > 0 {
      AddMultiple(x, q - 1);
      assert 65535 * q + x == (65535 * (q - 1) + x) + 65535;
    }
  }

  /** A sum in 32 bits. */
  function Wrap(x: nat): (r: nat)
    ensures r < WORD32
  {
    x % WORD32
  }

  lemma WrapAdds(x: nat, y: nat)
    ensures Wrap(Wrap(x) + y) == Wrap(x + y) && (x < WORD32 ==> Wrap(x) == x)
  {
  }

  /** The folding loop. */
  method Fold(s: nat) returns (r: nat)
    ensures r == OnesSum(s)
  {
    r := s;
    while r >= 0x1_0000
      invariant OnesSum(r) == OnesSum(s)
    {
      FoldKeepsOnesSum(r);
      r := r % 0x1_0000 + r / 0x1_0000;
    }
  }

  lemma SmallSum(b: seq<Octet>)
    ensures |b| <= 2 * 65537 ==> Wrap(WordSum(b)) == WordSum(b)
  {
    WordSumBound(b);
  }

  /** The checksum of a buffer. The sum is kept in 32 bits; up to 65537 words it cannot overflow. */
  method Checksum(b: seq<Octet>) returns (answer: nat)
    ensures answer == 65535 - OnesSum(Wrap(WordSum(b)))
    ensures |b| <= 2 * 65537 ==> answer == 65535 - OnesSum(WordSum(b))
  {
    hide OnesSum, Word, Wrap;
    SmallSum(b);
    var sum: nat, i := 0, 0;
    while |b| - i > 1
      invariant i <= |b| && sum < WORD32
      invariant Wrap(sum + WordSum(b[i..])) == Wrap(WordSum(b))
    {
      assert b[i..][2..] == b[i + 2..];
      WrapAdds(sum + Word(b[i], b[i + 1]), WordSum(b[i + 2..]));
      sum := Wrap(sum + Word(b[i], b[i + 1]));
      i := i + 2;
    }
    WrapAdds(sum, 0);
    if |b| - i > 0 {
      assert WordSum(b[i..]) == b[i];
      sum := Wrap(sum + b[i] as int);
    }
    sum := Fold(sum);
    answer := 65535 - sum;
  }

  /** Write a 16-bit value at an offset, low byte first. */
  function Store(b: seq<Octet>, at: nat, v: nat): (r: seq<Octet>)
    requires at + 1 < |b| && v < 0x1_0000
    ensures |r| == |b|
  {
    b[at := v % 256][at + 1 := v / 256]
  }

  /** Storing into a zeroed aligned field adds the value to the sum. */
  lemma {:induction false} StoreAdds(b: seq<Octet>, at: nat, v: nat)
    requires at % 2 == 0 && at + 1 < |b| && v < 0x1_0000
    requires b[at] == 0 && b[at + 1] == 0
    ensures WordSum(Store(b, at, v)) == WordSum(b) + v
  {
    var c := Store(b, at, v);
    if at == 0 {
      assert c[2..] == b[2..];
    } else {
      assert c[2..] == Store(b[2..], at - 2, v);
      StoreAdds(b[2..], at - 2, v);
    }
  }

  /** Adding v to a non-zero sum gives negative zero exactly when v is the complement of the sum,
      up to the two representations of zero. */
  lemma ComplementIsUnique(s: nat, v: nat)
    requires 0 < s && v < 0x1_0000
    ensures OnesSum(s + v) == 65535 <==> (v + OnesSum(s)) % 65535 == 0
  {
    var q := (s - 1) / 65535;
    assert s - 1 == 65535 * q + (OnesSum(s) - 1);
    AddMultiple(OnesSum(s) - 1 + v, q);
    assert s + v - 1 == 65535 * q + (OnesSum(s) - 1 + v);
  }

  /** Filling a header field with the checksum of the header, computed while the field is zero,
      makes the checksum of the header zero. */
  method FillChecksum(header: seq<Octet>, at: nat) returns (filled: seq<Octet>, again: nat)
    requires at % 2 == 0 && at + 1 < |header| <= 2 * 65537
    ensures filled == Store(header, at, 65535 - OnesSum(WordSum(Store(header, at, 0))))
    ensures again == 65535 - OnesSum(WordSum(filled)) == 0
    ensures |filled| == |header| && forall i :: 0 <= i < |header| && i != at && i != at + 1 ==> filled[i] == header[i]
    ensures filled[at] as int + 256 * (filled[at + 1] as int) == 65535 - OnesSum(WordSum(header[at := 0][at + 1 := 0]))
  {
    hide OnesSum;
    var zeroed := Store(header, at, 0);
    var v := Checksum(zeroed);
    filled := Store(zeroed, at, v);
    assert filled == Store(header, at, v);
    StoreAdds(zeroed, at, v);
    ComplementCloses(WordSum(zeroed));
    again := Checksum(filled);
  }

  lemma ComplementCloses(s: nat)
    ensures OnesSum(s + (65535 - OnesSum(s))) == 65535
  {
    if s > 0 {
      ComplementIsUnique(s, 65535 - OnesSum(s));
    }
  }
}
