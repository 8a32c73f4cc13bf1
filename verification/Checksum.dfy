/** The Internet checksum (RFC 1071): 16-bit one's complement sums of byte strings. */
module Checksum {
  import opened Bytes

  /** The plain sum of the big-endian 16-bit words of `s`, the last one zero-padded. */
  function WordSum(s: seq<u8>): (n: nat)
  {
    if |s| == 0 then 0
    else if |s| == 1 then Word(s[0], 0)
    else Word(s[0], s[1]) + WordSum(s[2..])
  }

  /** Folding the carries of an accumulator back into its low 16 bits until none is left. */
  function Fold(n: nat): (r: u16)
    decreases n
  {
    if n < 0x1_0000 then n else Fold(n % 0x1_0000 + n / 0x1_0000)
  }

  /** One's complement addition of two words: the carry comes around at the low end. */
  function OnesAdd(a: u16, b: u16): (r: u16) {
    if a + b < 0x1_0000 then a + b else a + b - 0xFFFF
  }

  /** The one's complement sum as RFC 1071 defines it: an end-around carry after every word. */
  function OnesSum(acc: u16, s: seq<u8>): (r: u16)
    decreases |s|
  {
    if |s| == 0 then acc
    else if |s| == 1 then OnesAdd(acc, Word(s[0], 0))
    else OnesSum(OnesAdd(acc, Word(s[0], s[1])), s[2..])
  }

  /** What a receiver checks: the sum over the data, checksum field included, is all ones. */
  ghost predicate Verifies(s: seq<u8>) {
    OnesSum(0, s) == 0xFFFF
  }

  lemma {:induction false} WordSumBound(s: seq<u8>)
    ensures WordSum(s) <= 0xFFFF * ((|s| + 1) / 2)
  {
    if |s| >= 2 {
      WordSumBound(s[2..]);
    }
  }

  /** Folding keeps the residue modulo 65535 and reaches zero only from zero. */
  lemma {:induction false} FoldResidue(n: nat)
    ensures Fold(n) % 0xFFFF == n % 0xFFFF
    ensures Fold(n) == 0 <==> n == 0
    ensures Fold(n) <= n
    decreases n
  {
    if n >= 0x1_0000 {
      var q, r := n / 0x1_0000, n % 0x1_0000;
      FoldResidue(r + q);
      assert n == (r + q) + 0xFFFF * q;
      AddMultiple(r + q, q);
    }
  }

  lemma {:induction false} AddMultiple(a: nat, k: nat)
    ensures (a + 0xFFFF * k) % 0xFFFF == a % 0xFFFF
  {
  }

  /** The residue determines the fold, apart from the two representations of zero. */
  lemma FoldUnique(n: nat, r: u16)
    requires n % 0xFFFF == r % 0xFFFF && (n == 0 <==> r == 0)
    ensures Fold(n) == r
  {
    FoldResidue(n);
  }

  lemma FoldShift(m: nat)
    requires m > 0
    ensures Fold(m + 0xFFFF) == Fold(m)
  {
    FoldResidue(m);
    AddMultiple(m, 1);
    FoldUnique(m + 0xFFFF, Fold(m));
  }

  /** Deferring the carries (one wide accumulator, folded at the end) computes the RFC's sum. */
  lemma {:induction false} FoldIsOnesSum(acc: u16, s: seq<u8>)
    ensures Fold(acc + WordSum(s)) == OnesSum(acc, s)
    decreases |s|
  {
    if |s| != 0 {
      var w, rest := if |s| == 1 then Word(s[0], 0) else Word(s[0], s[1]), if |s| == 1 then [] else s[2..];
      var acc' := OnesAdd(acc, w);
      FoldIsOnesSum(acc', rest);
      if acc' != acc + w {
        FoldShift(acc' + WordSum(rest));
      }
    }
  }

  /** Adding the complement of the folded sum makes the whole fold to all ones. */
  lemma ComplementVerifies(n: nat)
    ensures Fold(n + (0xFFFF - Fold(n))) == 0xFFFF
  {
    FoldResidue(n);
    FoldUnique(n + (0xFFFF - Fold(n)), 0xFFFF);
  }

  lemma {:induction false} WordSumConcat(a: seq<u8>, b: seq<u8>)
    requires |a| % 2 == 0
    ensures WordSum(a + b) == WordSum(a) + WordSum(b)
  {
    if |a| == 0 {
      assert a + b == b;
    } else {
      assert (a + b)[2..] == a[2..] + b;
      WordSumConcat(a[2..], b);
    }
  }

  /** Storing a word at offset `k`, high byte first. */
  function PutWord(s: seq<u8>, k: nat, w: u16): (r: seq<u8>)
    requires k + 2 <= |s|
    ensures |r| == |s|
  {
    s[k := w / 256][k + 1 := w % 256]
  }

  lemma WordSumSplit(a: seq<u8>, w: seq<u8>, b: seq<u8>)
    requires |a| % 2 == 0 && |w| == 2
    ensures WordSum(a + w + b) == WordSum(a) + Word(w[0], w[1]) + WordSum(b)
  {
    assert a + w + b == a + (w + b);
    WordSumConcat(a, w + b);
    assert (w + b)[2..] == b;
  }

  lemma PutWordSum(s: seq<u8>, k: nat, w: u16)
    requires k + 2 <= |s| && k % 2 == 0
    ensures WordSum(PutWord(s, k, w)) == WordSum(s[..k]) + w + WordSum(s[k + 2..])
  {
    var t := PutWord(s, k, w);
    assert t == s[..k] + t[k..k + 2] + s[k + 2..];
    WordSumSplit(s[..k], t[k..k + 2], s[k + 2..]);
  }

  /**
   * The checksum of `prefix + s` when the word at offset `k` of `s` is the checksum field:
   * the complement of the folded sum taken with that field zeroed.
   */
  function FieldChecksum(prefix: seq<u8>, s: seq<u8>, k: nat): (c: u16)
    requires k + 2 <= |s|
  {
    0xFFFF - Fold(WordSum(prefix) + WordSum(PutWord(s, k, 0)))
  }

  lemma FieldSum(prefix: seq<u8>, s: seq<u8>, k: nat, w: u16)
    requires k + 2 <= |s| && k % 2 == 0 && |prefix| % 2 == 0
    ensures WordSum(prefix + PutWord(s, k, w)) == WordSum(prefix) + WordSum(PutWord(s, k, 0)) + w
  {
    PutWordSum(s, k, w);
    PutWordSum(s, k, 0);
    WordSumConcat(prefix, PutWord(s, k, w));
  }

  lemma VerifiesIfFolds(s: seq<u8>)
    requires Fold(WordSum(s)) == 0xFFFF
    ensures Verifies(s)
  {
    FoldIsOnesSum(0, s);
  }

  /** Storing that checksum makes the data verify, whatever the field held before. */
  lemma FieldChecksumVerifies(prefix: seq<u8>, s: seq<u8>, k: nat)
    requires k + 2 <= |s| && k % 2 == 0 && |prefix| % 2 == 0
    ensures Verifies(prefix + PutWord(s, k, FieldChecksum(prefix, s, k)))
  {
    var c := FieldChecksum(prefix, s, k);
    FieldSum(prefix, s, k, c);
    ComplementVerifies(WordSum(prefix) + WordSum(PutWord(s, k, 0)));
    VerifiesIfFolds(prefix + PutWord(s, k, c));
  }

  /** The fold loop of both checksum routines on a 32-bit accumulator. */
  method FoldCarries(total: u32) returns (sum: u16)
    ensures sum == Fold(total)
  {
    var acc: u32 := total;
    while acc / 0x1_0000 != 0
      invariant Fold(acc) == Fold(total)
      decreases acc
    {
      acc := acc % 0x1_0000 + acc / 0x1_0000;
    }
    sum := acc;
  }

  /** Adding up the words of `data[from..to]` in a 32-bit accumulator that cannot overflow. */
  method AccumulateWords(start: u32, data: array<u8>, from: nat, to: nat) returns (sum: u32)
    requires from <= to <= data.Length && to - from <= 0xFFFF
    requires start <= 0xFFFF * 8
    ensures sum == start + WordSum(data[from..to])
  {
    ghost var words := data[from..to];
    WordSumBound(words);
    sum := start;
    var i := 0;
    while i + 1 < to - from
      invariant 0 <= i <= to - from
      invariant sum + WordSum(words[i..]) == start + WordSum(words)
    {
      assert words[i..][2..] == words[i + 2..];
      sum := sum + Word(data[from + i], data[from + i + 1]);
      i := i + 2;
    }
    if i < to - from {
      sum := sum + Word(data[from + i], 0);
    }
  }

  /** `ip_checksum` of the slice `data[from..to]`. */
  method IpChecksum(data: array<u8>, from: nat, to: nat) returns (c: u16)
    requires from <= to <= data.Length && to - from <= 0xFFFF
    ensures c == 0xFFFF - Fold(WordSum(data[from..to]))
  {
    var total := AccumulateWords(0, data, from, to);
    var sum := FoldCarries(total);
    c := 0xFFFF - sum;
  }

  /** A checksum taken over data whose field at `k` is zero verifies once stored there. */
  lemma ZeroFieldVerifies(s: seq<u8>, k: nat)
    requires k + 2 <= |s| && k % 2 == 0 && s[k] == s[k + 1] == 0
    ensures Verifies(PutWord(s, k, 0xFFFF - Fold(WordSum(s))))
  {
    assert PutWord(s, k, 0) == s;
    var c := FieldChecksum([], s, k);
    assert c == 0xFFFF - Fold(WordSum(s));
    FieldChecksumVerifies([], s, k);
    assert [] + PutWord(s, k, c) == PutWord(s, k, c);
  }
}
