/** The one's-complement checksum of RFC 1071. */
module Checksum {
  import opened Common
  import opened Bytes

  function Hi(v: UInt16): Byte { v / 256 }

  function Lo(v: UInt16): Byte { v % 256 }

  function Word(hi: Byte, lo: Byte): UInt16 { hi * 256 + lo }

  /** Sum of the 16-bit words; an odd last byte is the high half of a word. */
  function WordSum(b: seq<Byte>): nat {
    if b == [] then 0
    else if |b| == 1 then b[0] * 256
    else Word(b[0], b[1]) + WordSum(b[2..])
  }

  function Fold(n: nat): (r: UInt16) {
    if n < 0x1_0000 then n else Fold(n % 0x1_0000 + n / 0x1_0000)
  }

  lemma Casting(q: nat, x: nat)
    ensures (65535 * q + x) % 65535 == x % 65535
  {
    var p := x / 65535;
    assert 65535 * q + x == 65535 * (q + p) + x % 65535;
  }

  /** Folding carries back in keeps the sum modulo 65535 and loses no non-zero sum. */
  lemma {:induction false} FoldKeeps(n: nat)
    ensures Fold(n) % 65535 == n % 65535 && (Fold(n) == 0 <==> n == 0)
  {
    if n < 0x1_0000 {
    } else {
      var q, r := n / 0x1_0000, n % 0x1_0000;
      FoldKeeps(r + q);
      Casting(q, r + q);
    }
  }

  function Sum(b: seq<Byte>): UInt16 {
    65535 - Fold(WordSum(b))
  }

  /** What a receiver checks: the sum over everything, checksum included, complements to zero. */
  predicate Verifies(b: seq<Byte>) {
    Sum(b) == 0
  }

  lemma {:induction false} WordSumAppend(a: seq<Byte>, b: seq<Byte>)
    requires |a| % 2 == 0
    ensures WordSum(a + b) == WordSum(a) + WordSum(b)
    decreases |a|
  {
    if a == [] {
      assert a + b == b;
    } else {
      assert (a + b)[2..] == a[2..] + b;
      WordSumAppend(a[2..], b);
    }
  }

  lemma Halves(v: UInt16)
    ensures Word(Hi(v), Lo(v)) == v
  {
  }

  lemma ZeroWord()
    ensures Word(0, 0) == 0
  {
  }

  lemma FoldComplement(s: nat)
    ensures Fold(s + 65535 - Fold(s)) == 65535
  {
    hide Fold;
    FoldKeeps(s);
    Complement(s, Fold(s));
    FoldKeeps(s + 65535 - Fold(s));
  }

  /** Writing the checksum into a zeroed word makes the whole verify. */
  lemma FilledVerifies(front: seq<Byte>, back: seq<Byte>)
    requires |front| % 2 == 0
    ensures var ck := Sum(front + [0, 0] + back); Verifies(front + [Hi(ck), Lo(ck)] + back)
  {
    hide WordSum, Fold, Hi, Lo, Word;
    var s := WordSum(front + [0, 0] + back);
    var ck: UInt16 := 65535 - Fold(s);
    Filled(front, [0, 0], back);
    Filled(front, [Hi(ck), Lo(ck)], back);
    Halves(ck);
    ZeroWord();
    FoldComplement(s);
  }

  lemma Filled(front: seq<Byte>, word: seq<Byte>, back: seq<Byte>)
    requires |front| % 2 == 0 && |word| == 2
    ensures WordSum(front + word + back) == WordSum(front) + Word(word[0], word[1]) + WordSum(back)
  {
    WordSumAppend(front + word, back);
    WordSumAppend(front, word);
    assert word[2..] == [];
  }

  lemma Complement(s: nat, f: UInt16)
    requires f % 65535 == s % 65535
    ensures (s + 65535 - f) % 65535 == 0
  {
    var q := s / 65535;
    assert f == 65535 || f == s % 65535;
    assert s + 65535 - f == 65535 * (q + 1) || s + 65535 - f == 65535 * q + s % 65535;
  }

  lemma NothingSums()
    ensures WordSum([]) == 0
  {
  }

  lemma WordSumStep(s: seq<Byte>, k: nat)
    requires k % 2 == 0 && k < |s|
    ensures k + 1 < |s| ==> WordSum(s[..k + 2]) == WordSum(s[..k]) + Word(s[k], s[k + 1])
    ensures k + 1 == |s| ==> WordSum(s) == WordSum(s[..k]) + 256 * (s[k] as int)
  {
    if k + 1 < |s| {
      assert s[..k + 2] == s[..k] + [s[k], s[k + 1]];
      WordSumAppend(s[..k], [s[k], s[k + 1]]);
      assert [s[k], s[k + 1]][2..] == [];
    } else {
      assert s == s[..k] + [s[k]];
      WordSumAppend(s[..k], [s[k]]);
    }
  }

  /** The sum fits 32 bits for anything a packet can hold, so the additions never trap. */
  method AddWords(bytes: seq<Byte>) returns (sum: UInt32)
    requires |bytes| <= 131072
    ensures sum == WordSum(bytes)
  {
    sum := 0;
    var i := 0;
    hide WordSum, Word;
    assert WordSum(bytes[..0]) == 0 by { NothingSums(); }
    while i + 1 < |bytes|
      invariant 0 <= i <= |bytes| && i % 2 == 0
      invariant sum == WordSum(bytes[..i]) && 2 * sum <= 65535 * i
    {
      WordSumStep(bytes, i);
      sum := sum + Word(bytes[i], bytes[i + 1]);
      i := i + 2;
    }
    if i < |bytes| {
      WordSumStep(bytes, i);
      sum := sum + 256 * (bytes[i] as int);
    } else {
      assert bytes == bytes[..i];
    }
  }

  method OnesComplementChecksum(bytes: seq<Byte>, start: nat, count: nat) returns (ck: UInt16)
    requires start + count <= |bytes| && count <= 131072
    ensures ck == Sum(bytes[start..start + count])
  {
    hide WordSum, Word;
    var sum := AddWords(bytes[start..start + count]);
    ghost var whole := sum;
    while sum / 0x1_0000 != 0
      invariant Fold(sum) == Fold(whole)
      decreases sum
    {
      sum := sum % 0x1_0000 + sum / 0x1_0000;
    }
    ck := 65535 - sum;
  }
}
