/**
  One's-complement arithmetic of the Internet checksum (section 1 of RFC 1071), for a host
  of either byte order.  A byte order is a Boolean: true reads two bytes as a big-endian
  16-bit word, false as a little-endian one.
 */
module OnesComplement {

  type Byte = n: int | 0 <= n < 256
  type Word = n: int | 0 <= n < 0x1_0000

  /** The 16-bit word that a host reads from two consecutive bytes. */
  function WordOf(bigEndian: bool, b0: Byte, b1: Byte): (w: Word) {
    if bigEndian then 256 * b0 + b1 else 256 * b1 + b0
  }

  /** The two bytes that a host stores for a 16-bit word. */
  function BytesOf(bigEndian: bool, w: Word): (s: seq<Byte>)
    ensures |s| == 2 && WordOf(bigEndian, s[0], s[1]) == w
  {
    if bigEndian then [w / 256, w % 256] else [w % 256, w / 256]
  }

  /** Exchange of the two bytes of a word. */
  function Swap(w: Word): (r: Word)
    ensures forall be :: WordOf(!be, BytesOf(be, w)[0], BytesOf(be, w)[1]) == r
  {
    256 * (w % 256) + w / 256
  }

  /** Plain sum of the 16-bit words of a byte string; an odd last byte is padded with a zero byte. */
  function Sum(bigEndian: bool, s: seq<Byte>): (n: nat)
    decreases |s|
  {
    if |s| == 0 then 0
    else if |s| == 1 then WordOf(bigEndian, s[0], 0)
    else WordOf(bigEndian, s[0], s[1]) + Sum(bigEndian, s[2..])
  }

  /** The one's-complement value of a sum: zero for zero, else the residue modulo 65535 in 1..65535. */
  function Fold(n: nat): (w: Word)
    ensures w == 0 <==> n == 0
  {
    if n == 0 then 0 else (n - 1) % 65535 + 1
  }

  /** One's complement of a word. */
  function Complement(w: Word): (r: Word) { 65535 - w }

  /** One end-around carry round on a sum. */
  function Carry(n: nat): (r: nat) { n % 0x1_0000 + n / 0x1_0000 }

  lemma FoldUnique(n: nat, w: nat, k: int)
    requires 1 <= w <= 65535 && n == w + 65535 * k && n > 0
    ensures Fold(n) == w
  {
    assert n - 1 == (w - 1) + 65535 * k;
    ModOffset(w - 1, k);
  }

  lemma ModOffset(r: nat, k: int)
    requires r < 65535
    ensures (r + 65535 * k) % 65535 == r
  {
    var n := r + 65535 * k;
    var q, m := n / 65535, n % 65535;
    assert n == 65535 * q + m;
    assert 65535 * (k - q) == m - r;
  }

  lemma FoldQuotient(n: nat) returns (k: nat)
    requires n > 0
    ensures n == Fold(n) + 65535 * k
  {
    k := (n - 1) / 65535;
  }

  /** Sums with the same residue fold to the same word, provided neither or both are zero. */
  lemma FoldCongruent(m: nat, n: nat, k: int)
    requires m == n + 65535 * k
    requires m == 0 <==> n == 0
    ensures Fold(m) == Fold(n)
  {
    if n > 0 {
      var q := FoldQuotient(n);
      FoldUnique(m, Fold(n), q + k);
    }
  }

  /** Sums with different residues fold to different words. */
  lemma FoldDistinct(m: nat, n: nat, d: nat)
    requires m == n + d && 0 < d < 65535
    ensures Fold(m) != Fold(n)
  {
    if n > 0 && Fold(m) == Fold(n) {
      var p := FoldQuotient(m);
      var q := FoldQuotient(n);
      assert false;
    }
  }

  lemma FoldWord(w: Word)
    ensures Fold(w) == w
  {
    if w > 0 { FoldUnique(w, w, 0); }
  }

  /** Two carry rounds take every 32-bit sum to its 16-bit one's-complement value. */
  lemma TwoCarriesSuffice(n: nat)
    requires n < 0x1_0000_0000
    ensures Carry(Carry(n)) == Fold(n)
  {
    var c := Carry(n);
    var d := Carry(c);
    assert n == c + 65535 * (n / 0x1_0000);
    assert c == d + 65535 * (c / 0x1_0000);
    assert d <= 65535;
    if n > 0 {
      FoldUnique(n, d, n / 0x1_0000 + c / 0x1_0000);
    }
  }

  /** The 32-bit bound is what makes two rounds enough: one more bit needs a third round. */
  lemma TwoCarriesNotAlways()
    ensures Carry(Carry(0x1_FFFF_FFFF)) != Fold(0x1_FFFF_FFFF)
  {
  }

  lemma {:induction false} SumAppend(be: bool, a: seq<Byte>, b: seq<Byte>)
    requires |a| % 2 == 0
    ensures Sum(be, a + b) == Sum(be, a) + Sum(be, b)
    decreases |a|
  {
    if a == [] {
      assert a + b == b;
    } else {
      assert (a + b)[2..] == a[2..] + b;
      SumAppend(be, a[2..], b);
    }
  }

  lemma SumStep(be: bool, s: seq<Byte>, p: nat)
    requires p % 2 == 0 && p + 2 <= |s|
    ensures Sum(be, s[..p + 2]) == Sum(be, s[..p]) + WordOf(be, s[p], s[p + 1])
  {
    assert s[..p + 2] == s[..p] + [s[p], s[p + 1]];
    SumAppend(be, s[..p], [s[p], s[p + 1]]);
    assert [s[p], s[p + 1]][2..] == [];
  }

  lemma {:induction false} SumBound(be: bool, s: seq<Byte>)
    ensures 2 * Sum(be, s) <= 65535 * (|s| + 1)
    decreases |s|
  {
    if |s| >= 2 { SumBound(be, s[2..]); }
  }

  lemma {:induction false} SumOtherOrder(be: bool, s: seq<Byte>) returns (k: int)
    ensures 256 * Sum(be, s) == Sum(!be, s) + 65535 * k
    decreases |s|
  {
    if |s| == 0 {
      k := 0;
    } else {
      var b1: Byte := if |s| == 1 then 0 else s[1];
      var j := 0;
      if |s| > 1 { j := SumOtherOrder(be, s[2..]); }
      SumFirst(be, s, b1);
      SumFirst(!be, s, b1);
      WordOtherOrder(be, s[0], b1);
      hide Sum, WordOf;
      k := j + WordOf(be, s[0], b1) / 256;
    }
  }

  lemma SumFirst(be: bool, s: seq<Byte>, b1: Byte)
    requires |s| > 0 && b1 == if |s| == 1 then 0 else s[1]
    ensures Sum(be, s) == WordOf(be, s[0], b1) + if |s| == 1 then 0 else Sum(be, s[2..])
  {
  }

  lemma WordOtherOrder(be: bool, b0: Byte, b1: Byte)
    ensures 256 * WordOf(be, b0, b1) == WordOf(!be, b0, b1) + 65535 * (WordOf(be, b0, b1) / 256)
  {
  }

  lemma SwapCongruent(w: Word)
    ensures 256 * w == Swap(w) + 65535 * (w / 256)
  {
  }

  lemma {:induction false} SumZero(be: bool, s: seq<Byte>)
    ensures Sum(be, s) == 0 <==> forall i :: 0 <= i < |s| ==> s[i] == 0
    decreases |s|
  {
    if |s| >= 2 {
      SumZero(be, s[2..]);
      assert forall i :: 2 <= i < |s| ==> s[i] == s[2..][i - 2];
    }
  }

  lemma FoldOtherOrder(be: bool, s: seq<Byte>)
    ensures Fold(Sum(!be, s)) == Swap(Fold(Sum(be, s)))
  {
    var n, m := Sum(be, s), Sum(!be, s);
    SumZero(be, s);
    SumZero(!be, s);
    if n > 0 {
      var k := SumOtherOrder(be, s);
      var q := FoldQuotient(n);
      SwapCongruent(Fold(n));
      FoldUnique(m, Swap(Fold(n)), Fold(n) / 256 + 256 * q - k);
    }
  }

  lemma BytesOfSwap(be: bool, w: Word)
    ensures BytesOf(!be, Swap(w)) == BytesOf(be, w)
    ensures Complement(Swap(w)) == Swap(Complement(w))
  {
    assert Complement(w) / 256 == 255 - w / 256;
  }

  /**
    Byte-order independence (section 2(B) of RFC 1071): the folded sums computed by hosts of
    opposite byte order are byte swaps of each other, so both store the same two bytes.
   */
  lemma ByteOrderIndependence(be: bool, s: seq<Byte>)
    ensures Fold(Sum(!be, s)) == Swap(Fold(Sum(be, s)))
    ensures BytesOf(!be, Fold(Sum(!be, s))) == BytesOf(be, Fold(Sum(be, s)))
    ensures BytesOf(!be, Complement(Fold(Sum(!be, s)))) == BytesOf(be, Complement(Fold(Sum(be, s))))
  {
    FoldOtherOrder(be, s);
    BytesOfSwap(be, Fold(Sum(be, s)));
    BytesOfSwap(be, Complement(Fold(Sum(be, s))));
  }
}
