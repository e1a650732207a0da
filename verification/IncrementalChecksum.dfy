/**
  Incremental checksum updates (section 3 of RFC 1624): the single-word update of the ping
  example and the TTL decrement of the l3fwd example.
 */
module IncrementalChecksum {
  import opened OnesComplement
  import opened SegmentSum
  import L4Checksum

  /** Checksum of a byte string that holds zero in its checksum field. */
  function Checksum(be: bool, s: seq<Byte>): (w: Word) { Complement(Fold(Sum(be, s))) }

  lemma CarryFold(n: nat)
    ensures Fold(Carry(n)) == Fold(n)
    ensures n >= 0x1_0000 ==> Carry(n) < n
  {
    assert n == Carry(n) + 65535 * (n / 0x1_0000);
    FoldCongruent(n, Carry(n), n / 0x1_0000);
  }

  /** The updated checksum: the carries are folded in until none is left. */
  method UpdateChksum(chksum: Word, oldWord: Word, newWord: Word) returns (r: Word)
    ensures r == Complement(Fold(Complement(chksum) + Complement(oldWord) + newWord))
  {
    var sum: nat := Complement(chksum) + Complement(oldWord) + newWord;
    ghost var initial := sum;
    while sum / 0x1_0000 != 0
      invariant Fold(sum) == Fold(initial)
      decreases sum
    {
      CarryFold(sum);
      sum := Carry(sum);
    }
    FoldWord(sum);
    r := Complement(sum);
  }

  /**
    Updating equals recomputing after one word has changed, exactly when the changed data is
    not all zero.
   */
  lemma UpdateIsRecompute(be: bool, s: seq<Byte>, t: seq<Byte>, k: nat)
    requires |s| == |t| && k % 2 == 0 && k + 2 <= |s|
    requires forall i :: 0 <= i < |s| && i != k && i != k + 1 ==> s[i] == t[i]
    ensures var v, w := WordAt(be, s, k), WordAt(be, t, k);
            Complement(Fold(Complement(Checksum(be, s)) + Complement(v) + w)) == Checksum(be, t)
            <==> exists i :: 0 <= i < |t| && t[i] != 0
  {
    L4Checksum.ReplaceWord(be, s, t, k);
    SumZero(be, t);
    var v, w := WordAt(be, s, k), WordAt(be, t, k);
    var m, n := Sum(be, s), Sum(be, t);
    var f := Fold(m);
    assert Complement(Checksum(be, s)) == f;
    if m == 0 {
      UptoStep(be, s, k);
      SplitAt(be, s, k + 2, |s|);
      assert s[..|s|] == s;
    }
    var q := 0;
    if m > 0 { q := FoldQuotient(m); }
    assert f + (65535 - v) + w == n + 65535 * (1 - q);
    if n > 0 {
      FoldCongruent(f + (65535 - v) + w, n, 1 - q);
    }
  }

  /** Data that becomes all zero: the updated checksum is 0, the recomputed one 65535. */
  lemma ZeroedExample(be: bool)
    ensures Complement(Fold(Complement(Checksum(be, [0, 1])) + Complement(WordAt(be, [0, 1], 0)) +
        WordAt(be, [0, 0], 0)))
            != Checksum(be, [0, 0])
  {
    UpdateIsRecompute(be, [0, 1], [0, 0], 0);
  }

  /** An IPv4 header in host memory, with its TTL, protocol and checksum fields. */
  class Header {
    const bigEndian: bool
    var bytes: seq<Byte>

    constructor (be: bool, bytes: seq<Byte>)
      ensures bigEndian == be && this.bytes == bytes
    {
      bigEndian := be;
      this.bytes := bytes;
    }

    /** Decrement the TTL and adjust the checksum field by the same amount, with end-around borrow. */
    method DecTtlCsumUpdate()
      requires |bytes| >= 20
      modifies this`bytes
      ensures bytes == DecTtl(bigEndian, old(bytes))
      ensures old(bytes)[0] != 0 && ChecksumCurrent(bigEndian, old(bytes)) ==>
                (ChecksumCurrent(bigEndian, bytes) <==> old(bytes)[8] > 0)
    {
      ghost var h := bytes;
      var one := WordOf(bigEndian, 1, 0);
      var a := Complement(one);
      bytes := bytes[8 := if bytes[8] == 0 then 255 else bytes[8] - 1];
      var chksum := WordOf(bigEndian, bytes[10], bytes[11]);
      if chksum >= a {
        chksum := chksum - a;
      } else {
        chksum := chksum + one;
      }
      bytes := SetChksum(bigEndian, bytes, chksum);
      if h[0] != 0 && ChecksumCurrent(bigEndian, h) { DecTtlKeepsChecksum(bigEndian, h); }
    }
  }

  function SetChksum(be: bool, h: seq<Byte>, c: Word): (r: seq<Byte>)
    requires |h| >= 20
    ensures |r| == |h|
    ensures WordOf(be, r[10], r[11]) == c
    ensures forall i :: 0 <= i < |h| && i != 10 && i != 11 ==> r[i] == h[i]
  {
    h[10 := BytesOf(be, c)[0]][11 := BytesOf(be, c)[1]]
  }

  function DecTtl(be: bool, h: seq<Byte>): (r: seq<Byte>)
    requires |h| >= 20
    ensures |r| == |h|
    ensures forall i :: 0 <= i < |h| && i != 8 && i != 10 && i != 11 ==> r[i] == h[i]
  {
    var one := WordOf(be, 1, 0);
    var c := WordOf(be, h[10], h[11]);
    var c' := if c >= Complement(one) then c - Complement(one) else c + one;
    SetChksum(be, h[8 := if h[8] == 0 then 255 else h[8] - 1], c')
  }

  /** The header checksum: over the header with a zero checksum field. */
  function HeaderChecksum(be: bool, h: seq<Byte>): (w: Word)
    requires |h| >= 20
  {
    Checksum(be, SetChksum(be, h, 0))
  }

  predicate ChecksumCurrent(be: bool, h: seq<Byte>)
    requires |h| >= 20
  {
    WordOf(be, h[10], h[11]) == HeaderChecksum(be, h)
  }

  lemma NonZeroSum(be: bool, s: seq<Byte>)
    requires |s| > 0 && s[0] != 0
    ensures Sum(be, s) > 0
  {
    SumZero(be, s);
  }

  /** The arithmetic of the adjustment on folded values. */
  lemma AdjustFold(m: nat, n: nat, one: nat)
    requires m == n + one && n > 0 && 0 < one < 65535
    ensures var c := 65535 - Fold(m);
            65535 - Fold(n) == if c >= 65535 - one then c - (65535 - one) else c + one
  {
    var f := Fold(m);
    var q := FoldQuotient(m);
    if f <= one {
      FoldUnique(n, 65535 - one + f, q - 1);
    } else {
      FoldUnique(n, f - one, q);
    }
  }

  /**
    For a header with a current checksum and a nonzero version byte, on either byte order, the
    adjusted checksum is again the current one exactly when the TTL was not zero.
   */
  lemma DecTtlKeepsChecksum(be: bool, h: seq<Byte>)
    requires |h| >= 20 && h[0] != 0 && ChecksumCurrent(be, h)
    ensures ChecksumCurrent(be, DecTtl(be, h)) <==> h[8] > 0
    ensures h[8] > 0 ==> DecTtl(be, h)[8] == h[8] - 1
  {
    var r := DecTtl(be, h);
    var s, t := SetChksum(be, h, 0), SetChksum(be, r, 0);
    var one := WordOf(be, 1, 0);
    L4Checksum.ReplaceWord(be, s, t, 8);
    NonZeroSum(be, s);
    NonZeroSum(be, t);
    assert t[9] == s[9] == h[9] && s[8] == h[8] && t[8] == r[8];
    if h[8] > 0 {
      assert WordAt(be, s, 8) == WordAt(be, t, 8) + one;
      AdjustFold(Sum(be, s), Sum(be, t), one);
    } else {
      assert r[8] == 255;
      WrappedTtl(be, Sum(be, s), Sum(be, t));
    }
  }

  /** After a TTL of zero has wrapped around to 255, the adjusted value is off by 256 units. */
  lemma WrappedTtl(be: bool, m: nat, n: nat)
    requires m > 0 && n == m + 255 * WordOf(be, 1, 0)
    ensures var one, c := WordOf(be, 1, 0), 65535 - Fold(m);
            65535 - Fold(n) != if c >= 65535 - one then c - (65535 - one) else c + one
  {
    var one := WordOf(be, 1, 0);
    AdjustFold(m + 65535, m + 65535 - one, one);
    FoldCongruent(m + 65535, m, 1);
    if be {
      FoldDistinct(n, m + 65535 - one, 1);
    } else {
      FoldCongruent(n + 65535, n, 1);
      FoldDistinct(n + 65535, m + 65535 - one, 256);
    }
  }
}
