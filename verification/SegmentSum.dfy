/**
  The segment-wise sum of helper/chksum.c.  Packet data is a flat byte string cut into
  segments; the code never sees across a segment end and carries an odd byte over instead.
 */
module SegmentSum {
  import opened Basics
  import opened OnesComplement

  const MAX_LEN := 65535

  /** uint32_t addition, at places where it does not wrap around. */
  function Add32(a: nat, b: nat): (r: nat)
    requires a + b < TWO32
  {
    a + b
  }

  function EvenPart(s: seq<Byte>): (r: seq<Byte>)
    ensures |r| % 2 == 0 && r <= s && |s| <= |r| + 1
  {
    s[..|s| - |s| % 2]
  }

  /** The bytes a segment contributes: a carried byte, if any, then the segment. */
  function Carried(hasOdd: bool, odd: Byte, s: seq<Byte>): (r: seq<Byte>) {
    if hasOdd then [odd] + s else s
  }

  function WordAt(be: bool, s: seq<Byte>, p: nat): (w: nat)
    requires p + 2 <= |s|
    ensures w < 0x1_0000
  {
    WordOf(be, s[p], s[p + 1])
  }

  /** Sum of the words before an even position. */
  ghost function Upto(be: bool, s: seq<Byte>, p: nat): (n: nat)
    requires p <= |s|
    ensures 2 * n <= 65535 * (p + 1)
  {
    SumBound(be, s[..p]);
    Sum(be, s[..p])
  }

  lemma UptoStep(be: bool, s: seq<Byte>, p: nat)
    requires p % 2 == 0 && p + 2 <= |s|
    ensures Upto(be, s, p + 2) == Upto(be, s, p) + WordAt(be, s, p)
  {
    SumStep(be, s, p);
  }

  /** Sixteen bytes are the eight words of one unrolled round. */
  lemma UptoSixteen(be: bool, s: seq<Byte>, p: nat)
    requires p % 2 == 0 && p + 16 <= |s|
    ensures Upto(be, s, p + 16) == Upto(be, s, p)
            + WordAt(be, s, p) + WordAt(be, s, p + 2) + WordAt(be, s, p + 4) + WordAt(be, s, p + 6)
            + WordAt(be, s, p + 8) + WordAt(be, s, p + 10) + WordAt(be, s, p + 12) + WordAt(be, s, p + 14)
  {
    UptoStep(be, s, p);
    UptoStep(be, s, p + 2);
    UptoStep(be, s, p + 4);
    UptoStep(be, s, p + 6);
    UptoStep(be, s, p + 8);
    UptoStep(be, s, p + 10);
    UptoStep(be, s, p + 12);
    UptoStep(be, s, p + 14);
  }

  lemma Even(h: nat)
    ensures 2 * h % 2 == 0
  {
  }

  /** Rounds of sixteen bytes and the words behind them. */
  lemma Lengths(n: nat)
    ensures 16 * (n / 16) <= n && 16 * (n / 16) + 2 * ((n - 16 * (n / 16)) / 2) == n - n % 2
  {
  }

  /** The words of a string read in 16-byte rounds and then word by word, without overflow. */
  method SumAligned(be: bool, s: seq<Byte>, start: Word) returns (sum: nat)
    requires |s| <= MAX_LEN
    ensures sum == start + Sum(be, EvenPart(s)) && sum < TWO32
  {
    hide Sum, Upto, WordAt, EvenPart;
    sum := start;
    var dataLen, p := |s|, 0;
    UptoNone(be, s);
    var chunks := dataLen / 16;
    Lengths(|s|);
    for idx := 0 to chunks
      invariant p == 16 * idx && dataLen == |s| - p
      invariant sum == start + Upto(be, s, p)
    {
      Even(8 * idx);
      sum := SumRound(be, s, p, sum, start);
      dataLen := dataLen - 16;
      p := p + 16;
    }
    var words := dataLen / 2;
    for idx := 0 to words
      invariant p == 16 * chunks + 2 * idx
      invariant sum == start + Upto(be, s, p)
    {
      Even(8 * chunks + idx);
      UptoStep(be, s, p);
      sum := Add32(sum, WordAt(be, s, p));
      p := p + 2;
    }
    EvenUpto(be, s, p);
  }

  /** One round of sixteen bytes: eight words, two at a time. */
  method SumRound(be: bool, s: seq<Byte>, p: nat, before: nat, ghost start: Word) returns (sum: nat)
    requires |s| <= MAX_LEN && p % 2 == 0 && p + 16 <= |s| && before == start + Upto(be, s, p)
    ensures sum == start + Upto(be, s, p + 16)
  {
    hide Sum, Upto, WordAt;
    UptoSixteen(be, s, p);
    var data0, data1 := WordAt(be, s, p), WordAt(be, s, p + 2);
    var data2, data3 := WordAt(be, s, p + 4), WordAt(be, s, p + 6);
    var data4, data5 := WordAt(be, s, p + 8), WordAt(be, s, p + 10);
    var data6, data7 := WordAt(be, s, p + 12), WordAt(be, s, p + 14);
    sum := Add32(before, data0 + data1);
    sum := Add32(sum, data2 + data3);
    sum := Add32(sum, data4 + data5);
    sum := Add32(sum, data6 + data7);
  }

  lemma EvenUpto(be: bool, s: seq<Byte>, p: nat)
    requires p == |s| - |s| % 2
    ensures Upto(be, s, p) == Sum(be, EvenPart(s)) && 2 * Upto(be, s, p) <= 65535 * (|s| + 1)
  {
    UptoIs(be, s, p);
    SumBound(be, s[..p]);
    hide Sum;
    assert s[..p] == EvenPart(s);
  }

  lemma UptoNone(be: bool, s: seq<Byte>)
    ensures Upto(be, s, 0) == 0
  {
    assert s[..0] == [];
  }

  lemma CarriedPair(be: bool, odd: Byte, data: seq<Byte>)
    requires |data| >= 1
    ensures var eff, rest := Carried(true, odd, data), data[1..];
            && Sum(be, eff) == WordOf(be, odd, data[0]) + Sum(be, rest)
            && Sum(be, EvenPart(eff)) == WordOf(be, odd, data[0]) + Sum(be, EvenPart(rest))
  {
    var eff, rest := Carried(true, odd, data), data[1..];
    assert eff[2..] == rest;
    assert EvenPart(eff)[2..] == EvenPart(rest);
  }

  lemma OddLast(be: bool, s: seq<Byte>)
    requires |s| % 2 == 1
    ensures Sum(be, s) == Sum(be, EvenPart(s)) + WordOf(be, s[|s| - 1], 0)
  {
    var last := s[|s| - 1];
    assert s == EvenPart(s) + [last];
    SumAppend(be, EvenPart(s), [last]);
  }

  /**
    The sum of one segment.  It is the sum of the carried byte and the segment taken together;
    an unpaired last byte is padded in the last segment and otherwise handed on.
   */
  method DataSegSum(be: bool, data: seq<Byte>, isLast: bool, hasOddIn: bool, oddIn: Byte)
    returns (sum: nat, oddOut: Byte)
    requires hasOddIn ==> |data| >= 1
    requires |data| <= MAX_LEN
    ensures var eff := Carried(hasOddIn, oddIn, data);
            && sum == Sum(be, if isLast then eff else EvenPart(eff))
            && sum < TWO32
            && oddOut == if |eff| % 2 == 1 && !isLast then eff[|eff| - 1] else oddIn
  {
    ghost var eff := Carried(hasOddIn, oddIn, data);
    var start: Word, rest := 0, data;
    if hasOddIn {
      start := WordOf(be, oddIn, data[0]);
      rest := data[1..];
      CarriedPair(be, oddIn, data);
    }
    sum := SumAligned(be, rest, start);
    SumBound(be, rest);
    oddOut := oddIn;
    if |rest| % 2 == 0 {
      assert EvenPart(eff) == eff;
      return;
    }
    OddLast(be, rest);
    if isLast {
      sum := Add32(sum, WordOf(be, rest[|rest| - 1], 0));
    } else {
      oddOut := rest[|rest| - 1];
    }
  }

  /** Total length of segments. */
  function Total(lens: seq<nat>): (n: nat) {
    if lens == [] then 0 else Total(lens[..|lens| - 1]) + lens[|lens| - 1]
  }

  /** Offset at which segment i starts. */
  function Start(lens: seq<nat>, i: nat): (n: nat)
    requires i <= |lens|
  {
    Total(lens[..i])
  }

  lemma StartNext(lens: seq<nat>, i: nat)
    requires i < |lens|
    ensures Start(lens, i + 1) == Start(lens, i) + lens[i]
  {
    assert lens[..i + 1][..i] == lens[..i];
  }

  lemma {:induction false} StartMonotone(lens: seq<nat>, i: nat, j: nat)
    requires i <= j <= |lens|
    ensures Start(lens, i) <= Start(lens, j)
    decreases j
  {
    if i < j {
      StartMonotone(lens, i, j - 1);
      StartNext(lens, j - 1);
    }
  }

  /** Some segment ends exactly after n bytes. */
  ghost predicate EndsAtSegment(lens: seq<nat>, n: nat) {
    exists i :: 0 < i <= |lens| && Start(lens, i) == n
  }

  /** The bytes the walk over the segments sums: all of them, unless an odd last byte lies inside a segment. */
  ghost function Summed(data: seq<Byte>, lens: seq<nat>): (s: seq<Byte>) {
    if EndsAtSegment(lens, |data|) then data else EvenPart(data)
  }

  lemma InsideSegment(lens: seq<nat>, i: nat, n: nat)
    requires i < |lens| && Start(lens, i) <= n < Start(lens, i + 1)
    requires Start(lens, i) < n || i == 0
    ensures !EndsAtSegment(lens, n)
  {
    forall j | 0 < j <= |lens| ensures Start(lens, j) != n {
      if j <= i {
        StartMonotone(lens, j, i);
      } else {
        StartMonotone(lens, i + 1, j);
      }
    }
  }

  /** The even part of the bytes from e to m, both counted from an even position. */
  lemma EvenSlice(data: seq<Byte>, e: nat, m: nat, f: nat)
    requires e <= f <= m <= |data| && m <= f + 1 && e % 2 == 0 && f % 2 == 0
    ensures EvenPart(data[e..m]) == data[e..f]
  {
    assert (m - e) % 2 == m - f;
  }

  lemma SplitAt(be: bool, data: seq<Byte>, e: nat, m: nat)
    requires e <= m <= |data| && e % 2 == 0
    ensures Upto(be, data, m) == Upto(be, data, e) + Sum(be, data[e..m])
  {
    assert data[..m] == data[..e] + data[e..m];
    SumAppend(be, data[..e], data[e..m]);
  }

  /**
    Adding segment [o, m) to what has been summed: e and f are the ends of the last complete
    words before o and before m.
   */
  lemma SegmentExtends(be: bool, data: seq<Byte>, e: nat, o: nat, f: nat, m: nat, hasOdd: bool, odd: Byte)
    requires e <= o <= e + 1 && f <= m <= f + 1 && e % 2 == 0 && f % 2 == 0
    requires o <= m <= |data| && (hasOdd ==> o < m)
    requires hasOdd == (o == e + 1) && (hasOdd ==> odd == data[e])
    ensures var eff := Carried(hasOdd, odd, data[o..m]);
            && eff == data[e..m]
            && Upto(be, data, e) + Sum(be, EvenPart(eff)) == Upto(be, data, f)
            && Upto(be, data, e) + Sum(be, eff) == Upto(be, data, m)
  {
    var eff := Carried(hasOdd, odd, data[o..m]);
    assert eff == data[e..m];
    assert e <= f;
    SplitAt(be, data, e, m);
    SplitAt(be, data, e, f);
    EvenSlice(data, e, m, f);
  }

  lemma OddEnd(e: nat, f: nat, m: nat)
    requires e % 2 == 0 && f % 2 == 0 && e <= m && f <= m <= f + 1
    ensures m == f + 1 ==> m > e && (m - e) % 2 == 1
  {
  }

  /** One round of the walk: the bounds and the new sum. */
  method SumSegment(be: bool, data: seq<Byte>, ghost e: nat, o: nat, ghost f: nat, m: nat,
                    isLast: bool, hasOdd: bool, odd: Byte) returns (part: nat, oddOut: Byte)
    requires e <= o <= e + 1 && f <= m <= f + 1 && e % 2 == 0 && f % 2 == 0
    requires o <= m <= |data| && m <= MAX_LEN && (hasOdd ==> o < m)
    requires hasOdd == (o == e + 1) && (hasOdd ==> odd == data[e])
    ensures Upto(be, data, e) + part == Upto(be, data, if isLast then m else f)
    ensures !isLast && m == f + 1 ==> oddOut == data[f]
  {
    hide Sum, Upto, EvenPart, Carried;
    ghost var eff := Carried(hasOdd, odd, data[o..m]);
    SegmentExtends(be, data, e, o, f, m, hasOdd, odd);
    OddEnd(e, f, m);
    assert m > e ==> eff[|eff| - 1] == data[m - 1];
    part, oddOut := DataSegSum(be, data[o..m], isLast, hasOdd, odd);
  }

  /**
    The walk over the segments of the L4 data (the loop of odph_udp_tcp_chksum).  `data` holds
    the bytes from the L4 offset on, cut into non-empty segments of the given lengths, of
    which the first `l4Len` are checksummed.  The result is the flat sum of those bytes for
    every segmentation, except that an odd last byte strictly inside a segment is not counted.
   */
  method SumSegments(be: bool, data: seq<Byte>, lens: seq<nat>, l4Len: nat, init: nat) returns (sum: nat)
    requires Total(lens) == |data| && lens != []
    requires forall k :: 0 <= k < |lens| ==> lens[k] > 0
    requires l4Len <= |data| && l4Len <= MAX_LEN && init <= 20 * 65535
    ensures sum == init + Sum(be, Summed(data[..l4Len], lens)) && sum < TWO32
  {
    hide Sum, Summed, Upto, Start;
    sum := init;
    var remaining := l4Len;
    var offset, i := 0, 0;
    var hasOdd, odd: Byte := false, 0;
    ghost var e := 0;
    StartEnds(be, data, lens);
    while true
      invariant 0 <= i < |lens| && offset == Start(lens, i) && remaining == l4Len - offset
      invariant remaining > 0 || i == 0
      invariant e <= offset <= e + 1 && e % 2 == 0
      invariant hasOdd == (offset == e + 1) && (hasOdd ==> odd == data[e])
      invariant sum == init + Upto(be, data, e)
      decreases |lens| - i
    {
      StartNext(lens, i);
      StartMonotone(lens, i + 1, |lens|);
      var segLen := lens[i];
      var dataLen, isLast := segLen, false;
      if remaining < segLen {
        dataLen := remaining;
      } else if remaining == segLen {
        isLast := true;
      }
      var m := offset + dataLen;
      ghost var f := m - m % 2;
      var part: nat;
      part, odd := SumSegment(be, data, e, offset, f, m, isLast, hasOdd, odd);
      sum := Add32(sum, part);
      remaining := remaining - dataLen;
      if remaining == 0 {
        SummedAt(data, lens, i, l4Len, isLast);
        UptoIs(be, data, if isLast then m else f);
        return;
      }
      if dataLen % 2 == 1 { hasOdd := !hasOdd; }
      offset := m;
      e := f;
      i := i + 1;
    }
  }

  /** Where the walk over the segments begins and ends. */
  lemma StartEnds(be: bool, data: seq<Byte>, lens: seq<nat>)
    ensures Start(lens, 0) == 0 && Start(lens, |lens|) == Total(lens) && Upto(be, data, 0) == 0
  {
    assert lens[..|lens|] == lens && data[..0] == [];
  }

  lemma UptoIs(be: bool, s: seq<Byte>, p: nat)
    requires p <= |s|
    ensures Upto(be, s, p) == Sum(be, s[..p])
  {
  }

  lemma SummedAt(data: seq<Byte>, lens: seq<nat>, i: nat, n: nat, isLast: bool)
    requires i < |lens| && n <= |data|
    requires isLast == (n == Start(lens, i + 1))
    requires Start(lens, i) <= n <= Start(lens, i + 1) && (Start(lens, i) < n || i == 0)
    ensures Summed(data[..n], lens) == data[..if isLast then n else n - n % 2]
  {
    if isLast {
      assert EndsAtSegment(lens, n);
    } else {
      InsideSegment(lens, i, n);
    }
  }
}
