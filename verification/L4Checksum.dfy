/**
  UDP and TCP checksums of helper/chksum.c: the pseudo-header, the generate, verify and return
  operations, and the relation between what is stored and what is later verified.
 */
module L4Checksum {
  import opened Basics
  import opened OnesComplement
  import opened SegmentSum

  datatype L4 = Udp | Tcp | OtherL4

  /** The bytes of an IPv4 or IPv6 header, and how far behind its beginning the L4 header is. */
  datatype L3 = OtherL3 | L3(v6: bool, hdr: seq<Byte>, hdrsLen: nat) {
    predicate Whole() { L3? && |hdr| >= if v6 then 40 else 20 }

    /** Source and destination address. */
    function Addrs(): (s: seq<Byte>)
      requires Whole()
      ensures |s| == if v6 then 32 else 8
    {
      if v6 then hdr[8..40] else hdr[12..20]
    }

    /** The protocol or next header field. */
    function Proto(): (b: Byte)
      requires Whole()
    {
      if v6 then hdr[6] else hdr[9]
    }

    /** The total length; that of IPv6 does not include the header. */
    function Len(): (n: nat)
      requires Whole()
    {
      if v6 then WordOf(true, hdr[4], hdr[5]) + 40 else WordOf(true, hdr[2], hdr[3])
    }
  }

  datatype Op = Generate | Verify | Return

  /** The fixed properties of a packet: host byte order, parsed protocols, and how the bytes are segmented. */
  datatype Frame = Frame(bigEndian: bool, l3: L3, l4: L4, lens: seq<nat>) {

    /** Offset of the checksum field in the L4 header. */
    function Field(): (k: nat) { if l4.Udp? then 6 else 16 }

    function HdrLen(): (n: nat) { if l4.Udp? then 8 else 20 }

    /** Length of the checksummed L4 data: from the UDP header, or derived from the L3 header. */
    function L4Len(data: seq<Byte>): (n: nat)
      requires l3.Whole() && |data| >= 6
    {
      if l4.Udp? then 256 * data[4] + data[5]
      else (l3.Len() - l3.hdrsLen) % TWO32
    }

    /** The packet has its L4 header and all the bytes its length fields announce. */
    ghost predicate Holds(data: seq<Byte>) {
      && Total(lens) == |data| && lens != []
      && (forall k :: 0 <= k < |lens| ==> lens[k] > 0)
      && HdrLen() <= |data|
      && (l3.L3? ==> l3.Whole() && l3.hdrsLen <= MAX_LEN && L4Len(data) <= |data| && L4Len(data) <= MAX_LEN)
    }

    /** What is summed in place of the pseudo-header. */
    function Pseudo(l4Len: nat): (s: seq<Byte>)
      requires l3.Whole() && l4Len <= MAX_LEN
    {
      l3.Addrs() + [l4Len / 256, l4Len % 256, 0, l3.Proto()]
    }

    /** The L4 length that the headers announce. */
    ghost function Announced(data: seq<Byte>): (n: int)
      requires l3.Whole() && |data| >= 6
    {
      if l4.Udp? then 256 * data[4] + data[5]
      else if l3.v6 then 40 + 256 * l3.hdr[4] + l3.hdr[5] - l3.hdrsLen
      else 256 * l3.hdr[2] + l3.hdr[3] - l3.hdrsLen
    }

    /** The pseudo-headers of RFC 768 and RFC 793, and of section 8.1 of RFC 8200, field by field. */
    ghost function RfcPseudo(n: nat): (s: seq<Byte>)
      requires l3.Whole() && n <= MAX_LEN
    {
      if l3.v6 then l3.hdr[8..24] + l3.hdr[24..40] + [0, 0, n / 256, n % 256] + [0, 0, 0, l3.hdr[6]]
      else l3.hdr[12..16] + l3.hdr[16..20] + [0, l3.hdr[9]] + [n / 256, n % 256]
    }

    /** The checksum computed over given packet bytes. */
    ghost function Computed(data: seq<Byte>): (w: Word)
      requires l3.L3? && Holds(data)
    {
      Complement(Fold(Sum(bigEndian, Pseudo(L4Len(data))) + Sum(bigEndian, Summed(data[..L4Len(data)], lens))))
    }

    /** The flat checksum of RFC 1071 over the pseudo-header followed by the L4 data. */
    ghost function FlatChecksum(data: seq<Byte>): (w: Word)
      requires l3.L3? && Holds(data)
    {
      LengthAnnounced(this, data);
      var n := Announced(data);
      Complement(Fold(Sum(bigEndian, RfcPseudo(n) + data[..n])))
    }

    function FieldWord(data: seq<Byte>): (w: Word)
      requires Field() + 2 <= |data|
    {
      WordOf(bigEndian, data[Field()], data[Field() + 1])
    }

    function WithField(data: seq<Byte>, w: Word): (r: seq<Byte>)
      requires Field() + 2 <= |data|
      ensures |r| == |data| && FieldWord(r) == w
      ensures forall i :: 0 <= i < |data| && i != Field() && i != Field() + 1 ==> r[i] == data[i]
    {
      data[Field() := BytesOf(bigEndian, w)[0]][Field() + 1 := BytesOf(bigEndian, w)[1]]
    }

    /** The packet bytes after a generate operation. */
    ghost function Generated(data: seq<Byte>): (r: seq<Byte>)
      requires l3.L3? && Holds(data)
    {
      WithField(data, Computed(WithField(data, 0)))
    }

    /** The return code of a verify operation. */
    ghost function Verdict(data: seq<Byte>): (rc: int)
      requires l3.L3? && Holds(data)
    {
      if l4.Udp? && FieldWord(data) == 0 then 1 else if Computed(data) == 0 then 0 else 2
    }
  }

  /** A packet whose bytes the operations update in place. */
  class Packet {
    const frame: Frame
    var data: seq<Byte>

    constructor (frame: Frame, data: seq<Byte>)
      ensures this.frame == frame && this.data == data
    {
      this.frame := frame;
      this.data := data;
    }

    /** The sum of the pseudo-header, word by word. */
    method PseudoSum(l4Len: nat) returns (sum: nat)
      requires frame.l3.Whole() && l4Len <= MAX_LEN
      ensures sum == Sum(frame.bigEndian, frame.Pseudo(l4Len)) && sum <= 20 * 65535
    {
      hide Sum, Upto, WordAt;
      var be, addrs := frame.bigEndian, frame.l3.Addrs();
      sum := 0;
      UptoNone(be, addrs);
      for idx := 0 to |addrs| / 2
        invariant sum == Upto(be, addrs, 2 * idx)
      {
        UptoStep(be, addrs, 2 * idx);
        sum := Add32(sum, WordAt(be, addrs, 2 * idx));
      }
      UptoIs(be, addrs, |addrs|);
      assert addrs[..|addrs|] == addrs;
      ghost var tail: seq<Byte> := [l4Len / 256, l4Len % 256, 0, frame.l3.Proto()];
      SumAppend(be, addrs, tail);
      FourBytes(be, tail);
      sum := Add32(sum, WordOf(be, l4Len / 256, l4Len % 256) + WordOf(be, 0, frame.l3.Proto()));
    }

    /** The complemented, folded sum of pseudo-header and L4 data. */
    method Compute() returns (value: Word)
      requires frame.l3.L3? && frame.Holds(data)
      ensures value == frame.Computed(data)
    {
      var l4Len := frame.L4Len(data);
      var pseudo := PseudoSum(l4Len);
      var sum := SumSegments(frame.bigEndian, data, frame.lens, l4Len, pseudo);
      TwoCarriesSuffice(sum);
      var onesComplSum := Carry(Carry(sum));
      value := Complement(onesComplSum);
    }

    /**
      The checksum operation.  Without a UDP or TCP header, or without an IP header, it fails;
      generate stores the computed checksum, verify compares, and every operation reports the
      checksum when the caller asks for it.
     */
    method UdpTcpChksum(op: Op, wanted: bool) returns (rc: int, chksum: Option<Word>)
      requires !frame.l4.OtherL4? ==> frame.Holds(data)
      modifies this`data
      ensures frame.l4.OtherL4? ==> rc == -1 && data == old(data) && chksum == None
      ensures |data| == old(|data|) && (frame.l4.Udp? ==> |data| >= 8) && (frame.l4.Tcp? ==> |data| >= 20)
      ensures op.Generate? && frame.l4.Udp? ==> data == old(data)[..6] + data[6..8] + old(data)[8..]
      ensures op.Generate? && frame.l4.Tcp? ==> data == old(data)[..16] + data[16..18] + old(data)[18..]
      ensures frame.l4.Udp? && op.Verify? && data[6] == data[7] == 0 && !wanted ==> rc == 1 && chksum == None
      ensures !frame.l4.OtherL4? && frame.l3.OtherL3? &&
              !(frame.l4.Udp? && op.Verify? && data[6] == data[7] == 0 && !wanted) ==>
                rc == -1 && chksum == None && (!op.Generate? ==> data == old(data))
      ensures !frame.l4.OtherL4? && frame.l3.L3? && op.Generate? ==>
                rc == 0 && data == frame.Generated(old(data)) &&
                chksum == if wanted then Some(frame.FieldWord(data)) else None
      ensures !frame.l4.OtherL4? && frame.l3.L3? && !op.Generate? ==>
                data == old(data) && rc == (if op.Verify? then frame.Verdict(data) else 0)
      ensures !frame.l4.OtherL4? && frame.l3.L3? && !op.Generate? && wanted ==> chksum == Some(frame.Computed(data))
    {
      hide Frame.WithField, Frame.FieldWord, Frame.Computed, Frame.Generated, Frame.L4Len, Frame.Holds;
      hide Sum, Fold, WordOf;
      chksum := None;
      if frame.l4.OtherL4? {
        return -1, None;
      }
      HoldsField(frame, data, 0);
      if frame.l4.Udp? { FieldZero(frame, data); }
      if op.Verify? && frame.FieldWord(data) == 0 && frame.l4.Udp? && !wanted {
        return 1, None;
      }
      ZeroField(frame, data);
      if op.Generate? && frame.FieldWord(data) != 0 {
        data := frame.WithField(data, 0);
      }
      FieldOnly(frame, old(data), data);
      if frame.l3.OtherL3? {
        return -1, None;
      }
      var value := Compute();
      rc := 0;
      if op.Generate? {
        WithTwice(frame, old(data), value);
        data := frame.WithField(data, value);
        FieldOnly(frame, old(data), data);
        GeneratedIs(frame, old(data));
      } else if op.Verify? {
        if frame.FieldWord(data) == 0 && frame.l4.Udp? {
          rc := 1;
        } else {
          rc := if value == 0 then 0 else 2;
        }
      }
      if wanted { chksum := Some(value); }
    }
  }

  lemma FourBytes(be: bool, s: seq<Byte>)
    requires |s| == 4
    ensures Sum(be, s) == WordOf(be, s[0], s[1]) + WordOf(be, s[2], s[3])
  {
    var t := s[2..];
    assert Sum(be, t) == WordOf(be, t[0], t[1]) + Sum(be, t[2..]);
  }

  /** Whatever is in the checksum field, the packet has its headers and its data. */
  lemma HoldsField(f: Frame, data: seq<Byte>, w: Word)
    requires !f.l4.OtherL4? && f.Holds(data)
    ensures f.Field() + 2 <= f.HdrLen() <= |data| && f.Holds(f.WithField(data, w))
  {
  }

  lemma FieldZero(f: Frame, data: seq<Byte>)
    requires f.Field() + 2 <= |data| && f.l4.Udp?
    ensures f.FieldWord(data) == 0 <==> data[6] == data[7] == 0
  {
  }

  /** Data that agrees outside the checksum field. */
  lemma FieldOnly(f: Frame, data: seq<Byte>, r: seq<Byte>)
    requires !f.l4.OtherL4? && f.HdrLen() <= |data| == |r|
    requires forall i :: 0 <= i < |data| && i != f.Field() && i != f.Field() + 1 ==> r[i] == data[i]
    ensures f.l4.Udp? ==> r == data[..6] + r[6..8] + data[8..]
    ensures f.l4.Tcp? ==> r == data[..16] + r[16..18] + data[18..]
  {
  }

  lemma WithTwice(f: Frame, data: seq<Byte>, w: Word)
    requires f.Field() + 2 <= |data|
    ensures f.WithField(f.WithField(data, 0), w) == f.WithField(data, w)
  {
  }

  lemma GeneratedIs(f: Frame, data: seq<Byte>)
    requires f.l3.L3? && f.Holds(data) && f.Holds(f.WithField(data, 0))
    ensures f.Generated(data) == f.WithField(data, f.Computed(f.WithField(data, 0)))
  {
  }

  lemma ZeroField(f: Frame, data: seq<Byte>)
    requires f.Field() + 2 <= |data|
    ensures f.FieldWord(data) == 0 ==> f.WithField(data, 0) == data
    ensures f.WithField(f.WithField(data, 0), 0) == f.WithField(data, 0)
  {
  }

  /** Replacing the word at an even position replaces its summand. */
  lemma ReplaceWord(be: bool, s: seq<Byte>, t: seq<Byte>, k: nat)
    requires |s| == |t| && k % 2 == 0 && k + 2 <= |s|
    requires forall i :: 0 <= i < |s| && i != k && i != k + 1 ==> s[i] == t[i]
    ensures Sum(be, s) - WordAt(be, s, k) == Sum(be, t) - WordAt(be, t, k)
  {
    SplitAt(be, s, k + 2, |s|);
    SplitAt(be, t, k + 2, |t|);
    UptoStep(be, s, k);
    UptoStep(be, t, k);
    assert s[..k] == t[..k] && s[k + 2..|s|] == t[k + 2..|t|] && s[..|s|] == s && t[..|t|] == t;
  }

  /** The total that is folded into the checksum. */
  ghost function TotalSum(f: Frame, data: seq<Byte>): (n: nat)
    requires f.l3.L3? && f.Holds(data)
  {
    Sum(f.bigEndian, f.Pseudo(f.L4Len(data))) + Sum(f.bigEndian, Summed(data[..f.L4Len(data)], f.lens))
  }

  /** Storing a value in the checksum field adds exactly that value to the total. */
  lemma FieldAdds(f: Frame, data: seq<Byte>, w: Word)
    requires f.l3.L3? && !f.l4.OtherL4? && f.Holds(data) && f.HdrLen() <= f.L4Len(data)
    ensures f.Holds(f.WithField(data, w))
    ensures TotalSum(f, f.WithField(data, w)) == TotalSum(f, f.WithField(data, 0)) + w
  {
    HoldsField(f, data, w);
    HoldsField(f, data, 0);
    var s, t := f.WithField(data, w), f.WithField(data, 0);
    assert f.L4Len(s) == f.L4Len(data) && f.L4Len(t) == f.L4Len(data);
    hide Sum, TotalSum, Frame.WithField, Frame.L4Len, Frame.Holds, WordOf;
    WordAdds(f, t, s, f.Field());
    assert WordAt(f.bigEndian, s, f.Field()) == f.FieldWord(s) && WordAt(f.bigEndian, t, f.Field()) == f.FieldWord(t);
  }

  /**
    Generate then verify, for every packet and every segmentation, including a checksum field
    split across segments: TCP verifies, and UDP verifies except exactly when the computed
    checksum is zero, which is taken for "no checksum".
   */
  lemma GenerateThenVerify(f: Frame, data: seq<Byte>)
    requires f.l3.L3? && !f.l4.OtherL4? && f.Holds(data) && f.HdrLen() <= f.L4Len(data)
    ensures f.Holds(f.WithField(data, 0)) && f.Holds(f.Generated(data)) && Fold(TotalSum(f, f.Generated(data))) == 65535
    ensures var n := TotalSum(f, f.WithField(data, 0));
            f.Verdict(f.Generated(data)) == if f.l4.Udp? && n > 0 && n % 65535 == 0 then 1 else 0
  {
    HoldsField(f, data, 0);
    hide Frame.Computed, Frame.Holds, TotalSum, Fold, Frame.WithField, Frame.Verdict, Frame.L4Len;
    var z := f.WithField(data, 0);
    var c := f.Computed(z);
    FieldAdds(f, data, c);
    ComputedTotal(f, z);
    VerdictOf(f, f.WithField(data, c), TotalSum(f, z));
  }

  /** The verdict on a packet whose checksum field completes the sum of the other words. */
  lemma VerdictOf(f: Frame, data: seq<Byte>, n: nat)
    requires f.l3.L3? && f.Holds(data) && f.Field() + 2 <= |data|
    requires f.FieldWord(data) == 65535 - Fold(n) && TotalSum(f, data) == n + f.FieldWord(data)
    ensures Fold(TotalSum(f, data)) == 65535
    ensures f.Verdict(data) == if f.l4.Udp? && n > 0 && n % 65535 == 0 then 1 else 0
  {
    ComputedTotal(f, data);
    Completed(n);
    hide Frame.Computed, Frame.Holds, TotalSum, Fold, Frame.FieldWord;
  }

  /** A sum and the complement of its fold make up minus zero. */
  lemma Completed(n: nat)
    ensures Fold(n) <= 65535 && Fold(n + 65535 - Fold(n)) == 65535
    ensures Fold(n) == 65535 <==> n > 0 && n % 65535 == 0
  {
    var c := 65535 - Fold(n);
    if n == 0 {
      FoldUnique(n + c, 65535, 0);
    } else {
      var q := FoldQuotient(n);
      FoldUnique(n + c, 65535, q);
      FullFold(n);
    }
  }

  lemma FullFold(n: nat)
    requires n > 0
    ensures Fold(n) == 65535 <==> n % 65535 == 0
  {
    var q := FoldQuotient(n);
    if n % 65535 == 0 {
      FoldUnique(n, 65535, n / 65535 - 1);
    } else {
      FoldUnique(n, n % 65535, n / 65535);
    }
  }

  /** An IPv4 frame, zero but for the protocol, for UDP data in one segment of m bytes. */
  function UdpFrame(be: bool, m: nat): (f: Frame) {
    Frame(be, L3(false, seq(20, i => if i == 9 then 17 else 0), 20), Udp, [m])
  }

  lemma SixBytes(be: bool, s: seq<Byte>)
    requires |s| == 4 + 6 && s[0] == s[1] == s[2] == s[3] == 0
    ensures Sum(be, s) == WordOf(be, s[4], s[5]) + WordOf(be, s[6], s[7]) + WordOf(be, s[8], s[9])
  {
    var t, u := s[..4], s[4..];
    assert s == t + u;
    SumAppend(be, t, u);
    SumZero(be, t);
    SumAppend(be, u[..2], u[2..]);
    assert u == u[..2] + u[2..] && Sum(be, u[..2]) == WordOf(be, u[0], u[1]) by { assert u[..2][2..] == []; }
    FourBytes(be, u[2..]);
  }

  lemma PseudoExample(f: Frame, zeros: seq<Byte>)
    requires f.l3.Whole() && f.l3.Addrs() == zeros && f.l3.Proto() == 17 && |zeros| == 8
    requires forall i :: 0 <= i < 8 ==> zeros[i] == 0
    ensures Sum(true, f.Pseudo(10)) == 27
  {
    var t: seq<Byte> := [0, 10, 0, 17];
    assert f.Pseudo(10) == zeros + t;
    SumAppend(true, zeros, t);
    SumZero(true, zeros);
    FourBytes(true, t);
  }

  /** A UDP packet with ports 0 and the payload FF DA has a total of 65535. */
  lemma ExampleTotal(f: Frame, data: seq<Byte>)
    requires f == UdpFrame(true, 10) && |data| == 10 && f.Holds(data) && forall i :: 0 <= i < 5 ==> data[i] == 0
    requires data[5] == 10 && data[6] == data[7] == 0 && data[8] == 255 && data[9] == 218
    ensures f.WithField(data, 0) == data && TotalSum(f, data) == 65535
  {
    assert f.L4Len(data) == 10 && data[..10] == data;
    PseudoExample(f, f.l3.Addrs());
    SixBytes(true, data);
    hide Sum, Frame.Pseudo, UdpFrame;
    assert Summed(data, f.lens) == data;
  }

  /** ... so that the checksum generated for it does not verify. */
  lemma ZeroChecksumExample(data: seq<Byte>)
    requires data == [0, 0, 0, 0, 0, 10, 0, 0, 255, 218]
    ensures var f := UdpFrame(true, 10); f.Holds(data) && f.Verdict(f.Generated(data)) == 1
  {
    var f := UdpFrame(true, 10);
    OneSegment(10);
    ExampleTotal(f, data);
    hide Frame.Holds, Frame.Verdict, Frame.WithField, TotalSum, Frame.Generated;
    GenerateThenVerify(f, data);
  }

  lemma OneSegment(n: nat)
    ensures Total([n]) == n
  {
    assert [n][1..] == [];
  }

  /**
    A change of one word of a verified packet is always detected, unless the two words are the two
    zeros 0 and 65535.
   */
  lemma WordChangeDetected(f: Frame, data: seq<Byte>, bad: seq<Byte>, k: nat)
    requires f.l3.L3? && !f.l4.OtherL4? && f.Holds(data) && f.Holds(bad) && f.L4Len(bad) == f.L4Len(data)
    requires k % 2 == 0 && k + 2 <= f.L4Len(data)
    requires forall i :: 0 <= i < |data| && i != k && i != k + 1 ==> bad[i] == data[i]
    requires f.Verdict(data) == 0
    requires var v, w := WordAt(f.bigEndian, data, k), WordAt(f.bigEndian, bad, k);
             v != w && !(v in {0, 65535} && w in {0, 65535})
    ensures f.Verdict(bad) != 0
  {
    hide Sum, Fold, TotalSum, Frame.Computed, WordAt;
    WordAdds(f, data, bad, k);
    ComputedTotal(f, data);
    ComputedTotal(f, bad);
    var v, w := WordAt(f.bigEndian, data, k), WordAt(f.bigEndian, bad, k);
    if v < w {
      FoldDistinct(TotalSum(f, bad), TotalSum(f, data), w - v);
    } else {
      FoldDistinct(TotalSum(f, data), TotalSum(f, bad), v - w);
    }
  }

  lemma ComputedTotal(f: Frame, data: seq<Byte>)
    requires f.l3.L3? && f.Holds(data)
    ensures f.Computed(data) == 65535 - Fold(TotalSum(f, data))
  {
  }

  /** Changing one word changes the total by the difference. */
  lemma WordAdds(f: Frame, data: seq<Byte>, bad: seq<Byte>, k: nat)
    requires f.l3.L3? && f.Holds(data) && f.Holds(bad) && f.L4Len(bad) == f.L4Len(data)
    requires k % 2 == 0 && k + 2 <= f.L4Len(data)
    requires forall i :: 0 <= i < |data| && i != k && i != k + 1 ==> bad[i] == data[i]
    ensures TotalSum(f, bad) - WordAt(f.bigEndian, bad, k) == TotalSum(f, data) - WordAt(f.bigEndian, data, k)
  {
    hide Sum, EndsAtSegment, Frame.Pseudo;
    var n := f.L4Len(data);
    var m := if EndsAtSegment(f.lens, n) then n else n - n % 2;
    assert |bad| == |data|;
    assert Summed(data[..n], f.lens) == data[..m] && Summed(bad[..n], f.lens) == bad[..m];
    ReplaceWord(f.bigEndian, data[..m], bad[..m], k);
  }

  /**
    The checksum agrees with the flat one of RFC 1071 for every segmentation exactly when the
    L4 length is even, or the data ends at a segment end, or the odd last byte is zero.
   */
  lemma SegmentedIsFlat(f: Frame, data: seq<Byte>)
    requires f.l3.L3? && f.Holds(data)
    ensures var n := f.L4Len(data);
            f.Computed(data) == f.FlatChecksum(data) <==>
            n % 2 == 0 || EndsAtSegment(f.lens, n) || data[n - 1] == 0
  {
    hide Sum, Fold, Summed, EndsAtSegment, Frame.FlatChecksum, Frame.Pseudo, Frame.Computed, Frame.L4Len, Frame.Holds;
    ComputedParts(f, data);
    FlatIs(f, data);
    var n := f.L4Len(data);
    SegmentedSum(f.bigEndian, data[..n], f.lens, Sum(f.bigEndian, f.Pseudo(n)));
  }

  lemma ComputedParts(f: Frame, data: seq<Byte>)
    requires f.l3.L3? && f.Holds(data)
    ensures f.l3.Whole() && |data| >= 6
    ensures var n := f.L4Len(data);
            n <= |data| && n <= MAX_LEN &&
            f.Computed(data) ==
            65535 - Fold(Sum(f.bigEndian, f.Pseudo(n)) + Sum(f.bigEndian, Summed(data[..n], f.lens)))
  {
    hide Sum, Fold, Summed, Frame.Pseudo, Frame.L4Len;
  }

  /** Leaving an odd last byte out changes the folded sum, unless it is zero. */
  lemma SegmentedSum(be: bool, d: seq<Byte>, lens: seq<nat>, m: nat)
    ensures Fold(m + Sum(be, Summed(d, lens))) == Fold(m + Sum(be, d)) <==>
        |d| % 2 == 0 || EndsAtSegment(lens, |d|) || d[|d| - 1] == 0
  {
    hide Sum, Fold, EndsAtSegment;
    if |d| % 2 == 1 && !EndsAtSegment(lens, |d|) {
      OddLast(be, d);
      LastWord(be, d[|d| - 1]);
      var w := WordOf(be, d[|d| - 1], 0);
      if w != 0 { FoldDistinct(m + Sum(be, d), m + Sum(be, EvenPart(d)), w); }
    } else {
      assert EvenPart(d) == d || EndsAtSegment(lens, |d|);
    }
  }

  lemma LastWord(be: bool, b: Byte)
    ensures 0 <= WordOf(be, b, 0) < 65535 && (WordOf(be, b, 0) == 0 <==> b == 0)
  {
  }

  /** The length used is the one that the headers announce. */
  lemma LengthAnnounced(f: Frame, data: seq<Byte>)
    requires f.l3.L3? && f.Holds(data)
    ensures f.L4Len(data) == f.Announced(data)
  {
  }

  /** The four bytes that are summed for length and protocol are worth the fields of the pseudo-header. */
  lemma PseudoIsRfc(f: Frame, n: nat)
    requires f.l3.Whole() && n <= MAX_LEN
    ensures |f.RfcPseudo(n)| % 2 == 0 && Sum(f.bigEndian, f.RfcPseudo(n)) == Sum(f.bigEndian, f.Pseudo(n))
  {
    hide Sum;
    var be, a, p := f.bigEndian, f.l3.Addrs(), f.l3.Proto();
    var t: seq<Byte> := [n / 256, n % 256, 0, p];
    SumAppend(be, a, t);
    FourBytes(be, t);
    if f.l3.v6 {
      var u, v: seq<Byte> := [0, 0, n / 256, n % 256], [0, 0, 0, p];
      assert a == f.l3.hdr[8..24] + f.l3.hdr[24..40] && f.RfcPseudo(n) == a + (u + v);
      SumAppend(be, a, u + v);
      SumAppend(be, u, v);
      FourBytes(be, u);
      FourBytes(be, v);
    } else {
      var u: seq<Byte> := [0, p, n / 256, n % 256];
      assert a == f.l3.hdr[12..16] + f.l3.hdr[16..20] && f.RfcPseudo(n) == a + u;
      SumAppend(be, a, u);
      FourBytes(be, u);
    }
  }

  lemma FlatIs(f: Frame, data: seq<Byte>)
    requires f.l3.L3? && f.Holds(data)
    ensures var n := f.L4Len(data);
            f.FlatChecksum(data) == 65535 - Fold(Sum(f.bigEndian, f.Pseudo(n)) + Sum(f.bigEndian, data[..n]))
  {
    var n := f.L4Len(data);
    LengthAnnounced(f, data);
    PseudoIsRfc(f, n);
    hide Sum, Frame.Pseudo, Frame.RfcPseudo;
    SumAppend(f.bigEndian, f.RfcPseudo(n), data[..n]);
  }

  /** A UDP packet of nine bytes in a segment of ten: the last byte, which is not zero, is not counted. */
  lemma OddByteExample(be: bool, data: seq<Byte>)
    requires data == [0, 0, 0, 0, 0, 9, 0, 0, 1, 0]
    ensures var f := UdpFrame(be, 10); f.Holds(data) && f.Computed(data) != f.FlatChecksum(data)
  {
    var f := UdpFrame(be, 10);
    OneSegment(10);
    assert !EndsAtSegment(f.lens, 9);
    SegmentedIsFlat(f, data);
  }

  /** The same frame on a host of the other byte order. */
  function OtherHost(f: Frame): (r: Frame) { f.(bigEndian := !f.bigEndian) }

  /** The bytes that are summed, which do not depend on the host. */
  ghost function SummedBytes(f: Frame, data: seq<Byte>): (s: seq<Byte>)
    requires f.l3.L3? && f.Holds(data)
  {
    f.Pseudo(f.L4Len(data)) + Summed(data[..f.L4Len(data)], f.lens)
  }

  lemma ComputedIs(f: Frame, data: seq<Byte>)
    requires f.l3.L3? && f.Holds(data)
    ensures f.Computed(data) == Complement(Fold(Sum(f.bigEndian, SummedBytes(f, data))))
  {
    SumAppend(f.bigEndian, f.Pseudo(f.L4Len(data)), Summed(data[..f.L4Len(data)], f.lens));
  }

  lemma SameBytes(f: Frame, data: seq<Byte>)
    requires f.l3.L3? && f.Holds(data)
    ensures OtherHost(f).Holds(data) && SummedBytes(OtherHost(f), data) == SummedBytes(f, data)
  {
    assert OtherHost(f).L4Len(data) == f.L4Len(data);
  }

  lemma ComputedOtherHost(f: Frame, data: seq<Byte>)
    requires f.l3.L3? && f.Holds(data)
    ensures OtherHost(f).Holds(data) && OtherHost(f).Computed(data) == Swap(f.Computed(data))
  {
    SameBytes(f, data);
    hide Sum, Fold, Frame.Computed, Frame.Holds, SummedBytes, Swap;
    ComputedIs(f, data);
    ComputedIs(OtherHost(f), data);
    var s := SummedBytes(f, data);
    FoldOtherOrder(f.bigEndian, s);
    BytesOfSwap(f.bigEndian, Fold(Sum(f.bigEndian, s)));
  }

  lemma FieldOtherHost(f: Frame, data: seq<Byte>, w: Word)
    requires f.Field() + 2 <= |data|
    ensures OtherHost(f).WithField(data, Swap(w)) == f.WithField(data, w)
    ensures OtherHost(f).FieldWord(data) == 0 <==> f.FieldWord(data) == 0
  {
    BytesOfSwap(f.bigEndian, w);
  }

  /** Hosts of both byte orders generate the same packet bytes and come to the same verdict. */
  lemma HostsAgree(f: Frame, data: seq<Byte>)
    requires f.l3.L3? && !f.l4.OtherL4? && f.Holds(data) && f.HdrLen() <= f.L4Len(data)
    ensures OtherHost(f).Holds(data) && OtherHost(f).Generated(data) == f.Generated(data)
    ensures OtherHost(f).Verdict(data) == f.Verdict(data)
  {
    FieldAdds(f, data, 0);
    var z := f.WithField(data, 0);
    hide Frame.Computed, Sum, Fold;
    assert Swap(0) == 0;
    FieldOtherHost(f, data, 0);
    ComputedOtherHost(f, z);
    FieldOtherHost(f, data, f.Computed(z));
    ComputedOtherHost(f, data);
    SwapZero(f.Computed(data));
  }

  lemma SwapZero(w: Word)
    ensures Swap(w) == 0 <==> w == 0
  {
  }
}
