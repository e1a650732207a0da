/**
  The SCTP checksum of helper/chksum.c (section 6.8 of RFC 9260).  The platform's CRC32c is a
  parameter: a function that folds one byte into a 32-bit register, from which the CRC of a
  byte string is folded; everything below holds for every such function.
 */
module SctpChecksum {
  import opened OnesComplement
  import opened SegmentSum

  const SCTP_HDR_LEN := 12

  type Reg = n: int | 0 <= n < 0x1_0000_0000

  type Step = (Reg, Byte) -> Reg

  const ONES: Reg := 0xFFFF_FFFF
  const ZEROS: seq<Byte> := [0, 0, 0, 0]

  function Not(v: Reg): (r: Reg) { 0xFFFF_FFFF - v }

  function Crc(step: Step, s: seq<Byte>, init: Reg): (r: Reg) {
    if s == [] then init else step(Crc(step, s[..|s| - 1], init), s[|s| - 1])
  }

  /** The CRC is the fold of the bytes, first to last, into the initial register. */
  lemma CrcFold(step: Step, s: seq<Byte>, b: Byte, init: Reg)
    ensures Crc(step, [], init) == init
    ensures Crc(step, s + [b], init) == step(Crc(step, s, init), b)
  {
    assert (s + [b])[..|s + [b]| - 1] == s;
  }

  lemma {:induction false} CrcAppend(step: Step, a: seq<Byte>, b: seq<Byte>, init: Reg)
    ensures Crc(step, a + b, init) == Crc(step, b, Crc(step, a, init))
    decreases |b|
  {
    if b == [] {
      assert a + b == a;
    } else {
      var n := |b| - 1;
      assert (a + b)[..|a + b| - 1] == a + b[..n];
      CrcAppend(step, a, b[..n], init);
    }
  }

  lemma CrcExtend(step: Step, data: seq<Byte>, a: nat, b: nat, c: nat, init: Reg)
    requires a <= b <= c <= |data|
    ensures Crc(step, data[a..c], init) == Crc(step, data[b..c], Crc(step, data[a..b], init))
  {
    assert data[a..b] + data[b..c] == data[a..c];
    CrcAppend(step, data[a..b], data[b..c], init);
  }

  /** The four bytes of a 32-bit value in the memory of a host of either byte order. */
  function Store(be: bool, v: Reg): (s: seq<Byte>)
    ensures |s| == 4
  {
    var hi, lo := v / 0x1_0000, v % 0x1_0000;
    if be then [hi / 256, hi % 256, lo / 256, lo % 256] else [lo % 256, lo / 256, hi % 256, hi / 256]
  }

  function Load(be: bool, s: seq<Byte>): (v: Reg)
    requires |s| == 4
    ensures be ==> v == 0x100_0000 * (s[0] as int) + 0x1_0000 * (s[1] as int) + 0x100 * (s[2] as int) + s[3]
    ensures !be ==> v == 0x100_0000 * (s[3] as int) + 0x1_0000 * (s[2] as int) + 0x100 * (s[1] as int) + s[0]
  {
    if be then 0x1_0000 * WordOf(be, s[0], s[1]) + WordOf(be, s[2], s[3])
    else 0x1_0000 * WordOf(be, s[2], s[3]) + WordOf(be, s[0], s[1])
  }

  lemma LoadStore(be: bool, v: Reg)
    ensures Load(be, Store(be, v)) == v
  {
  }

  /** Bytes left in the segment that holds a given offset. */
  function SegmentLeft(lens: seq<nat>, offset: nat): (n: nat)
    requires offset < Total(lens)
    ensures 0 < n <= Total(lens) - offset
  {
    var before := Total(lens[..|lens| - 1]);
    if offset >= before then Total(lens) - offset else SegmentLeft(lens[..|lens| - 1], offset)
  }

  /** Replacement of bytes at an offset. */
  function Write(data: seq<Byte>, offset: nat, s: seq<Byte>): (r: seq<Byte>)
    requires offset + |s| <= |data|
    ensures |r| == |data| && r[offset..offset + |s|] == s
    ensures r[..offset] == data[..offset] && r[offset + |s|..] == data[offset + |s|..]
  {
    data[..offset] + s + data[offset + |s|..]
  }

  /** The L4 data with a zero checksum field. */
  function Zeroed(data: seq<Byte>, l4: nat): (s: seq<Byte>)
    requires l4 + SCTP_HDR_LEN <= |data|
  {
    data[l4..l4 + 8] + ZEROS + data[l4 + 12..]
  }

  /** The checksum of the L4 data: the complement of the CRC, from all ones, with bytes 8 to 11 zero. */
  function Expected(step: Step, data: seq<Byte>, l4: nat): (v: Reg)
    requires l4 + SCTP_HDR_LEN <= |data|
    ensures v == 0xFFFF_FFFF - Crc(step, data[l4..l4 + 8] + [0, 0, 0, 0] + data[l4 + 12..], 0xFFFF_FFFF)
  {
    Not(Crc(step, Zeroed(data, l4), ONES))
  }

  lemma ThreeParts(step: Step, a: seq<Byte>, b: seq<Byte>, c: seq<Byte>, init: Reg)
    ensures Crc(step, a + b + c, init) == Crc(step, c, Crc(step, b, Crc(step, a, init)))
  {
    CrcAppend(step, a + b, c, init);
    CrcAppend(step, a, b, init);
  }

  class Packet {
    const crcByte: Step
    const bigEndian: bool
    const hasSctp: bool
    const l4Offset: nat
    const lens: seq<nat>
    var data: seq<Byte>

    constructor (crcByte: Step, be: bool, hasSctp: bool, l4Offset: nat, lens: seq<nat>, data: seq<Byte>)
      ensures this.crcByte == crcByte && bigEndian == be && this.hasSctp == hasSctp
      ensures this.l4Offset == l4Offset && this.lens == lens && this.data == data
    {
      this.crcByte := crcByte;
      bigEndian := be;
      this.hasSctp := hasSctp;
      this.l4Offset := l4Offset;
      this.lens := lens;
      this.data := data;
    }

    /** The CRC of a range, folded segment by segment; a range beyond the packet leaves the initial value. */
    method Crc32c(offset: nat, length: nat, init: Reg) returns (sum: Reg)
      requires Total(lens) == |data|
      ensures sum == if offset + length > |data| then init else Crc(crcByte, data[offset..offset + length], init)
    {
      sum := init;
      if offset + length > |data| { return; }
      var o, left := offset, length;
      while left > 0
        invariant o + left == offset + length && offset <= o
        invariant sum == Crc(crcByte, data[offset..o], init)
      {
        var segLen := SegmentLeft(lens, o);
        if segLen > left { segLen := left; }
        CrcExtend(crcByte, data, offset, o, o + segLen, init);
        sum := Crc(crcByte, data[o..o + segLen], sum);
        left := left - segLen;
        o := o + segLen;
      }
    }

    /** Compute and store the checksum. */
    method ChksumSet() returns (rc: int)
      requires Total(lens) == |data| && (hasSctp ==> l4Offset + SCTP_HDR_LEN <= |data|)
      modifies this`data
      ensures !hasSctp ==> rc == -1 && data == old(data)
      ensures hasSctp ==> rc == 0 && data == AfterSet(crcByte, bigEndian, old(data), l4Offset)
      ensures hasSctp ==> |data| == |old(data)| && data[..l4Offset + 8] == old(data)[..l4Offset + 8]
      ensures hasSctp ==> data[l4Offset + 12..] == old(data)[l4Offset + 12..]
      ensures hasSctp ==> Load(bigEndian, data[l4Offset + 8..l4Offset + 12]) == Expected(crcByte, old(data), l4Offset)
    {
      hide Crc, Write, Store, Not;
      if !hasSctp { return -1; }
      ghost var before := data;
      data := Write(data, l4Offset + 8, ZEROS);
      var crc := Crc32c(l4Offset, |data| - l4Offset, ONES);
      ZeroWritten(before, l4Offset);
      WriteTwice(before, l4Offset + 8, ZEROS, Store(bigEndian, Not(crc)));
      LoadStore(bigEndian, Not(crc));
      data := Write(data, l4Offset + 8, Store(bigEndian, Not(crc)));
      rc := 0;
    }

    /** Recompute the checksum, with zeros in place of the stored field, and compare. */
    method ChksumVerify() returns (rc: int)
      requires Total(lens) == |data| && (hasSctp ==> l4Offset + SCTP_HDR_LEN <= |data|)
      ensures rc == if !hasSctp then -1 else Verdict(crcByte, bigEndian, data, l4Offset)
      ensures rc == 0 <==>
              hasSctp && Load(bigEndian, data[l4Offset + 8..l4Offset + 12]) == Expected(crcByte, data, l4Offset)
    {
      if !hasSctp { return -1; }
      var sum := Crc32c(l4Offset, SCTP_HDR_LEN - 4, ONES);
      sum := Crc(crcByte, ZEROS, sum);
      ThreeParts(crcByte, data[l4Offset..l4Offset + 8], ZEROS, data[l4Offset + 12..], ONES);
      assert data[l4Offset + 12..|data|] == data[l4Offset + 12..];
      sum := Crc32c(l4Offset + SCTP_HDR_LEN, |data| - l4Offset - SCTP_HDR_LEN, sum);
      var temp := Load(bigEndian, data[l4Offset + 8..l4Offset + 12]);
      rc := if temp == Not(sum) then 0 else 2;
    }
  }

  lemma ZeroWritten(data: seq<Byte>, l4: nat)
    requires l4 + SCTP_HDR_LEN <= |data|
    ensures Write(data, l4 + 8, ZEROS)[l4..|data|] == Zeroed(data, l4)
  {
  }

  lemma WriteTwice(data: seq<Byte>, offset: nat, a: seq<Byte>, b: seq<Byte>)
    requires offset + |a| <= |data| && |b| == |a|
    ensures Write(Write(data, offset, a), offset, b) == Write(data, offset, b)
  {
  }

  function AfterSet(step: Step, be: bool, data: seq<Byte>, l4: nat): (r: seq<Byte>)
    requires l4 + SCTP_HDR_LEN <= |data|
  {
    Write(data, l4 + 8, Store(be, Expected(step, data, l4)))
  }

  function Verdict(step: Step, be: bool, data: seq<Byte>, l4: nat): (rc: int)
    requires l4 + SCTP_HDR_LEN <= |data|
  {
    if Load(be, data[l4 + 8..l4 + 12]) == Expected(step, data, l4) then 0 else 2
  }

  /** Whatever is stored in the field, only the checksum of the packet verifies. */
  lemma StoredVerdict(step: Step, be: bool, data: seq<Byte>, l4: nat, v: Reg)
    requires l4 + SCTP_HDR_LEN <= |data|
    ensures Verdict(step, be, Write(data, l4 + 8, Store(be, v)), l4) == if v == Expected(step, data, l4) then 0 else 2
  {
    var r := Write(data, l4 + 8, Store(be, v));
    assert r[l4..l4 + 8] == data[l4..l4 + 8] by {
      assert r[..l4 + 8][l4..] == r[l4..l4 + 8] && data[..l4 + 8][l4..] == data[l4..l4 + 8];
    }
    assert Zeroed(r, l4) == Zeroed(data, l4);
    LoadStore(be, v);
  }

  /** Set then verify succeeds, for every packet and segmentation. */
  lemma SetThenVerify(step: Step, be: bool, data: seq<Byte>, l4: nat)
    requires l4 + SCTP_HDR_LEN <= |data|
    ensures |AfterSet(step, be, data, l4)| == |data|
    ensures Verdict(step, be, AfterSet(step, be, data, l4), l4) == 0
  {
    StoredVerdict(step, be, data, l4, Expected(step, data, l4));
  }
}
