/**
  IPv4 packets as byte strings, with the header accessors of the fragmentation example.
  16-bit fields are stored in network byte order.
 */
module IpHeader {
  import opened OnesComplement
  import opened IncrementalChecksum
  import L4Checksum

  const IP_OCTET_MAX := 16383
  const FRAG_MORE := 0x2000
  const FRAG_OFFSETS := 0x2000

  /** Whether the host is big-endian; it matters only for fields compared without conversion. */
  const HostBigEndian: bool

  /** A packet that holds at least a minimal IPv4 header. */
  type Packet = p: seq<Byte> | 20 <= |p| witness seq(20, _ => 0)

  function U16(p: Packet, i: nat): (w: Word)
    requires i < 19
  {
    WordOf(true, p[i], p[i + 1])
  }

  function SetU16(p: Packet, i: nat, w: Word): (r: Packet)
    requires i < 19
    ensures |r| == |p| && U16(r, i) == w
    ensures forall k {:trigger r[k]} :: 0 <= k < |p| && k != i && k != i + 1 ==> r[k] == p[k]
  {
    p[i := w / 256][i + 1 := w % 256]
  }

  /** Header length in bytes. */
  function Ihl(p: Packet): (n: nat)
    ensures n <= 60
  {
    4 * (p[0] % 16)
  }

  function TotLen(p: Packet): (w: Word) { U16(p, 2) }

  /** The flags and fragment offset field. */
  function FragField(p: Packet): (w: Word) { U16(p, 6) }

  predicate MoreFragments(p: Packet) { FragField(p) / FRAG_MORE % 2 == 1 }

  /** Fragment offset in units of eight bytes. */
  function Offset(p: Packet): (n: nat)
    ensures n < FRAG_OFFSETS
  {
    FragField(p) % FRAG_OFFSETS
  }

  /** The flag can be added or taken away without touching other bits. */
  lemma FlipMore(f: Word)
    ensures f / FRAG_MORE % 2 == 0 ==>
        f + FRAG_MORE < 0x1_0000 && (f + FRAG_MORE) / FRAG_MORE % 2 == 1 &&
        (f + FRAG_MORE) % FRAG_OFFSETS == f % FRAG_OFFSETS
    ensures f / FRAG_MORE % 2 == 1 ==>
        f >= FRAG_MORE && (f - FRAG_MORE) / FRAG_MORE % 2 == 0 && (f - FRAG_MORE) % FRAG_OFFSETS == f % FRAG_OFFSETS
  {
    var q := f / FRAG_MORE;
    assert (f + FRAG_MORE) / FRAG_MORE == q + 1;
    assert (f - FRAG_MORE) / FRAG_MORE == q - 1;
  }

  function SetMoreFragments(p: Packet, mf: bool): (r: Packet)
    ensures |r| == |p| && MoreFragments(r) == mf && Offset(r) == Offset(p)
    ensures forall k {:trigger r[k]} :: 0 <= k < |p| && k != 6 && k != 7 ==> r[k] == p[k]
    ensures FragField(r) == FragField(p) - (if MoreFragments(p) then FRAG_MORE else 0) + (if mf then FRAG_MORE else 0)
  {
    var f := FragField(p);
    FlipMore(f);
    if mf == MoreFragments(p) then SetU16(p, 6, f)
    else if mf then SetU16(p, 6, f + FRAG_MORE)
    else SetU16(p, 6, f - FRAG_MORE)
  }

  /** The offset can be replaced without touching the bits above it. */
  lemma ReplaceOffset(f: Word, off: nat)
    requires off < FRAG_OFFSETS
    ensures var g := f - f % FRAG_OFFSETS + off;
            0 <= g < 0x1_0000 && g % FRAG_OFFSETS == off && g / FRAG_MORE == f / FRAG_MORE
  {
    var q := f / FRAG_OFFSETS;
    assert f == FRAG_OFFSETS * q + f % FRAG_OFFSETS && q < 8;
    var g := FRAG_OFFSETS * q + off;
    assert g / FRAG_OFFSETS == q && g % FRAG_OFFSETS == off;
  }

  /** Set the fragment offset; the flag bits stay. */
  function SetOffset(p: Packet, off: nat): (r: Packet)
    requires off < FRAG_OFFSETS
    ensures |r| == |p| && Offset(r) == off && MoreFragments(r) == MoreFragments(p)
    ensures forall k {:trigger r[k]} :: 0 <= k < |p| && k != 6 && k != 7 ==> r[k] == p[k]
    ensures FragField(r) == FragField(p) - Offset(p) + off
  {
    var f := FragField(p);
    ReplaceOffset(f, off);
    SetU16(p, 6, f - f % FRAG_OFFSETS + off)
  }

  /** Payload length in bytes and in eight-byte units. */
  function PayloadLen(p: Packet): (n: nat)
    ensures n <= 65535
  {
    if TotLen(p) >= Ihl(p) then TotLen(p) - Ihl(p) else 0
  }

  function PayloadOct(p: Packet): (n: nat)
    ensures n <= 8192 && 8 * n - 8 < PayloadLen(p) <= 8 * n
  {
    (PayloadLen(p) + 7) / 8
  }

  /** Upper bound of the reassembled payload length in eight-byte units; exact for the final fragment. */
  function ReassOct(p: Packet): (n: nat)
    ensures n <= IP_OCTET_MAX
  {
    if MoreFragments(p) then IP_OCTET_MAX else Offset(p) + PayloadOct(p)
  }

  /** Where the fields are in the bytes of the header (section 3.1 of RFC 791). */
  lemma FieldPlaces(p: Packet)
    ensures Ihl(p) == 4 * (p[0] % 16) && TotLen(p) == 256 * (p[2] as int) + p[3]
    ensures MoreFragments(p) <==> p[6] / 32 % 2 == 1
    ensures Offset(p) == 256 * (p[6] as int % 32) + p[7]
  {
    var a, b: int := p[6] as int, p[7] as int;
    var q := a / 32;
    assert FragField(p) == 0x2000 * q + (256 * (a % 32) + b);
    assert 0 <= 256 * (a % 32) + b < 0x2000;
    assert FragField(p) / 0x2000 == q;
  }

  /** The header checksum, over the header bytes with a zero checksum field. */
  function HeaderSum(p: Packet): (w: Word)
    requires 20 <= Ihl(p) <= |p|
  {
    HeaderChecksum(true, p[..Ihl(p)])
  }

  /** What a receiver checks: the words of the header, checksum included, sum up to minus zero. */
  predicate HeaderValid(p: Packet)
    requires 20 <= Ihl(p) <= |p|
  {
    Fold(Sum(true, p[..Ihl(p)])) == 65535
  }

  /** A header passes the check exactly if it holds its checksum, or the other zero where that is zero. */
  lemma ValidIff(p: Packet)
    requires 20 <= Ihl(p) <= |p|
    ensures HeaderValid(p) <==> U16(p, 10) == HeaderSum(p) || (HeaderSum(p) == 0 && U16(p, 10) == 65535)
  {
    var h := p[..Ihl(p)];
    var z := SetChksum(true, h, 0);
    assert h[0] == p[0] && h[10] == p[10] && h[11] == p[11] && z[0] == p[0];
    L4Checksum.ReplaceWord(true, h, z, 10);
    NonZeroSum(true, z);
    FoldComplement(Sum(true, z), U16(p, 10));
  }

  lemma FoldComplement(n: nat, c: Word)
    requires n > 0
    ensures Fold(n + c) == 65535 <==> c == 65535 - Fold(n) || (Fold(n) == 65535 && c == 65535)
  {
    var q := FoldQuotient(n);
    var d := Fold(n) + c;
    if d <= 65535 {
      FoldUnique(n + c, d, q);
    } else {
      FoldUnique(n + c, d - 65535, q + 1);
    }
  }

  /** Recompute the checksum field; the stored bytes are the same for either host byte order. */
  function CsumUpdate(p: Packet): (r: Packet)
    requires 20 <= Ihl(p) <= |p|
    ensures |r| == |p| && U16(r, 10) == HeaderSum(p)
    ensures forall k {:trigger r[k]} :: 0 <= k < |p| && k != 10 && k != 11 ==> r[k] == p[k]
  {
    SetU16(p, 10, HeaderSum(p))
  }

  /** The key under which fragments are collected: addresses, identification and protocol. */
  datatype Flow = Flow(addrs: nat, id: nat, proto: nat)

  function FlowOf(p: Packet): (f: Flow) {
    Flow(0x1_0000 * (0x1_0000 * (0x1_0000 * U16(p, 12) + U16(p, 14)) + U16(p, 16)) + U16(p, 18),
         WordOf(HostBigEndian, p[4], p[5]),
         p[9])
  }

  /** The bytes of identification, protocol and addresses are the same. */
  predicate SameKey(p: Packet, q: Packet) { p[4..6] == q[4..6] && p[9] == q[9] && p[12..20] == q[12..20] }

  /** Packets have the same flow exactly when they agree on the key bytes. */
  lemma FlowBytes(p: Packet, q: Packet)
    ensures FlowOf(p) == FlowOf(q) <==> SameKey(p, q)
  {
    AddrsBytes(p, q);
    IdBytes(p, q);
    hide U16;
  }

  lemma SameFlow(p: Packet, q: Packet)
    requires p[4] == q[4] && p[5] == q[5] && p[9] == q[9] && p[12..20] == q[12..20]
    ensures FlowOf(p) == FlowOf(q)
  {
    assert p[4..6] == [p[4], p[5]] && q[4..6] == [q[4], q[5]];
    FlowBytes(p, q);
  }

  lemma AddrsBytes(p: Packet, q: Packet)
    ensures FlowOf(p).addrs == FlowOf(q).addrs <==> p[12..20] == q[12..20]
  {
    WordsBytes(p, q);
    SplitAddrs(U16(p, 12), U16(p, 14), U16(p, 16), U16(p, 18), U16(q, 12), U16(q, 14), U16(q, 16), U16(q, 18));
  }

  lemma SplitAddrs(a: Word, b: Word, c: Word, d: Word, e: Word, f: Word, g: Word, h: Word)
    ensures 0x1_0000 * (0x1_0000 * (0x1_0000 * a + b) + c) + d == 0x1_0000 * (0x1_0000 * (0x1_0000 * e + f) + g) + h
        <==> a == e && b == f && c == g && d == h
  {
  }

  lemma OneWord(p: Packet, q: Packet, i: nat)
    requires i < 19
    ensures U16(p, i) == U16(q, i) <==> p[i] == q[i] && p[i + 1] == q[i + 1]
  {
  }

  lemma WordsBytes(p: Packet, q: Packet)
    ensures U16(p, 12) == U16(q, 12) && U16(p, 14) == U16(q, 14) && U16(p, 16) == U16(q, 16) && U16(p, 18) == U16(q, 18)
        <==> p[12..20] == q[12..20]
  {
    OneWord(p, q, 12);
    OneWord(p, q, 14);
    OneWord(p, q, 16);
    OneWord(p, q, 18);
    hide U16;
    var a, b := p[12..20], q[12..20];
    assert a == [p[12], p[13], p[14], p[15], p[16], p[17], p[18], p[19]];
    assert b == [q[12], q[13], q[14], q[15], q[16], q[17], q[18], q[19]];
  }

  lemma IdBytes(p: Packet, q: Packet)
    ensures FlowOf(p).id == FlowOf(q).id <==> p[4..6] == q[4..6]
  {
    assert p[4..6] == [p[4], p[5]] && q[4..6] == [q[4], q[5]];
  }

  /** The comparison of memory: the first byte that differs is greater. */
  ghost predicate BytesGreater(a: seq<Byte>, b: seq<Byte>)
    requires |a| == |b|
  {
    exists k :: 0 <= k < |a| && a[k] > b[k] && a[..k] == b[..k]
  }

  /** The identification as the host reads it, most significant byte first. */
  function HostId(p: Packet): (s: seq<Byte>) { if HostBigEndian then [p[4], p[5]] else [p[5], p[4]] }

  lemma {:induction false} FirstByte(a: seq<Byte>, b: seq<Byte>)
    requires |a| == |b| > 0
    ensures BytesGreater(a, b) <==> a[0] > b[0] || (a[0] == b[0] && BytesGreater(a[1..], b[1..]))
  {
    if BytesGreater(a, b) {
      var k :| 0 <= k < |a| && a[k] > b[k] && a[..k] == b[..k];
      if k > 0 {
        assert a[0] == a[..k][0] == b[..k][0] == b[0];
        assert a[1..][k - 1] > b[1..][k - 1] && a[1..][..k - 1] == a[..k][1..] == b[..k][1..] == b[1..][..k - 1];
      }
    }
    if a[0] > b[0] { assert a[..0] == b[..0]; }
    if a[0] == b[0] && BytesGreater(a[1..], b[1..]) {
      var k :| 0 <= k < |a| - 1 && a[1..][k] > b[1..][k] && a[1..][..k] == b[1..][..k];
      assert a[k + 1] > b[k + 1] && a[..k + 1] == [a[0]] + a[1..][..k] && b[..k + 1] == [b[0]] + b[1..][..k];
    }
  }

  /** Two bytes in front of others, as a word. */
  lemma FirstWord(a: seq<Byte>, b: seq<Byte>)
    requires |a| == |b| >= 2
    ensures var v, w := WordOf(true, a[0], a[1]), WordOf(true, b[0], b[1]);
            BytesGreater(a, b) <==> v > w || (v == w && BytesGreater(a[2..], b[2..]))
  {
    FirstByte(a, b);
    FirstByte(a[1..], b[1..]);
    assert a[1..][1..] == a[2..] && b[1..][1..] == b[2..];
  }

  lemma NoBytes(a: seq<Byte>, b: seq<Byte>)
    requires |a| == |b| == 0
    ensures !BytesGreater(a, b)
  {
  }

  /** The addresses are compared as memory is. */
  lemma AddrsOrder(p: Packet, q: Packet)
    ensures FlowOf(p).addrs > FlowOf(q).addrs <==> BytesGreater(p[12..20], q[12..20])
  {
    var a, b := p[12..20], q[12..20];
    hide BytesGreater;
    FirstWord(a, b);
    FirstWord(a[2..], b[2..]);
    FirstWord(a[4..], b[4..]);
    FirstWord(a[6..], b[6..]);
    assert a[2..][2..] == a[4..] && b[2..][2..] == b[4..] && a[4..][2..] == a[6..] && b[4..][2..] == b[6..];
    NoBytes(a[6..][2..], b[6..][2..]);
  }

  lemma IdOrder(p: Packet, q: Packet)
    ensures FlowOf(p).id > FlowOf(q).id <==> BytesGreater(HostId(p), HostId(q))
  {
    var a, b := HostId(p), HostId(q);
    FirstWord(a, b);
    NoBytes(a[2..], b[2..]);
  }
}
