/**
  Fragmentation of oversized IPv4 datagrams and the gluing of fragments, on packet bytes.
 */
module Fragment {
  import opened OnesComplement
  import opened IncrementalChecksum
  import opened IpHeader

  const MTU := 1480
  const MTU_OCT := 185

  /** A packet with a proper header length and a length that fits the header field. */
  predicate WellFormed(p: Packet) { 20 <= Ihl(p) <= |p| <= 65535 }

  /** Rewrite length, flag, offset and checksum; everything else stays. */
  function Refield(p: Packet, len: Word, more: bool, off: nat): (r: Packet)
    requires 20 <= Ihl(p) <= |p| && off < FRAG_OFFSETS
    ensures |r| == |p| && Ihl(r) == Ihl(p) && TotLen(r) == len && MoreFragments(r) == more && Offset(r) == off
    ensures forall k {:trigger r[k]} :: 0 <= k < |p| && k !in {2, 3, 6, 7, 10, 11} ==> r[k] == p[k]
  {
    CsumUpdate(SetOffset(SetU16(SetMoreFragments(p, more), 2, len), off))
  }

  /** The value of the flags and offset field after both parts have been set. */
  function FieldValue(f: Word, more: bool, off: nat): (w: Word)
    requires off < FRAG_OFFSETS
  {
    f / 0x4000 * 0x4000 + (if more then FRAG_MORE else 0) + off
  }

  lemma RefieldField(p: Packet, len: Word, more: bool, off: nat)
    requires 20 <= Ihl(p) <= |p| && off < FRAG_OFFSETS
    ensures FragField(Refield(p, len, more, off)) == FieldValue(FragField(p), more, off)
  {
    var a := SetMoreFragments(p, more);
    var b := SetU16(a, 2, len);
    var c := SetOffset(b, off);
    SameField(a, b);
    SameField(c, CsumUpdate(c));
    SplitField(FragField(p));
    hide SetMoreFragments, SetU16, SetOffset, CsumUpdate, FragField;
  }

  /** The flags and offset field in its parts. */
  lemma SplitField(f: Word)
    ensures f == f / 0x4000 * 0x4000 + (if f / FRAG_MORE % 2 == 1 then FRAG_MORE else 0) + f % FRAG_OFFSETS
  {
  }

  lemma SameWord(p: Packet, q: Packet, i: nat)
    requires i < 19 && U16(p, i) == U16(q, i)
    ensures p[i] == q[i] && p[i + 1] == q[i + 1]
  {
  }

  /** Packets that agree outside the rewritten fields, and on the upper flags, become equal. */
  lemma RefieldSame(p: Packet, q: Packet, len: Word, more: bool, off: nat)
    requires 20 <= Ihl(p) <= |p| && off < FRAG_OFFSETS && |q| == |p|
    requires forall k :: 0 <= k < |p| && k !in {2, 3, 6, 7, 10, 11} ==> q[k] == p[k]
    requires FragField(p) / 0x4000 == FragField(q) / 0x4000
    ensures Ihl(q) == Ihl(p) && Refield(p, len, more, off) == Refield(q, len, more, off)
  {
    var r, s := Refield(p, len, more, off), Refield(q, len, more, off);
    RefieldField(p, len, more, off);
    RefieldField(q, len, more, off);
    SameWord(r, s, 2);
    SameWord(r, s, 6);
    RefieldChecksum(p, len, more, off);
    RefieldChecksum(q, len, more, off);
    SameHeaderSum(r, s);
    SameWord(r, s, 10);
  }

  lemma SameHeaderSum(r: Packet, s: Packet)
    requires 20 <= Ihl(r) <= |r| && |s| == |r|
    requires forall k :: 0 <= k < |r| && k != 10 && k != 11 ==> s[k] == r[k]
    ensures Ihl(s) == Ihl(r) && HeaderSum(s) == HeaderSum(r)
  {
    var a, b := r[..Ihl(r)], s[..Ihl(r)];
    assert SetChksum(true, a, 0) == SetChksum(true, b, 0);
  }

  /** The checksum field of a rewritten packet is current, and a receiver accepts its header. */
  lemma RefieldChecksum(p: Packet, len: Word, more: bool, off: nat)
    requires 20 <= Ihl(p) <= |p| && off < FRAG_OFFSETS
    ensures var r := Refield(p, len, more, off); U16(r, 10) == HeaderSum(r) && HeaderValid(r)
  {
    var q := SetOffset(SetU16(SetMoreFragments(p, more), 2, len), off);
    SameHeaderSum(q, CsumUpdate(q));
    ValidIff(Refield(p, len, more, off));
  }

  /** An unfragmented datagram: length and checksum fields are right, and no fragment flag or offset is set. */
  predicate Canonical(p: Packet)
    requires WellFormed(p)
  {
    TotLen(p) == |p| && !MoreFragments(p) && Offset(p) == 0 && U16(p, 10) == HeaderSum(p)
  }

  /** Rewriting the fields for a whole datagram gives back the packet exactly when it is canonical. */
  lemma RefieldWhole(p: Packet)
    requires WellFormed(p)
    ensures Refield(p, |p|, false, 0) == p <==> Canonical(p)
  {
    var r := Refield(p, |p|, false, 0);
    RefieldChecksum(p, |p|, false, 0);
    RefieldField(p, |p|, false, 0);
    if Canonical(p) {
      SameWord(r, p, 2);
      assert FragField(p) % 0x4000 == 0;
      SameWord(r, p, 6);
      SameHeaderSum(p, r);
      SameWord(r, p, 10);
      assert r == p;
    }
  }

  /** Payload length of a datagram, and of its i-th fragment. */
  function Body(p: Packet): (n: nat)
    requires WellFormed(p)
  {
    |p| - Ihl(p)
  }

  function PieceLen(p: Packet, i: nat): (n: nat)
    requires WellFormed(p) && MTU * i < Body(p)
    ensures 0 < n <= MTU && MTU * i + n <= Body(p)
    ensures n == MTU || MTU * i + n == Body(p)
  {
    if Body(p) - MTU * i > MTU then MTU else Body(p) - MTU * i
  }

  /** Number of fragments of a datagram. */
  function Pieces(p: Packet): (n: nat)
    requires WellFormed(p)
    ensures MTU * n - MTU < Body(p) <= MTU * n
  {
    (Body(p) + MTU - 1) / MTU
  }

  /** The datagram's header with a slice of its payload behind it. */
  function Slice(p: Packet, h: seq<Byte>, i: nat): (q: Packet)
    requires WellFormed(p) && MTU * i < Body(p) && |h| == Ihl(p)
    ensures |q| == Ihl(p) + PieceLen(p, i)
  {
    var hl, n := Ihl(p), PieceLen(p, i);
    h + p[hl + MTU * i..hl + MTU * i + n]
  }

  /** The i-th fragment of a datagram. */
  function Piece(p: Packet, i: nat): (r: Packet)
    requires WellFormed(p) && MTU * i < Body(p)
    ensures |r| == Ihl(p) + PieceLen(p, i)
    ensures Ihl(r) == Ihl(p) && TotLen(r) == |r| && Offset(r) == MTU_OCT * i
    ensures MoreFragments(r) <==> MTU * i + PieceLen(p, i) < Body(p)
    ensures forall k {:trigger r[k]} :: 0 <= k < Ihl(p) && k !in {2, 3, 6, 7, 10, 11} ==> r[k] == p[k]
  {
    var q := Slice(p, p[..Ihl(p)], i);
    assert q[0] == p[0];
    Refield(q, |q|, MTU * i + PieceLen(p, i) < Body(p), MTU_OCT * i)
  }

  /** A fragment carries its slice of the payload, and the upper flags of the datagram. */
  lemma PieceContent(p: Packet, i: nat)
    requires WellFormed(p) && MTU * i < Body(p)
    ensures var hl := Ihl(p); Piece(p, i)[hl..] == p[hl + MTU * i..hl + MTU * i + PieceLen(p, i)]
    ensures FragField(Piece(p, i)) / 0x4000 == FragField(p) / 0x4000
    ensures FlowOf(Piece(p, i)) == FlowOf(p)
  {
    var q := Slice(p, p[..Ihl(p)], i);
    assert q[0] == p[0] && q[6] == p[6] && q[7] == p[7];
    RefieldKeeps(q, |q|, MTU * i + PieceLen(p, i) < Body(p), MTU_OCT * i);
    hide Refield, FragField, FlowOf;
    assert q[Ihl(p)..] == p[Ihl(p) + MTU * i..Ihl(p) + MTU * i + PieceLen(p, i)];
    assert FragField(q) == FragField(p) by { SameField(p, q); }
    assert q[12..20] == p[12..20];
    SameFlow(q, p);
  }

  /** A receiver accepts the header of every fragment. */
  lemma PieceValid(p: Packet, i: nat)
    requires WellFormed(p) && MTU * i < Body(p)
    ensures |Piece(p, i)| >= Ihl(Piece(p, i)) && HeaderValid(Piece(p, i))
  {
    var q := Slice(p, p[..Ihl(p)], i);
    assert q[0] == p[0];
    hide Refield, HeaderValid;
    RefieldChecksum(q, |q|, MTU * i + PieceLen(p, i) < Body(p), MTU_OCT * i);
  }

  lemma SameField(p: Packet, q: Packet)
    requires p[6] == q[6] && p[7] == q[7]
    ensures FragField(p) == FragField(q)
  {
  }

  lemma RefieldKeeps(q: Packet, len: Word, more: bool, off: nat)
    requires 20 <= Ihl(q) <= |q| && off < FRAG_OFFSETS
    ensures var r := Refield(q, len, more, off);
            && r[Ihl(q)..] == q[Ihl(q)..]
            && FragField(r) / 0x4000 == FragField(q) / 0x4000
            && FlowOf(r) == FlowOf(q)
  {
    RefieldField(q, len, more, off);
    hide Refield, FragField, FlowOf;
    var r := Refield(q, len, more, off);
    assert r[12..20] == q[12..20];
    SameFlow(r, q);
  }

  /** A later fragment gets its header from the first one, whose rewritten fields are rewritten again. */
  lemma LaterPiece(p: Packet, first: Packet, part: seq<Byte>, i: nat)
    requires WellFormed(p) && MTU * i < Body(p) && first == Piece(p, 0)
    requires part == p[Ihl(p) + MTU * i..Ihl(p) + MTU * i + PieceLen(p, i)]
    ensures var q := first[..Ihl(p)] + part;
            && |q| == Ihl(p) + PieceLen(p, i) && 20 <= |q| && 20 <= Ihl(q) <= |q|
            && Refield(q, |q|, MTU * i + PieceLen(p, i) < Body(p), MTU_OCT * i) == Piece(p, i)
  {
    hide Refield;
    var a, q := Slice(p, p[..Ihl(p)], i), first[..Ihl(p)] + part;
    PieceContent(p, 0);
    assert a[0] == p[0] && q[0] == first[0];
    assert a[6] == p[6] && a[7] == p[7] && q[6] == first[6] && q[7] == first[7];
    RefieldSame(a, q, |q|, MTU * i + PieceLen(p, i) < Body(p), MTU_OCT * i);
  }

  /** The first fragment keeps the header of the datagram. */
  lemma FirstPiece(p: Packet, part: seq<Byte>)
    requires WellFormed(p) && 0 < Body(p) && part == p[..Ihl(p) + PieceLen(p, 0)]
    ensures 20 <= |part| && Ihl(part) == Ihl(p) && |part| == Ihl(p) + PieceLen(p, 0)
    ensures Refield(part, |part|, PieceLen(p, 0) < Body(p), 0) == Piece(p, 0)
  {
    assert part == Slice(p, p[..Ihl(p)], 0);
  }

  lemma SplitAt(p: seq<Byte>, from: nat, to: nat)
    requires from <= to <= |p|
    ensures p[from..][..to - from] == p[from..to] && p[from..][to - from..] == p[to..]
  {
  }

  /** Where the part that is split next begins: the header goes with the first one. */
  ghost function From(orig: Packet, out: seq<Packet>): (n: nat) { if out == [] then 0 else Ihl(orig) + MTU * |out| }

  /** Give a split-off part its header and rewrite the header fields. */
  method FinishFragment(orig: Packet, out: seq<Packet>, part: seq<Byte>, bytesRemaining: nat, fragOffset: nat)
    returns (f: Packet)
    requires WellFormed(orig) && fragOffset == MTU * |out| < Body(orig)
    requires bytesRemaining == Body(orig) - (fragOffset + PieceLen(orig, |out|))
    requires part == orig[From(orig, out)..Ihl(orig) + fragOffset + PieceLen(orig, |out|)]
    requires out != [] ==> out[0] == Piece(orig, 0)
    ensures f == Piece(orig, |out|)
  {
    hide Refield, Piece;
    var frag := part;
    if out != [] {
      LaterPiece(orig, out[0], part, |out|);
      frag := out[0][..Ihl(orig)] + part;
    } else {
      FirstPiece(orig, part);
    }
    f := Refield(frag, |frag|, bytesRemaining != 0, fragOffset / 8);
  }

  lemma WellFormedIs(p: Packet)
    requires WellFormed(p)
    ensures 20 <= Ihl(p) <= |p|
  {
  }

  /** The length of a piece, and whether it is the last one. */
  lemma PieceStep(p: Packet, i: nat)
    requires WellFormed(p) && MTU * i < Body(p)
    ensures PieceLen(p, i) == if Body(p) - MTU * i > MTU then MTU else Body(p) - MTU * i
    ensures Body(p) - MTU * i <= MTU ==> Pieces(p) == i + 1
  {
  }

  /** Split the next fragment off and finish it. */
  method NextFragment(orig: Packet, out: seq<Packet>, frag: seq<Byte>, bytesRemaining: nat, fragOffset: nat)
    returns (f: Packet, rest: seq<Byte>, fragLen: nat)
    requires WellFormed(orig) && fragOffset == MTU * |out| < Body(orig) && bytesRemaining == Body(orig) - fragOffset
    requires frag == orig[From(orig, out)..] && (out != [] ==> out[0] == Piece(orig, 0))
    ensures f == Piece(orig, |out|) && fragLen == Ihl(orig) + PieceLen(orig, |out|)
    ensures bytesRemaining > PieceLen(orig, |out|) ==>
        PieceLen(orig, |out|) == MTU && rest == orig[fragOffset + fragLen..]
  {
    hide Piece, Ihl, Pieces, PieceLen;
    var headerLen := Ihl(orig);
    PieceStep(orig, |out|);
    fragLen := if bytesRemaining > MTU then MTU + headerLen else bytesRemaining + headerLen;
    var remaining := bytesRemaining - (fragLen - headerLen);
    ghost var from, to := From(orig, out), fragOffset + fragLen;
    var part := frag;
    rest := [];
    if remaining > 0 {
      var splitPoint := if out == [] then fragLen else fragLen - headerLen;
      SplitAt(orig, from, to);
      part, rest := frag[..splitPoint], frag[splitPoint..];
    }
    assert part == orig[from..to];
    f := FinishFragment(orig, out, part, remaining, fragOffset);
  }

  /**
    The packet is the fragment of p whose payload begins at the given byte: 1480 bytes of payload, or all the
    rest for the last fragment, with offset and "more fragments" in its header.
   */
  ghost predicate Carries(p: Packet, r: Packet, from: nat, last: bool) {
    && Ihl(r) == Ihl(p) <= |r| && TotLen(r) == |r| && 8 * Offset(r) == from && (MoreFragments(r) <==> !last)
    && Ihl(p) + from <= |p| && (last || Ihl(p) + from + 1480 < |p|)
    && r[Ihl(p)..] == if last then p[Ihl(p) + from..] else p[Ihl(p) + from..Ihl(p) + from + 1480]
  }

  lemma PieceCarries(p: Packet, i: nat)
    requires WellFormed(p) && MTU * i < Body(p)
    ensures Carries(p, Piece(p, i), 1480 * i, i + 1 == Pieces(p))
  {
    PieceContent(p, i);
    hide Piece, Ihl, FlowOf;
  }

  /**
    Break an oversized datagram into fragments; a datagram that needs no fragmentation is
    refused.  The packet is split, each part but the first gets a copy of the first part's
    header, and the header fields are rewritten.
   */
  method FragmentIpv4Packet(orig: Packet) returns (rc: int, out: seq<Packet>)
    requires WellFormed(orig)
    ensures Body(orig) <= MTU ==> rc == -1 && out == []
    ensures Body(orig) > MTU ==> rc == 0 && |out| == Pieces(orig)
    ensures rc == 0 ==> forall i :: 0 <= i < |out| ==> MTU * i < Body(orig) && out[i] == Piece(orig, i)
    ensures forall i :: 0 <= i < |out| ==> 20 <= Ihl(out[i]) <= |out[i]| && HeaderValid(out[i])
    ensures rc == -1 <==> |orig| - Ihl(orig) <= 1480
    ensures forall i :: 0 <= i < |out| ==> Carries(orig, out[i], 1480 * i, i + 1 == |out|)
  {
    hide Piece, Ihl, Pieces, PieceLen, WellFormed, HeaderValid, Carries;
    rc, out := 0, [];
    var headerLen := Ihl(orig);
    var bytesRemaining := |orig| - headerLen;
    if bytesRemaining <= MTU {
      return -1, [];
    }
    var fragOffset := 0;
    var frag: seq<Byte> := orig;
    assert orig[0..] == orig;
    while bytesRemaining > 0
      invariant 0 <= bytesRemaining
      invariant bytesRemaining > 0 ==> fragOffset == MTU * |out| && bytesRemaining == Body(orig) - fragOffset
      invariant bytesRemaining > 0 ==> frag == orig[From(orig, out)..]
      invariant bytesRemaining == 0 ==> |out| == Pieces(orig)
      invariant forall i :: 0 <= i < |out| ==> MTU * i < Body(orig) && out[i] == Piece(orig, i)
      invariant forall i :: 0 <= i < |out| ==> 20 <= Ihl(out[i]) <= |out[i]| && HeaderValid(out[i])
      decreases bytesRemaining
    {
      PieceStep(orig, |out|);
      PieceValid(orig, |out|);
      WellFormedIs(orig);
      var f, rest, fragLen := NextFragment(orig, out, frag, bytesRemaining, fragOffset);
      bytesRemaining := bytesRemaining - (fragLen - headerLen);
      out := out + [f];
      frag := rest;
      fragOffset := fragOffset + (fragLen - headerLen);
    }
    forall i | 0 <= i < |out| ensures Carries(orig, out[i], 1480 * i, i + 1 == |out|) { PieceCarries(orig, i); }
  }
}
