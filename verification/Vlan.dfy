/**
 The VLAN rewriting of the DHCP relay: the VLAN of the service side is the one
 of the network side minus one, wrapping within 1..4093.
 */
module Vlan {
  import opened Common
  import opened Bits
  import opened Cbpf

  const UINT16: nat := 0x1_0000

  /** setDhcpVlan on the 16 bits of tag control information. */
  function DhcpTci(tci: nat): nat {
    var pbit, oamVlan := BitAnd(tci, 0xF000), BitAnd(tci, 0xFFF);
    var dhcpVlan := (oamVlan - 1) % UINT16;
    BitOr(pbit, if dhcpVlan == 0 then 4093 else dhcpVlan)
  }

  /** setOamVlan on the 16 bits of tag control information. */
  function OamTci(tci: nat): nat {
    var pbit, dhcpVlan := BitAnd(tci, 0xF000), BitAnd(tci, 0xFFF);
    var oamVlan := (dhcpVlan + 1) % UINT16;
    BitOr(pbit, if oamVlan == 4094 then 1 else oamVlan)
  }

  function Vid(tci: nat): nat {
    tci % 4096
  }

  /** The four bits above the VLAN identifier. */
  function Prio(tci: nat): nat {
    tci / 4096
  }

  /** Tag control information from its two fields. */
  function Tag(prio: nat, vid: nat): nat {
    4096 * prio + vid
  }

  lemma TagFields(prio: nat, vid: nat)
    requires vid < 4096
    ensures Prio(Tag(prio, vid)) == prio && Vid(Tag(prio, vid)) == vid
  {
  }

  /** The masks split the tag control information into its two fields. */
  lemma Masks(prio: nat, vid: nat)
    requires prio < 16 && vid < 4096
    ensures BitAnd(Tag(prio, vid), 0xF000) == Tag(prio, 0) && BitAnd(Tag(prio, vid), 0xFFF) == vid
  {
    var tci := Tag(prio, vid);
    assert Ones(4) == 0xf && Ones(12) == 0xfff && Shl(1, 12) == 4096 && Shl(0xf, 12) == 0xF000;
    ShrIsQuotient(tci, 12);
    TagFields(prio, vid);
    AndOnes(tci, 12);
    AndShl(tci, 0xf, 12);
    AndOnes(prio, 4);
    LowOfSmall(prio, 4);
    ShlIsProduct(prio, 12);
  }

  lemma JoinFields(prio: nat, vid: nat)
    requires vid < 4096
    ensures BitOr(Tag(prio, 0), vid) == Tag(prio, vid)
  {
    assert Ones(12) == 0xfff && Shl(1, 12) == 4096;
    ShlIsProduct(prio, 12);
    OrDisjoint(prio, vid, 12);
  }

  lemma JoinOnes(prio: nat)
    requires prio < 16
    ensures BitOr(Tag(prio, 0), 0xFFFF) == 0xFFFF
  {
    assert Ones(12) == 0xFFF;
    assert Ones(13) == 0x1FFF;
    assert Ones(14) == 0x3FFF;
    assert Ones(15) == 0x7FFF;
    assert Ones(16) == 0xFFFF;
    OrOnes(Tag(prio, 0), 16);
  }

  /** a with its lowest bit set. */
  function MadeOdd(a: nat): nat {
    if a % 2 == 0 then a + 1 else a
  }

  lemma OrOne(a: nat)
    ensures BitOr(a, 1) == MadeOdd(a)
  {
    if a != 0 {
      assert BitOr(a, 1) == 2 * BitOr(a / 2, 0) + 1;
    }
  }

  lemma JoinCarry(prio: nat)
    ensures BitOr(Tag(prio, 0), 4096) == Tag(MadeOdd(prio), 0)
  {
    OrOne(prio);
    OrShl(prio, 1, 12);
    assert Shl(1, 12) == 4096;
    ShlIsProduct(prio, 12);
    ShlIsProduct(MadeOdd(prio), 12);
  }

  lemma DhcpParts(tci: nat, pbit: nat, vid: nat)
    requires BitAnd(tci, 0xF000) == pbit && BitAnd(tci, 0xFFF) == vid < 4096
    ensures DhcpTci(tci) == BitOr(pbit, if vid == 0 then 0xFFFF else if vid == 1 then 4093 else vid - 1)
  {
    assert (vid - 1) % UINT16 == if vid == 0 then 0xFFFF else vid - 1;
  }

  lemma OamParts(tci: nat, pbit: nat, vid: nat)
    requires BitAnd(tci, 0xF000) == pbit && BitAnd(tci, 0xFFF) == vid < 4096
    ensures OamTci(tci) == BitOr(pbit, if vid == 4093 then 1 else vid + 1)
  {
    assert (vid + 1) % UINT16 == vid + 1;
  }

  /** What setDhcpVlan does to each identifier; identifier 0 underflows to all ones. */
  lemma DhcpTciValue(prio: nat, vid: nat)
    requires prio < 16 && vid < 4096
    ensures DhcpTci(Tag(prio, vid))
         == if vid == 0 then Tag(15, 4095) else if vid == 1 then Tag(prio, 4093) else Tag(prio, vid - 1)
  {
    Masks(prio, vid);
    DhcpParts(Tag(prio, vid), Tag(prio, 0), vid);
    if vid == 0 {
      JoinOnes(prio);
    } else {
      JoinFields(prio, if vid == 1 then 4093 else vid - 1);
    }
  }

  /** What setOamVlan does to each identifier; identifier 4095 overflows into the bits above. */
  lemma OamTciValue(prio: nat, vid: nat)
    requires prio < 16 && vid < 4096
    ensures OamTci(Tag(prio, vid))
         == if vid == 4093 then Tag(prio, 1)
            else if vid == 4095 then Tag(MadeOdd(prio), 0) else Tag(prio, vid + 1)
  {
    Masks(prio, vid);
    OamParts(Tag(prio, vid), Tag(prio, 0), vid);
    if vid == 4095 {
      JoinCarry(prio);
    } else {
      JoinFields(prio, if vid == 4093 then 1 else vid + 1);
    }
  }

  /** On identifiers 1..4093 both rewritings stay in the domain, keep the bits above the
      identifier and undo each other. */
  lemma PermutationOfDomain(prio: nat, vid: nat)
    requires prio < 16 && 1 <= vid <= 4093
    ensures var t := DhcpTci(Tag(prio, vid)); 1 <= Vid(t) <= 4093 && Prio(t) == prio && OamTci(t) == Tag(prio, vid)
    ensures var t := OamTci(Tag(prio, vid)); 1 <= Vid(t) <= 4093 && Prio(t) == prio && DhcpTci(t) == Tag(prio, vid)
  {
    var down, up := if vid == 1 then 4093 else vid - 1, if vid == 4093 then 1 else vid + 1;
    DhcpTciValue(prio, vid);
    OamTciValue(prio, down);
    TagFields(prio, down);
    OamTciValue(prio, vid);
    DhcpTciValue(prio, up);
    TagFields(prio, up);
  }

  /** Network to service and back: exactly which tags come back unchanged. */
  lemma OamRoundTrip(prio: nat, vid: nat)
    requires prio < 16 && vid < 4096
    ensures OamTci(DhcpTci(Tag(prio, vid))) == Tag(prio, vid)
            <==> (vid != 0 && vid != 4094) || (vid == 0 && prio == 15)
  {
    DhcpTciValue(prio, vid);
    if vid == 0 {
      OamTciValue(15, 4095);
    } else {
      OamTciValue(prio, if vid == 1 then 4093 else vid - 1);
    }
  }

  /** The identifier that the increment carries out of its field. */
  lemma WrappedRoundTrip(prio: nat)
    requires prio < 16
    ensures DhcpTci(OamTci(Tag(prio, 4095))) == Tag(prio, 4095) <==> prio == 15
  {
    OamTciValue(prio, 4095);
    DhcpTciValue(MadeOdd(prio), 0);
  }

  /** Service to network and back. */
  lemma DhcpRoundTrip(prio: nat, vid: nat)
    requires prio < 16 && vid < 4096
    ensures DhcpTci(OamTci(Tag(prio, vid))) == Tag(prio, vid)
            <==> 1 <= vid <= 4094 || (vid == 4095 && prio == 15)
  {
    if vid == 4095 {
      WrappedRoundTrip(prio);
    } else {
      OamTciValue(prio, vid);
      DhcpTciValue(prio, if vid == 4093 then 1 else vid + 1);
    }
  }

  /** Two tags with an identifier are sent to the same tag only when one has identifier 1 and the
      other 4094, the identifier that the filter keeps out. */
  lemma OnlyCollision(p1: nat, v1: nat, p2: nat, v2: nat)
    requires p1 < 16 && p2 < 16 && 1 <= v1 < v2 < 4096
    ensures DhcpTci(Tag(p1, v1)) == DhcpTci(Tag(p2, v2)) <==> p1 == p2 && v1 == 1 && v2 == 4094
  {
    DhcpTciValue(p1, v1);
    DhcpTciValue(p2, v2);
  }

  // The same on the bytes of a frame.

  function Tci(w: seq<Byte>): (r: nat)
    requires 16 <= |w|
    ensures r < UINT16
  {
    Half(w, 14)
  }

  predicate Tagged(w: seq<Byte>)
    requires 16 <= |w|
  {
    Half(w, 12) == 0x8100
  }

  /** Bytes 14 and 15 set to t in network order. */
  function WithTci(w: seq<Byte>, t: nat): (r: seq<Byte>)
    requires 16 <= |w| && t < UINT16
    ensures |r| == |w| && Tci(r) == t
    ensures forall i :: 0 <= i < |w| && i != 14 && i != 15 ==> r[i] == w[i]
  {
    w[14 := t / 256][15 := t % 256]
  }

  datatype Direction = OamToDhcp | DhcpToOam

  lemma NewTciFits(tci: nat)
    requires tci < UINT16
    ensures DhcpTci(tci) < UINT16 && OamTci(tci) < UINT16
  {
    var prio, vid := Prio(tci), Vid(tci);
    assert tci == Tag(prio, vid) && prio < 16;
    DhcpTciValue(prio, vid);
    OamTciValue(prio, vid);
  }

  function NewTci(dir: Direction, tci: nat): (r: nat)
    requires tci < UINT16
    ensures r < UINT16
  {
    NewTciFits(tci);
    match dir
    case OamToDhcp => DhcpTci(tci)
    case DhcpToOam => OamTci(tci)
  }

  /** setDhcpVlan and setOamVlan: untagged frames are left alone. */
  function Retag(dir: Direction, w: seq<Byte>): (r: seq<Byte>)
    requires 16 <= |w|
    ensures |r| == |w|
  {
    if Tagged(w) then WithTci(w, NewTci(dir, Tci(w))) else w
  }

  /** What is rewritten, byte by byte: in a frame tagged 0x8100 the identifier goes down by one on
      the way to the service, with 4093 for 1, and up by one on the way back, with 1 for 4093; all
      other frames and bytes stay. The identifiers at the ends of the range wrap as they do. */
  lemma RetagExact(dir: Direction, w: seq<Byte>)
    requires 16 <= |w|
    ensures var r, prio, vid := Retag(dir, w), Half(w, 14) / 4096, Half(w, 14) % 4096;
      if w[12] == 0x81 && w[13] == 0x00 then
        && (forall i :: 0 <= i < |w| && i != 14 && i != 15 ==> r[i] == w[i])
        && Half(r, 14) ==
           match dir
           case OamToDhcp =>
             if vid == 0 then 0xFFFF else 4096 * prio + if vid == 1 then 4093 else vid - 1
           case DhcpToOam =>
             if vid == 4095 then 4096 * (if prio % 2 == 0 then prio + 1 else prio)
             else 4096 * prio + if vid == 4093 then 1 else vid + 1
      else r == w
  {
    var prio, vid := Prio(Tci(w)), Vid(Tci(w));
    assert Tci(w) == Tag(prio, vid) && prio < 16;
    DhcpTciValue(prio, vid);
    OamTciValue(prio, vid);
    assert Tagged(w) <==> w[12] == 0x81 && w[13] == 0x00;
  }

  /** Rewriting twice rewrites the tag twice and touches no other byte. */
  lemma RetagTwice(first: Direction, second: Direction, w: seq<Byte>)
    requires 16 <= |w| && Tagged(w)
    ensures var v := Retag(second, Retag(first, w));
      && Tci(v) == NewTci(second, NewTci(first, Tci(w)))
      && forall i :: 0 <= i < |w| && i != 14 && i != 15 ==> v[i] == w[i]
  {
    var u := Retag(first, w);
    assert u == WithTci(w, NewTci(first, Tci(w)));
    assert Tagged(u) && Tci(u) == NewTci(first, Tci(w));
  }

  /** A tagged frame of any length survives both rewritings, in either order, exactly when its
      tag does. */
  lemma RetagRoundTrip(w: seq<Byte>)
    requires 16 <= |w| && Tagged(w)
    ensures Retag(DhcpToOam, Retag(OamToDhcp, w)) == w
            <==> (Vid(Tci(w)) != 0 && Vid(Tci(w)) != 4094) || (Vid(Tci(w)) == 0 && Prio(Tci(w)) == 15)
    ensures Retag(OamToDhcp, Retag(DhcpToOam, w)) == w
            <==> 1 <= Vid(Tci(w)) <= 4094 || (Vid(Tci(w)) == 4095 && Prio(Tci(w)) == 15)
  {
    var tci := Tci(w);
    assert tci == Tag(Prio(tci), Vid(tci));
    OamRoundTrip(Prio(tci), Vid(tci));
    DhcpRoundTrip(Prio(tci), Vid(tci));
    RetagTwice(OamToDhcp, DhcpToOam, w);
    RetagTwice(DhcpToOam, OamToDhcp, w);
    SameBytes(w, Retag(DhcpToOam, Retag(OamToDhcp, w)));
    SameBytes(w, Retag(OamToDhcp, Retag(DhcpToOam, w)));
  }

  /** Frames that differ at most in the tag are equal when their tags are. */
  lemma SameBytes(w: seq<Byte>, v: seq<Byte>)
    requires 16 <= |w| == |v| && forall i :: 0 <= i < |w| && i != 14 && i != 15 ==> v[i] == w[i]
    ensures v == w <==> Tci(v) == Tci(w)
  {
    if Tci(v) == Tci(w) {
      assert v[14] == w[14] && v[15] == w[15];
    }
  }

  /** Every frame that passes the DHCP filter with a VLAN identifier comes back unchanged. */
  lemma FilteredFramesComeBack(w: seq<Byte>)
    requires Accepts(DHCP_FILTER, w) && 16 <= |w| && Vid(Tci(w)) != 0
    ensures Retag(DhcpToOam, Retag(OamToDhcp, w)) == w
  {
    DhcpFilterExact(w);
    VidBytes(w[14], w[15]);
    RetagRoundTrip(w);
  }
}
