/**
 The classic BPF machine, as far as the relay's packet filters use it, and the
 two filter tables with the packets they accept.
 */
module Cbpf {
  import opened Common
  import opened Bits

  type Packet = seq<Byte>

  /** struct sock_filter. */
  datatype Instr = Instr(code: nat, jt: nat, jf: nat, k: nat)

  const LD_H_ABS: nat := 0x28
  const LD_B_ABS: nat := 0x30
  const LD_H_IND: nat := 0x48
  const LDX_B_MSH: nat := 0xb1
  const AND_K: nat := 0x54
  const JEQ_K: nat := 0x15
  const JSET_K: nat := 0x45
  const RET_K: nat := 0x06

  /** Two bytes in network order. */
  function Half(p: Packet, i: nat): nat
    requires i + 2 <= |p|
  {
    256 * (p[i] as int) + p[i + 1] as int
  }

  /** 4 * (byte & 0xf), the length of an IPv4 header. */
  function HeaderBytes(b: Byte): nat {
    4 * BitAnd(b, 0xf)
  }

  /** The machine from instruction pc on: the number of bytes to accept. A load outside the
      packet, or an instruction the machine does not know, rejects. */
  function Exec(prog: seq<Instr>, pc: nat, a: nat, x: nat, p: Packet): nat
    decreases |prog| - pc
  {
    if pc >= |prog| then 0 else
      var i := prog[pc];
      if i.code == LD_H_ABS then
        if i.k + 2 <= |p| then Exec(prog, pc + 1, Half(p, i.k), x, p) else 0
      else if i.code == LD_B_ABS then
        if i.k < |p| then Exec(prog, pc + 1, p[i.k], x, p) else 0
      else if i.code == LD_H_IND then
        if x + i.k + 2 <= |p| then Exec(prog, pc + 1, Half(p, x + i.k), x, p) else 0
      else if i.code == LDX_B_MSH then
        if i.k < |p| then Exec(prog, pc + 1, a, HeaderBytes(p[i.k]), p) else 0
      else if i.code == AND_K then
        Exec(prog, pc + 1, BitAnd(a, i.k), x, p)
      else if i.code == JEQ_K then
        Exec(prog, pc + 1 + (if a == i.k then i.jt else i.jf), a, x, p)
      else if i.code == JSET_K then
        Exec(prog, pc + 1 + (if BitAnd(a, i.k) != 0 then i.jt else i.jf), a, x, p)
      else if i.code == RET_K then i.k
      else 0
  }

  predicate Accepts(prog: seq<Instr>, p: Packet) {
    Exec(prog, 0, 0, 0, p) != 0
  }

  /** packetFilter of dhcp_filter.c. */
  const DHCP_FILTER: seq<Instr> := [
    Instr(0x28, 0, 0, 0x0000000c),
    Instr(0x15, 0, 13, 0x00008100),
    Instr(0x28, 0, 0, 0x0000000e),
    Instr(0x54, 0, 0, 0x00000fff),
    Instr(0x15, 10, 0, 0x00000ffe),
    Instr(0x28, 0, 0, 0x00000010),
    Instr(0x15, 0, 8, 0x00000800),
    Instr(0x30, 0, 0, 0x0000001b),
    Instr(0x15, 0, 6, 0x00000011),
    Instr(0x28, 0, 0, 0x00000018),
    Instr(0x45, 4, 0, 0x00001fff),
    Instr(0xb1, 0, 0, 0x00000012),
    Instr(0x48, 0, 0, 0x00000014),
    Instr(0x15, 0, 1, 0x00000044),
    Instr(0x6, 0, 0, 0x00040000),
    Instr(0x6, 0, 0, 0x00000000)
  ]

  /** packetFilter of eoe_filter.c. */
  const EOE_FILTER: seq<Instr> := [
    Instr(0x30, 0, 0, 0x00000012),
    Instr(0x54, 0, 0, 0x000000f0),
    Instr(0x15, 0, 3, 0x00000010),
    Instr(0x28, 0, 0, 0x00000026),
    Instr(0x15, 1, 0, 0x000008ab),
    Instr(0x06, 0, 0, 0x0000ffff),
    Instr(0x06, 0, 0, 0x00000000)
  ]

  /** An 802.1Q tag whose VLAN identifier is not 4094. */
  predicate TaggedForDhcp(p: Packet)
    requires 16 <= |p|
  {
    p[12] == 0x81 && p[13] == 0x00 && !(p[14] % 16 == 15 && p[15] == 0xfe)
  }

  /** An IPv4 header after the tag, carrying UDP, not a later fragment. */
  predicate FirstUdpFragment(p: Packet)
    requires 28 <= |p|
  {
    p[16] == 0x08 && p[17] == 0x00 && p[27] == 17 && p[24] % 32 == 0 && p[25] == 0
  }

  /** A tagged DHCP reply: UDP destination port 68 behind an IPv4 header of the stated length. */
  predicate IsDhcpReply(p: Packet) {
    && 28 <= |p| && TaggedForDhcp(p) && FirstUdpFragment(p)
    && var udp := 18 + 4 * (p[18] % 16);
       udp + 4 <= |p| && p[udp + 2] == 0 && p[udp + 3] == 68
  }

  lemma LowNibble(b: Byte)
    ensures BitAnd(b, 0xf) == b % 16
  {
    assert Ones(4) == 0xf && Shl(1, 4) == 16;
    AndOnes(b, 4);
    ShrIsQuotient(b, 4);
  }

  lemma HighNibble(b: Byte)
    ensures BitAnd(b, 0xf0) == 16 * (b / 16)
  {
    assert Ones(4) == 0xf && Shl(1, 4) == 16 && Shl(0xf, 4) == 0xf0;
    AndShl(b, 0xf, 4);
    AndOnes(Shr(b, 4), 4);
    LowOfSmall(b / 16, 4);
    ShrIsQuotient(b, 4);
    ShlIsProduct(b / 16, 4);
  }

  lemma Low12(h: nat)
    ensures BitAnd(h, 0xfff) == h % 4096
  {
    assert Ones(12) == 0xfff && Shl(1, 12) == 4096;
    AndOnes(h, 12);
    ShrIsQuotient(h, 12);
  }

  lemma Low13(h: nat)
    ensures BitAnd(h, 0x1fff) == h % 8192
  {
    assert Ones(13) == 0x1fff && Shl(1, 13) == 8192;
    AndOnes(h, 13);
    ShrIsQuotient(h, 13);
  }

  lemma Rejects(a: nat, x: nat, p: Packet)
    ensures Exec(DHCP_FILTER, 15, a, x, p) == 0
  {
  }

  /** From the indirect load on: the destination port decides. */
  lemma PortTest(a: nat, x: nat, p: Packet)
    ensures Exec(DHCP_FILTER, 12, a, x, p) != 0 <==> x + 22 <= |p| && p[x + 20] == 0 && p[x + 21] == 68
  {
    if x + 22 <= |p| {
      var h := Half(p, x + 20);
      assert Exec(DHCP_FILTER, 12, a, x, p) == Exec(DHCP_FILTER, 13, h, x, p);
      assert h == 0x44 <==> p[x + 20] == 0 && p[x + 21] == 68;
      assert Exec(DHCP_FILTER, 14, h, x, p) == 0x40000;
      Rejects(h, x, p);
    }
  }

  /** From the load of the fragment offset on. */
  lemma FragmentTest(a: nat, x: nat, p: Packet)
    requires 28 <= |p|
    ensures Exec(DHCP_FILTER, 9, a, x, p) != 0 <==>
      && p[24] % 32 == 0 && p[25] == 0
      && Exec(DHCP_FILTER, 12, Half(p, 24), HeaderBytes(p[18]), p) != 0
  {
    var frag := Half(p, 24);
    assert Exec(DHCP_FILTER, 9, a, x, p) == Exec(DHCP_FILTER, 10, frag, x, p);
    Low13(frag);
    FragmentBytes(p[24], p[25]);
    Rejects(frag, x, p);
    if BitAnd(frag, 0x1fff) == 0 {
      assert Exec(DHCP_FILTER, 10, frag, x, p) == Exec(DHCP_FILTER, 11, frag, x, p);
    }
  }

  lemma FragmentBytes(hi: int, lo: int)
    requires 0 <= hi < 256 && 0 <= lo < 256
    ensures (256 * hi + lo) % 8192 == 0 <==> hi % 32 == 0 && lo == 0
  {
    var q, r := hi / 32, hi % 32;
    assert 256 * hi + lo == 8192 * q + (256 * r + lo);
    assert 0 <= 256 * r + lo < 8192;
  }

  /** From the protocol load on. */
  lemma UdpTest(a: nat, x: nat, p: Packet)
    ensures Exec(DHCP_FILTER, 7, a, x, p) != 0 <==>
      && 28 <= |p| && p[27] == 17 && p[24] % 32 == 0 && p[25] == 0
      && var x' := 4 * (p[18] % 16); x' + 22 <= |p| && p[x' + 20] == 0 && p[x' + 21] == 68
  {
    if 28 <= |p| {
      var proto := p[27];
      assert Exec(DHCP_FILTER, 7, a, x, p) == Exec(DHCP_FILTER, 8, proto, x, p);
      Rejects(proto, x, p);
      if proto == 17 {
        assert Exec(DHCP_FILTER, 8, proto, x, p) == Exec(DHCP_FILTER, 9, proto, x, p);
        FragmentTest(proto, x, p);
        LowNibble(p[18]);
        PortTest(Half(p, 24), HeaderBytes(p[18]), p);
      }
    }
  }

  /** From the ethertype load on. */
  lemma TypeTest(a: nat, x: nat, p: Packet)
    requires 16 <= |p|
    ensures Exec(DHCP_FILTER, 5, a, x, p) != 0 <==>
      18 <= |p| && p[16] == 0x08 && p[17] == 0x00 && Exec(DHCP_FILTER, 7, Half(p, 16), x, p) != 0
  {
    if 18 <= |p| {
      var t := Half(p, 16);
      assert Exec(DHCP_FILTER, 5, a, x, p) == Exec(DHCP_FILTER, 6, t, x, p);
      assert t == 0x800 <==> p[16] == 0x08 && p[17] == 0x00;
      Rejects(t, x, p);
    }
  }

  lemma VidBytes(hi: int, lo: int)
    requires 0 <= hi < 256 && 0 <= lo < 256
    ensures (256 * hi + lo) % 4096 == 256 * (hi % 16) + lo
  {
    var q := hi / 16;
    assert 256 * hi + lo == 4096 * q + (256 * (hi % 16) + lo);
  }

  /** From the load of the tag control information on. */
  lemma VlanTest(a: nat, x: nat, p: Packet)
    requires 16 <= |p|
    ensures Exec(DHCP_FILTER, 2, a, x, p) != 0 <==>
      !(p[14] % 16 == 15 && p[15] == 0xfe) && Exec(DHCP_FILTER, 5, Half(p, 14) % 4096, x, p) != 0
  {
    var tci := Half(p, 14);
    var vid := BitAnd(tci, 0xfff);
    assert Exec(DHCP_FILTER, 2, a, x, p) == Exec(DHCP_FILTER, 3, tci, x, p) == Exec(DHCP_FILTER, 4, vid, x, p);
    Low12(tci);
    VidBytes(p[14], p[15]);
    assert vid == 0xffe <==> p[14] % 16 == 15 && p[15] == 0xfe;
    Rejects(vid, x, p);
  }

  /** The DHCP table accepts a byte string exactly when it is a tagged DHCP reply. */
  lemma DhcpFilterExact(p: Packet)
    ensures Accepts(DHCP_FILTER, p) <==> IsDhcpReply(p)
  {
    if 14 <= |p| {
      var tag := Half(p, 12);
      assert Exec(DHCP_FILTER, 0, 0, 0, p) == Exec(DHCP_FILTER, 1, tag, 0, p);
      assert tag == 0x8100 <==> p[12] == 0x81 && p[13] == 0x00;
      Rejects(tag, 0, p);
      if 16 <= |p| {
        VlanTest(tag, 0, p);
        TypeTest(Half(p, 14) % 4096, 0, p);
        if 18 <= |p| {
          UdpTest(Half(p, 16), 0, p);
        }
      }
    }
  }

  /** An EoE frame: operation code 1, and not the excluded protocol type. */
  predicate IsEoeFrame(p: Packet) {
    40 <= |p| && p[18] / 16 == 1 && !(p[38] == 0x08 && p[39] == 0xab)
  }

  lemma EoeFilterExact(p: Packet)
    ensures Accepts(EOE_FILTER, p) <==> IsEoeFrame(p)
  {
    if 19 <= |p| {
      var op := p[18];
      var code := BitAnd(op, 0xf0);
      assert Exec(EOE_FILTER, 0, 0, 0, p) == Exec(EOE_FILTER, 1, op, 0, p) == Exec(EOE_FILTER, 2, code, 0, p);
      HighNibble(op);
      assert code == 0x10 <==> p[18] / 16 == 1;
      assert Exec(EOE_FILTER, 6, code, 0, p) == 0;
      if code == 0x10 && 40 <= |p| {
        var t := Half(p, 38);
        assert Exec(EOE_FILTER, 2, code, 0, p) == Exec(EOE_FILTER, 3, code, 0, p) == Exec(EOE_FILTER, 4, t, 0, p);
        assert t == 0x8ab <==> p[38] == 0x08 && p[39] == 0xab;
        assert Exec(EOE_FILTER, 6, t, 0, p) == 0 && Exec(EOE_FILTER, 5, t, 0, p) == 0xffff;
      }
    }
  }
}
