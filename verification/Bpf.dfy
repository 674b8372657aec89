/** The classic BPF program attached to the receive socket, with an interpreter for the
    instructions it uses.
 */
module Bpf {
  import opened Bits

  datatype Instr = Instr(code: nat, jt: nat, jf: nat, k: nat)

  const LDH_ABS: nat := 0x28
  const LDB_ABS: nat := 0x30
  const LDH_IND: nat := 0x48
  const LDX_MSH: nat := 0xb1
  const JEQ: nat := 0x15
  const JSET: nat := 0x45
  const RET: nat := 0x06

  /** `bpf_code`. */
  const PROGRAM: seq<Instr> := [
    Instr(0x28, 0, 0, 0x0000000c),
    Instr(0x15, 0, 7, 0x00000800),
    Instr(0x30, 0, 0, 0x00000017),
    Instr(0x15, 0, 11, 0x00000011),
    Instr(0x28, 0, 0, 0x00000014),
    Instr(0x45, 9, 0, 0x00001fff),
    Instr(0xb1, 0, 0, 0x0000000e),
    Instr(0x48, 0, 0, 0x00000010),
    Instr(0x15, 5, 6, 0x0000e3fa),
    Instr(0x15, 0, 5, 0x000086dd),
    Instr(0x30, 0, 0, 0x00000014),
    Instr(0x15, 0, 3, 0x00000011),
    Instr(0x28, 0, 0, 0x00000038),
    Instr(0x15, 0, 1, 0x0000e3fa),
    Instr(0x6, 0, 0, 0x00040000),
    Instr(0x6, 0, 0, 0x00000000)]

  /** A big-endian halfword of the packet. */
  function Half(pkt: seq<byte>, i: nat): nat
    requires i + 2 <= |pkt|
  {
    pkt[i] as nat * 256 + pkt[i + 1]
  }

  /** Runs `prog` from `pc`: how many bytes of the packet to keep, 0 to drop it. A load
      outside the packet drops it. All jumps lead forward. */
  function Exec(prog: seq<Instr>, pc: nat, a: nat, x: nat, pkt: seq<byte>): nat
    decreases |prog| - pc
  {
    if pc >= |prog| then 0
    else
      var i := prog[pc];
      if i.code == LDH_ABS then if i.k + 2 <= |pkt| then Exec(prog, pc + 1, Half(pkt, i.k), x, pkt) else 0
      else if i.code == LDB_ABS then if i.k < |pkt| then Exec(prog, pc + 1, pkt[i.k], x, pkt) else 0
      else if i.code == LDH_IND then if x + i.k + 2 <= |pkt| then Exec(prog, pc + 1, Half(pkt, x + i.k), x, pkt) else 0
      else if i.code == LDX_MSH then if i.k < |pkt| then Exec(prog, pc + 1, a, 4 * And(pkt[i.k], 0xf), pkt) else 0
      else if i.code == JEQ then Exec(prog, pc + 1 + (if a == i.k then i.jt else i.jf), a, x, pkt)
      else if i.code == JSET then Exec(prog, pc + 1 + (if And(a, i.k) != 0 then i.jt else i.jf), a, x, pkt)
      else if i.code == RET then i.k
      else 0
  }

  function Filter(pkt: seq<byte>): nat {
    Exec(PROGRAM, 0, 0, 0, pkt)
  }

  // ----- what the filter is for: "udp and dst port 58362"

  const PORT: nat := 58362
  const UDP: nat := 17
  const KEEP: nat := 0x40000

  predicate Ipv4UdpToPort(pkt: seq<byte>) {
    && |pkt| >= 24 && Half(pkt, 12) == 0x0800   // Ethernet type
    && pkt[23] == UDP                           // protocol
    && Half(pkt, 20) % 0x2000 == 0              // first or only fragment
    && var udp := 14 + 4 * (pkt[14] % 16);      // behind the header, of any length
       |pkt| >= udp + 4 && Half(pkt, udp + 2) == PORT
  }

  predicate Ipv6UdpToPort(pkt: seq<byte>) {
    && |pkt| >= 58 && Half(pkt, 12) == 0x86dd
    && pkt[20] == UDP                           // next header
    && Half(pkt, 56) == PORT
  }

  // ----- the program, from its end to its start

  lemma From13(a: nat, x: nat, pkt: seq<byte>)
    ensures Exec(PROGRAM, 13, a, x, pkt) == if a == PORT then KEEP else 0
    ensures Exec(PROGRAM, 8, a, x, pkt) == if a == PORT then KEEP else 0
    ensures Exec(PROGRAM, 15, a, x, pkt) == 0
  {
    assert Exec(PROGRAM, 14, a, x, pkt) == KEEP;
    assert Exec(PROGRAM, 15, a, x, pkt) == 0;
  }

  lemma From9(a: nat, x: nat, pkt: seq<byte>)
    ensures Exec(PROGRAM, 9, a, x, pkt) ==
            if a == 0x86dd && |pkt| >= 58 && pkt[20] == UDP && Half(pkt, 56) == PORT then KEEP else 0
  {
    From13(a, x, pkt);
    if a == 0x86dd && |pkt| > 20 {
      From13(pkt[20], x, pkt);
      if |pkt| >= 58 { From13(Half(pkt, 56), x, pkt); }
      assert Exec(PROGRAM, 12, pkt[20], x, pkt) == if |pkt| >= 58 && Half(pkt, 56) == PORT then KEEP else 0;
      assert Exec(PROGRAM, 11, pkt[20], x, pkt) == if pkt[20] == UDP then Exec(PROGRAM, 12, pkt[20], x, pkt) else 0;
    }
    assert Exec(PROGRAM, 10, a, x, pkt) == if |pkt| > 20 then Exec(PROGRAM, 11, pkt[20], x, pkt) else 0;
  }

  lemma From6(a: nat, x: nat, pkt: seq<byte>)
    requires |pkt| > 14
    ensures Exec(PROGRAM, 6, a, x, pkt) ==
            var udp := 14 + 4 * (pkt[14] % 16);
            if |pkt| >= udp + 4 && Half(pkt, udp + 2) == PORT then KEEP else 0
  {
    Pow2Small();
    assert Pow2(4) == 16;
    AndMaskIsMod(pkt[14], 4);
    var x' := 4 * (pkt[14] % 16);
    hide And;
    if x' + 18 <= |pkt| { From13(Half(pkt, x' + 16), x', pkt); }
    assert Exec(PROGRAM, 7, a, x', pkt) ==
           if x' + 18 <= |pkt| then Exec(PROGRAM, 8, Half(pkt, x' + 16), x', pkt) else 0;
  }

  lemma From2(a: nat, x: nat, pkt: seq<byte>)
    ensures Exec(PROGRAM, 2, a, x, pkt) ==
            if |pkt| >= 24 && pkt[23] == UDP && Half(pkt, 20) % 0x2000 == 0 then Exec(PROGRAM, 6, Half(pkt, 20), x, pkt) else 0
  {
    if |pkt| >= 24 {
      var p, f := pkt[23], Half(pkt, 20);
      Pow2Small();
      AndMaskIsMod(f, 13);
      From13(f, x, pkt);
      From13(p, x, pkt);
      hide And;
      assert Exec(PROGRAM, 5, f, x, pkt) == if f % 0x2000 == 0 then Exec(PROGRAM, 6, f, x, pkt) else 0;
      assert Exec(PROGRAM, 4, p, x, pkt) == Exec(PROGRAM, 5, f, x, pkt);
      assert Exec(PROGRAM, 3, p, x, pkt) == if p == UDP then Exec(PROGRAM, 4, p, x, pkt) else 0;
    }
  }

  /** For every packet of every length, the program keeps exactly the UDP packets to the
      port: over IPv4, first or only fragment and any header length, or over IPv6. */
  lemma FilterIsUdpToPort(pkt: seq<byte>)
    ensures Filter(pkt) == if Ipv4UdpToPort(pkt) || Ipv6UdpToPort(pkt) then KEEP else 0
  {
    if |pkt| >= 14 {
      var t := Half(pkt, 12);
      From9(t, 0, pkt);
      From2(t, 0, pkt);
      if |pkt| >= 24 { From6(Half(pkt, 20), 0, pkt); }
      assert Exec(PROGRAM, 1, t, 0, pkt) ==
             if t == 0x0800 then Exec(PROGRAM, 2, t, 0, pkt) else Exec(PROGRAM, 9, t, 0, pkt);
    }
  }
}
