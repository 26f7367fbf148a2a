/** The classic-BPF capture filter built by exporter/internal/ntpframe/frame.go: an interpreter, the program,
    and what it accepts. */
module Bpf {
  import opened Bytes
  import opened Frame

  datatype Insn = Insn(op: nat, jt: nat, jf: nat, k: nat)

  /** a & b */
  function And(a: nat, b: nat): nat {
    if a == 0 || b == 0 then 0 else 2 * And(a / 2, b / 2) + (if a % 2 == 1 && b % 2 == 1 then 1 else 0)
  }

  /** Runs a program from instruction pc; a load outside the packet, an unknown instruction or the end of the
      program rejects (0).  Jumps only go forward, so every program halts. */
  function Run(prog: seq<Insn>, p: Bytes, pc: nat, a: nat, x: nat): nat
    decreases |prog| - pc
  {
    if pc >= |prog| then 0
    else
      var i := prog[pc];
      if i.op == 0x28 then if i.k + 2 > |p| then 0 else Run(prog, p, pc + 1, U16(p, i.k), x)
      else if i.op == 0x30 then if i.k >= |p| then 0 else Run(prog, p, pc + 1, p[i.k], x)
      else if i.op == 0x48 then if x + i.k + 2 > |p| then 0 else Run(prog, p, pc + 1, U16(p, x + i.k), x)
      else if i.op == 0xB1 then if i.k >= |p| then 0 else Run(prog, p, pc + 1, a, 4 * (p[i.k] % 16))
      else if i.op == 0x15 then Run(prog, p, pc + 1 + (if a == i.k then i.jt else i.jf), a, x)
      else if i.op == 0x45 then Run(prog, p, pc + 1 + (if And(a, i.k) != 0 then i.jt else i.jf), a, x)
      else if i.op == 0x06 then i.k
      else 0
  }

  const PROGRAM: seq<Insn> := [
    Insn(0x28, 0, 0, 12),               // 0: ethertype
    Insn(0x15, 1, 0, ETHERTYPE_IPV4),   // 1
    Insn(0x15, 9, 16, ETHERTYPE_IPV6),  // 2
    Insn(0x30, 0, 0, 23),               // 3: protocol
    Insn(0x15, 0, 14, PROTO_UDP),       // 4
    Insn(0x28, 0, 0, 20),               // 5: flags and fragment offset
    Insn(0x45, 12, 0, 0x1FFF),          // 6
    Insn(0xB1, 0, 0, ETH_HDR_LEN),      // 7: header length
    Insn(0x48, 0, 0, 14),               // 8: source port
    Insn(0x15, 8, 0, NTP_PORT),         // 9
    Insn(0x48, 0, 0, 16),               // 10: destination port
    Insn(0x15, 6, 7, NTP_PORT),         // 11
    Insn(0x30, 0, 0, 20),               // 12: next header
    Insn(0x15, 0, 5, PROTO_UDP),        // 13
    Insn(0x28, 0, 0, 54),               // 14: source port
    Insn(0x15, 2, 0, NTP_PORT),         // 15
    Insn(0x28, 0, 0, 56),               // 16: destination port
    Insn(0x15, 0, 1, NTP_PORT),         // 17
    Insn(0x06, 0, 0, 0xFFFF),           // 18: accept
    Insn(0x06, 0, 0, 0)]                // 19: reject

  function Filter(p: Bytes): nat { Run(PROGRAM, p, 0, 0, 0) }

  // --- What should be accepted

  /** Two bytes at i that lie inside the frame and hold the NTP port. */
  predicate PortAt(p: Bytes, i: nat) { i + 2 <= |p| && U16(p, i) == 123 }

  predicate IsEtherType(p: Bytes, t: nat) { |p| >= ETH_HDR_LEN && U16(p, 12) == t }

  /** The low 13 bits of the flags word. */
  function FragmentOffset(p: Bytes): nat
    requires |p| >= 22
  {
    Low(U16(p, 20), 13)
  }

  /** An untagged first-fragment IPv4 UDP frame with a readable port 123. */
  predicate WantedV4(p: Bytes) {
    && IsEtherType(p, 0x0800) && |p| > 23 && p[23] == 17 && FragmentOffset(p) == 0
    && var l4 := 14 + 4 * (p[14] % 16); PortAt(p, l4) || PortAt(p, l4 + 2)
  }

  /** An untagged IPv6 UDP frame with a readable port 123. */
  predicate WantedV6(p: Bytes) {
    && IsEtherType(p, 0x86DD) && |p| > 20 && p[20] == 17 && (PortAt(p, 54) || PortAt(p, 56))
  }

  lemma {:induction false} AndMask(a: nat, n: nat)
    ensures And(a, Pow2(n) - 1) == Low(a, n)
  {
    if n > 0 {
      var m := Pow2(n) - 1;
      assert m / 2 == Pow2(n - 1) - 1 && m % 2 == 1;
      AndMask(a / 2, n - 1);
      if a == 0 { LowOfZero(n); }
    }
  }

  lemma {:induction false} LowOfZero(n: nat)
    ensures Low(0, n) == 0
  {
    if n > 0 { LowOfZero(n - 1); }
  }

  /** What the accepting path returns. */
  function Verdict(accepted: bool): nat { if accepted then 0xFFFF else 0 }

  lemma PortsV6(p: Bytes, a: nat, x: nat)
    ensures Run(PROGRAM, p, 12, a, x)
         == Verdict(|p| > 20 && p[20] == PROTO_UDP && (PortAt(p, 54) || PortAt(p, 56)))
  {
    assert forall a', x' :: Run(PROGRAM, p, 18, a', x') == 0xFFFF && Run(PROGRAM, p, 19, a', x') == 0;
    assert forall a', x' :: Run(PROGRAM, p, 17, a', x') == Verdict(a' == NTP_PORT);
    assert forall a', x' :: Run(PROGRAM, p, 16, a', x') == Verdict(PortAt(p, 56));
    assert forall a', x' :: Run(PROGRAM, p, 15, a', x') == Verdict(a' == NTP_PORT || PortAt(p, 56));
    assert forall a', x' :: Run(PROGRAM, p, 14, a', x') == Verdict(PortAt(p, 54) || PortAt(p, 56));
    assert forall a', x' :: Run(PROGRAM, p, 13, a', x') == Verdict(a' == PROTO_UDP && (PortAt(p, 54) || PortAt(p, 56)));
  }

  lemma PortsV4(p: Bytes, a: nat, x: nat)
    ensures Run(PROGRAM, p, 7, a, x)
         == Verdict(|p| > 14 && var l4 := 14 + 4 * (p[14] % 16); PortAt(p, l4) || PortAt(p, l4 + 2))
  {
    assert forall a', x' :: Run(PROGRAM, p, 18, a', x') == 0xFFFF && Run(PROGRAM, p, 19, a', x') == 0;
    assert forall a', x' :: Run(PROGRAM, p, 11, a', x') == Verdict(a' == NTP_PORT);
    assert forall a', x': nat :: Run(PROGRAM, p, 10, a', x') == Verdict(PortAt(p, x' + 16));
    assert forall a', x': nat :: Run(PROGRAM, p, 9, a', x') == Verdict(a' == NTP_PORT || PortAt(p, x' + 16));
    assert forall a', x': nat :: Run(PROGRAM, p, 8, a', x') == Verdict(PortAt(p, x' + 14) || PortAt(p, x' + 16));
  }

  lemma HeaderV4(p: Bytes, a: nat, x: nat)
    ensures Run(PROGRAM, p, 3, a, x)
         == if && |p| > 23 && p[23] == PROTO_UDP && FragmentOffset(p) == 0
               && var l4 := 14 + 4 * (p[14] % 16); PortAt(p, l4) || PortAt(p, l4 + 2) then 0xFFFF else 0
  {
    if |p| > 23 {
      var flags := U16(p, 20);
      PortsV4(p, flags, x);
      assert Pow2(13) == 0x2000;
      AndMask(flags, 13);
      assert Run(PROGRAM, p, 19, flags, x) == 0;
      assert Run(PROGRAM, p, 6, flags, x) == if And(flags, 0x1FFF) != 0 then 0 else Run(PROGRAM, p, 7, flags, x);
      assert Run(PROGRAM, p, 5, p[23], x) == Run(PROGRAM, p, 6, flags, x);
      assert Run(PROGRAM, p, 19, p[23], x) == 0;
      assert Run(PROGRAM, p, 4, p[23], x) == if p[23] == PROTO_UDP then Run(PROGRAM, p, 5, p[23], x) else 0;
      assert Run(PROGRAM, p, 3, a, x) == Run(PROGRAM, p, 4, p[23], x);
    }
  }

  /** The filter halts on every byte string and accepts, with the full snapshot length, exactly the untagged
      first-fragment IPv4 and the IPv6 UDP frames with a readable port 123. */
  lemma FilterAccepts(p: Bytes)
    ensures Filter(p) == if WantedV4(p) || WantedV6(p) then 0xFFFF else 0
  {
    if |p| >= ETH_HDR_LEN {
      var t := U16(p, 12);
      HeaderV4(p, t, 0);
      PortsV6(p, t, 0);
      assert Run(PROGRAM, p, 19, t, 0) == 0;
      assert Run(PROGRAM, p, 2, t, 0) == if t == ETHERTYPE_IPV6 then Run(PROGRAM, p, 12, t, 0) else 0;
      assert Run(PROGRAM, p, 1, t, 0)
          == if t == ETHERTYPE_IPV4 then Run(PROGRAM, p, 3, t, 0) else Run(PROGRAM, p, 2, t, 0);
      assert Filter(p) == Run(PROGRAM, p, 1, t, 0);
    }
  }

  // --- The filter against the parser

  /** The UDP header lies inside the frame. */
  predicate FullUdpHeader(p: Bytes) {
    if IsEtherType(p, ETHERTYPE_IPV4) then |p| > 14 && |p| >= 14 + 4 * (p[14] % 16) + 8 else |p| >= 62
  }

  /** On untagged frames the filter and the parser agree up to exactly two things: a header length below 5 or a
      cut-off UDP header passes only the filter, a later fragment only the parser. */
  lemma FilterAgreesWithParser(p: Bytes)
    requires !IsEtherType(p, ETHERTYPE_VLAN)
    ensures (Parse(p).Some? && (IsEtherType(p, ETHERTYPE_IPV4) ==> |p| >= 22 && FragmentOffset(p) == 0))
        <==> (Filter(p) != 0 && FullUdpHeader(p) && (IsEtherType(p, ETHERTYPE_IPV4) ==> p[14] % 16 >= 5))
  {
    FilterAccepts(p);
    if IsEtherType(p, ETHERTYPE_IPV4) {
      AgreeV4(p);
    } else if IsEtherType(p, ETHERTYPE_IPV6) {
      AgreeV6(p);
    }
  }

  lemma AgreeV4(p: Bytes)
    requires IsEtherType(p, ETHERTYPE_IPV4)
    ensures (Parse(p).Some? && |p| >= 22 && FragmentOffset(p) == 0)
        <==> (WantedV4(p) && p[14] % 16 >= 5 && FullUdpHeader(p))
  {
    assert Parse(p) == ParseIp(p, 14, ETHERTYPE_IPV4);
  }

  lemma AgreeV6(p: Bytes)
    requires IsEtherType(p, ETHERTYPE_IPV6)
    ensures Parse(p).Some? <==> WantedV6(p) && FullUdpHeader(p)
  {
    assert Parse(p) == ParseIp(p, 14, ETHERTYPE_IPV6);
  }

  /** Tagged frames never pass the filter, although the parser understands them. */
  lemma TaggedFramesAreFiltered(k: Packet)
    requires WellFormed(k) && k.vlan.Some? && (k.sport == NTP_PORT || k.dport == NTP_PORT)
    ensures Filter(Encode(k)) == 0 && Parse(Encode(k)).Some?
  {
    ParseRecovers(k);
    var p := Encode(k);
    FilterAccepts(p);
    assert U16(p, 12) == U16(EncodeLink(k), 12) == U16(Bytes16(ETHERTYPE_VLAN), 0);
  }
}
