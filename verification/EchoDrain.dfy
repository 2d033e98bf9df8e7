/** Progress of the whole path: from any reachable state, once the environment stops stalling and whatever
    the order of calls, every ICMP packet received is answered and nothing stays behind, provided all of
    them get through. */
module EchoDrain {
  import opened Basics
  import opened Words
  import opened IcmpSpec
  import opened IcmpUnits
  import opened EchoReply
  import opened RouteSpec
  import opened Routers
  import opened EchoServer
  import ArpSpec
  import ArpProc
  import TxMerge

  // ---------- no unit jams on packets that fit ----------

  lemma {:induction false} ShortStays(u: Unit, s: seq<Word>, m: nat, n: nat)
    requires m <= n <= |s| && |Stream(u, s, m)| < m
    ensures |Stream(u, s, n)| < n
    decreases n
  {
    if m < n { ShortStays(u, s, m, n - 1); }
  }

  lemma PassesUnblocked(u: Unit, s: seq<Word>, k: nat)
    requires Passes(u, s) && k < |s|
    ensures !Blocked(u, s, k)
  {
    if |Stream(u, s, k + 1)| < k + 1 { ShortStays(u, s, k + 1, |s|); }
  }

  /** Of an input that passes as a whole, only a word whose successor has not arrived can wait. */
  lemma WaitsForNext(u: Unit, s: seq<Word>, t: seq<Word>, k: nat)
    requires s <= t && Passes(u, t) && k < |s| && Blocked(u, s, k)
    ensures k + 1 == |s|
  {
    PassesUnblocked(u, t, k);
    IndexPrefix(s, t, k);
  }

  lemma SwapFlows(u: SwapUnit, t: seq<Word>)
    requires u.Valid() && u.consumed <= t && Passes(u.kind, t)
    ensures !u.Jammed()
    ensures u.consumed == t && !u.Busy() ==> !u.stage2En && !u.stage1En && !u.stage0En
  {
    u.MovesIsLeaves();
    hide Passes, Blocked, Stream, Middle, Index;
    var k := u.Passed();
    if u.stage1En {
      if Blocked(u.kind, u.consumed, k) { WaitsForNext(u.kind, u.consumed, t, k); }
      if u.consumed == t { PassesUnblocked(u.kind, t, k); }
    }
  }

  lemma ChksumFlows(u: ChksumUnit, t: seq<Word>)
    requires u.Valid() && u.consumed <= t && Passes(Chksum, t)
    ensures !u.Jammed()
    ensures u.consumed == t && !u.Busy() ==> !u.stage3En && !u.stage2En && !u.stage1En && !u.stage0En
  {
    u.MovesIsLeaves();
    hide Passes, Stream, Register;
    var k := u.Passed();
    if u.stage2En {
      if Blocked(Chksum, u.consumed, k) { WaitsForNext(Chksum, u.consumed, t, k); }
      if u.consumed == t { PassesUnblocked(Chksum, t, k); }
    }
  }

  // ---------- work left to do ----------

  datatype Component = AtEtype | AtProto | AtMac | AtIp | AtParam | AtSum | AtArp | AtMerge

  /** A call of the component, with nothing in the way, would move a word. */
  predicate EtypeActive(s: Server) reads s`wireQ, s.etype { s.wireQ != [] || s.etype.Busy() }
  predicate ProtoActive(s: Server) reads s`protoQ, s.proto { s.protoQ != [] || s.proto.Busy() }
  predicate MacActive(s: Server) reads s`macQ, s.mac { s.macQ != [] || s.mac.Busy() }
  predicate IpActive(s: Server) reads s`ipQ, s.ip { s.ipQ != [] || s.ip.Busy() }
  predicate ParamActive(s: Server) reads s`parQ, s.par { s.parQ != [] || s.par.Busy() }
  predicate SumActive(s: Server) reads s`sumQ, s.sum { s.sumQ != [] || s.sum.Busy() }
  predicate ArpActive(s: Server) reads s`arpQ, s.arp { s.arpQ != [] || s.arp.Busy() }

  predicate MergeActive(s: Server)
    reads s`mergeArpQ, s`mergeIpv4Q, s.merge
  {
    || s.merge.Busy()
    || (s.mergeArpQ != [] && !s.merge.stage0Arp.en)
    || (s.mergeIpv4Q != [] && !s.merge.stage0Ipv4.en)
  }

  predicate Active(s: Server, c: Component)
    reads s, s.etype, s.proto, s.mac, s.ip, s.par, s.sum, s.arp, s.merge
  {
    match c
    case AtEtype => EtypeActive(s)
    case AtProto => ProtoActive(s)
    case AtMac => MacActive(s)
    case AtIp => IpActive(s)
    case AtParam => ParamActive(s)
    case AtSum => SumActive(s)
    case AtArp => ArpActive(s)
    case AtMerge => MergeActive(s)
  }

  ghost predicate Resting(s: Server)
    reads s, s.etype, s.proto, s.mac, s.ip, s.par, s.sum, s.arp, s.merge
  {
    forall c: Component :: !Active(s, c)
  }

  /** How far the words a component holds or has waiting are from its output. */
  ghost function EtypeWork(s: Server): nat reads s`wireQ, s.etype { 6 * |s.wireQ| + s.etype.Distance() }
  ghost function ProtoWork(s: Server): nat reads s`protoQ, s.proto { 7 * |s.protoQ| + s.proto.Distance() }
  ghost function MacWork(s: Server): nat reads s`macQ, s.mac { 4 * |s.macQ| + s.mac.Distance() }
  ghost function IpWork(s: Server): nat reads s`ipQ, s.ip { 4 * |s.ipQ| + s.ip.Distance() }
  ghost function ParamWork(s: Server): nat reads s`parQ, s.par { 3 * |s.parQ| + s.par.Distance() }
  ghost function SumWork(s: Server): nat reads s`sumQ, s.sum { 5 * |s.sumQ| + s.sum.Distance() }
  ghost function ArpWork(s: Server): int reads s`arpQ, s.arp { 19 * |s.arpQ| + s.arp.Distance() }

  ghost function MergeWork(s: Server): nat
    reads s`mergeArpQ, s`mergeIpv4Q, s.merge
  {
    3 * |s.mergeArpQ| + 3 * |s.mergeIpv4Q| + s.merge.Distance()
  }

  /** The work of all components, weighted so that handing a word to the next component always costs less
      than it saves. */
  ghost function Potential(s: Server): int
    reads s, s.etype, s.proto, s.mac, s.ip, s.par, s.sum, s.arp, s.merge
  {
    7280 * EtypeWork(s) + 1029 * ProtoWork(s) + 257 * MacWork(s) + 64 * IpWork(s)
    + 21 * ParamWork(s) + 4 * SumWork(s) + 4 * ArpWork(s) + MergeWork(s)
  }

  lemma PotentialBound(s: Server, ps: seq<Packet>)
    requires Ready(s, ps)
    ensures 0 <= Potential(s)
  {
    hide Server.Links, EtypeRouter.Valid, ProtoRouter.Valid, SwapUnit.Valid, ParamUnit.Valid, ChksumUnit.Valid,
         TxMerge.Merger.Valid;
    s.arp.IdxBound();
  }

  // ---------- one call with nothing in the way ----------

  method PushEtype(s: Server) returns (took: bool)
    requires s.Valid()
    modifies s`wireQ, s`protoQ, s`arpQ, s.etype
    ensures s.Valid() && (took ==> old(s.wireQ) != []) && s.wireQ == Pop(took, old(s.wireQ))
    ensures s.protoQ == old(s.protoQ) + old(s.etype.ipv4.slot.Held())
    ensures s.arpQ == old(s.arpQ) + old(s.etype.arp.slot.Held())
    ensures old(EtypeActive(s)) ==> s.etype.Distance() < old(s.etype.Distance()) + (if took then 6 else 0)
    ensures !old(EtypeActive(s)) ==> !s.etype.Busy() && s.etype.Distance() == old(s.etype.Distance())
  {
    hide EtypeRouter.Valid, ProtoRouter.Valid, SwapUnit.Valid, ParamUnit.Valid, ChksumUnit.Valid,
         ArpProc.ArpUnit.Valid, TxMerge.Merger.Valid, EtypeRouter.Distance, EtypeRouter.Busy, Slot.Held;
    var ipv4, arp := s.etype.ipv4.slot.Held(), s.etype.arp.slot.Held();
    took := s.etype.Forward(Offer(true, s.wireQ));
    s.wireQ, s.protoQ, s.arpQ := Pop(took, s.wireQ), s.protoQ + ipv4, s.arpQ + arp;
  }

  method PushProto(s: Server) returns (took: bool)
    requires s.Valid()
    modifies s`protoQ, s`macQ, s.proto
    ensures s.Valid() && (took ==> old(s.protoQ) != []) && s.protoQ == Pop(took, old(s.protoQ))
    ensures s.macQ == old(s.macQ) + old(s.proto.icmp.slot.Held())
    ensures old(ProtoActive(s)) ==> s.proto.Distance() < old(s.proto.Distance()) + (if took then 7 else 0)
    ensures !old(ProtoActive(s)) ==> !s.proto.Busy() && s.proto.Distance() == old(s.proto.Distance())
  {
    hide EtypeRouter.Valid, ProtoRouter.Valid, SwapUnit.Valid, ParamUnit.Valid, ChksumUnit.Valid,
         ArpProc.ArpUnit.Valid, TxMerge.Merger.Valid, ProtoRouter.Distance, ProtoRouter.Busy;
    var icmp := s.proto.icmp.slot.Held();
    took := s.proto.Forward(Offer(true, s.protoQ));
    s.protoQ, s.macQ := Pop(took, s.protoQ), s.macQ + icmp;
  }

  method PushMac(s: Server) returns (put: Option<Word>, took: bool)
    requires s.Valid() && !s.mac.Jammed()
    modifies s`macQ, s`ipQ, s.mac
    ensures s.Valid() && (took ==> old(s.macQ) != []) && s.macQ == Pop(took, old(s.macQ))
    ensures s.ipQ == old(s.ipQ) + Seq(put)
    ensures !old(s.mac.Busy()) ==> put.None?
    ensures old(MacActive(s)) ==> s.mac.Distance() < old(s.mac.Distance()) + (if took then 4 else 0)
    ensures !old(MacActive(s)) ==> !s.mac.Busy() && s.mac.Distance() == old(s.mac.Distance())
  {
    hide EtypeRouter.Valid, ProtoRouter.Valid, SwapUnit.Valid, ParamUnit.Valid, ChksumUnit.Valid,
         ArpProc.ArpUnit.Valid, TxMerge.Merger.Valid, SwapUnit.Distance, SwapUnit.Busy;
    put, took := s.mac.Forward(Offer(true, s.macQ));
    s.macQ, s.ipQ := Pop(took, s.macQ), s.ipQ + Seq(put);
  }

  method PushIp(s: Server) returns (put: Option<Word>, took: bool)
    requires s.Valid() && !s.ip.Jammed()
    modifies s`ipQ, s`parQ, s.ip
    ensures s.Valid() && (took ==> old(s.ipQ) != []) && s.ipQ == Pop(took, old(s.ipQ))
    ensures s.parQ == old(s.parQ) + Seq(put)
    ensures !old(s.ip.Busy()) ==> put.None?
    ensures old(IpActive(s)) ==> s.ip.Distance() < old(s.ip.Distance()) + (if took then 4 else 0)
    ensures !old(IpActive(s)) ==> !s.ip.Busy() && s.ip.Distance() == old(s.ip.Distance())
  {
    hide EtypeRouter.Valid, ProtoRouter.Valid, SwapUnit.Valid, ParamUnit.Valid, ChksumUnit.Valid,
         ArpProc.ArpUnit.Valid, TxMerge.Merger.Valid, SwapUnit.Distance, SwapUnit.Busy;
    put, took := s.ip.Forward(Offer(true, s.ipQ));
    s.ipQ, s.parQ := Pop(took, s.ipQ), s.parQ + Seq(put);
  }

  method PushParam(s: Server) returns (put: Option<Word>, took: bool)
    requires s.Valid()
    modifies s`parQ, s`sumQ, s.par
    ensures s.Valid() && (took ==> old(s.parQ) != []) && s.parQ == Pop(took, old(s.parQ))
    ensures s.sumQ == old(s.sumQ) + Seq(put)
    ensures !old(s.par.Busy()) ==> put.None?
    ensures old(ParamActive(s)) ==> s.par.Distance() < old(s.par.Distance()) + (if took then 3 else 0)
    ensures !old(ParamActive(s)) ==> !s.par.Busy() && s.par.Distance() == old(s.par.Distance())
  {
    hide EtypeRouter.Valid, ProtoRouter.Valid, SwapUnit.Valid, ParamUnit.Valid, ChksumUnit.Valid,
         ArpProc.ArpUnit.Valid, TxMerge.Merger.Valid, ParamUnit.Distance, ParamUnit.Busy;
    put, took := s.par.Forward(Offer(true, s.parQ));
    s.parQ, s.sumQ := Pop(took, s.parQ), s.sumQ + Seq(put);
  }

  method PushSum(s: Server) returns (put: Option<Word>, took: bool)
    requires s.Valid() && !s.sum.Jammed()
    modifies s`sumQ, s`mergeIpv4Q, s.sum
    ensures s.Valid() && (took ==> old(s.sumQ) != []) && s.sumQ == Pop(took, old(s.sumQ))
    ensures s.mergeIpv4Q == old(s.mergeIpv4Q) + Seq(put)
    ensures !old(s.sum.Busy()) ==> put.None?
    ensures old(SumActive(s)) ==> s.sum.Distance() < old(s.sum.Distance()) + (if took then 5 else 0)
    ensures !old(SumActive(s)) ==> !s.sum.Busy() && s.sum.Distance() == old(s.sum.Distance())
  {
    hide EtypeRouter.Valid, ProtoRouter.Valid, SwapUnit.Valid, ParamUnit.Valid, ChksumUnit.Valid,
         ArpProc.ArpUnit.Valid, TxMerge.Merger.Valid, ChksumUnit.Distance, ChksumUnit.Busy;
    put, took := s.sum.Forward(Offer(true, s.sumQ));
    s.sumQ, s.mergeIpv4Q := Pop(took, s.sumQ), s.mergeIpv4Q + Seq(put);
  }

  method PushArp(s: Server) returns (took: bool)
    requires s.Valid()
    modifies s`arpQ, s`mergeArpQ, s.arp
    ensures s.Valid() && (took ==> old(s.arpQ) != []) && s.arpQ == Pop(took, old(s.arpQ))
    ensures s.mergeArpQ == old(s.mergeArpQ) + old(s.arp.out.slot.Held())
    ensures old(ArpActive(s)) ==> s.arp.Distance() < old(s.arp.Distance()) + (if took then 19 else 0)
    ensures !old(ArpActive(s)) ==> !s.arp.Busy() && s.arp.Distance() == old(s.arp.Distance())
  {
    hide EtypeRouter.Valid, ProtoRouter.Valid, SwapUnit.Valid, ParamUnit.Valid, ChksumUnit.Valid,
         ArpProc.ArpUnit.Valid, TxMerge.Merger.Valid, ArpProc.ArpUnit.Distance, ArpProc.ArpUnit.Busy;
    var word := s.arp.out.slot.Held();
    took := s.arp.Forward(Offer(true, s.arpQ));
    s.arpQ, s.mergeArpQ := Pop(took, s.arpQ), s.mergeArpQ + word;
  }

  method PushMerge(s: Server) returns (tookArp: bool, tookIpv4: bool)
    requires s.Valid()
    modifies s`mergeArpQ, s`mergeIpv4Q, s.merge
    ensures s.Valid() && (tookArp ==> old(s.mergeArpQ) != []) && (tookIpv4 ==> old(s.mergeIpv4Q) != [])
    ensures s.mergeArpQ == Pop(tookArp, old(s.mergeArpQ)) && s.mergeIpv4Q == Pop(tookIpv4, old(s.mergeIpv4Q))
    ensures old(MergeActive(s)) ==>
              s.merge.Distance() < old(s.merge.Distance()) + (if tookArp then 3 else 0) + (if tookIpv4 then 3 else 0)
    ensures !old(MergeActive(s)) ==>
              !MergeActive(s) && s.merge.Distance() == old(s.merge.Distance()) && !tookArp && !tookIpv4
  {
    hide EtypeRouter.Valid, ProtoRouter.Valid, SwapUnit.Valid, ParamUnit.Valid, ChksumUnit.Valid,
         ArpProc.ArpUnit.Valid, TxMerge.Merger.Valid, TxMerge.Merger.Distance, TxMerge.Merger.Busy;
    tookArp, tookIpv4 := s.merge.Forward(Offer(true, s.mergeArpQ), Offer(true, s.mergeIpv4Q));
    s.mergeArpQ, s.mergeIpv4Q := Pop(tookArp, s.mergeArpQ), Pop(tookIpv4, s.mergeIpv4Q);
  }

  // ---------- nothing is left half-merged ----------

  /** A source whose words form whole packets does not own an unfinished packet. */
  lemma OwnerBoundary(out: seq<Word>, tags: seq<TxMerge.Source>, src: TxMerge.Source, ps: seq<Packet>)
    requires |tags| == |out| && TxMerge.Atomic(out, tags)
    requires AllFramed(ps) && TxMerge.Project(out, tags, src) == Flatten(ps)
    ensures TxMerge.Owner(out, tags) != TxMerge.Only(src)
  {
    hide TxMerge.Project, TxMerge.Owner, TxMerge.Atomic, Parse, Flatten;
    TxMerge.AtomicShuffle(out, tags, src);
    var f := Framing(ps, []);
    ParseUnique(f);
    assert f.Words() == Flatten(ps) + [] == Flatten(ps);
  }

  lemma MergeDone(m: TxMerge.Merger, arp: seq<Packet>, ipv4: seq<Packet>)
    requires m.Valid() && !m.Busy() && AllFramed(arp) && AllFramed(ipv4)
    requires m.consumedArp <= Flatten(arp) && (!m.stage0Arp.en ==> m.consumedArp == Flatten(arp))
    requires m.consumedIpv4 <= Flatten(ipv4) && (!m.stage0Ipv4.en ==> m.consumedIpv4 == Flatten(ipv4))
    ensures !m.stage0Arp.en && !m.stage0Ipv4.en
  {
    hide TxMerge.Project, TxMerge.Owner, TxMerge.Atomic, Flatten, OutPort.All;
    TxMerge.SelectCases(m.portSelect);
    if !m.stage0Arp.en {
      assert m.consumedArp == TxMerge.Project(m.out.All(), m.tags, TxMerge.Arp);
      OwnerBoundary(m.out.All(), m.tags, TxMerge.Arp, arp);
    }
    if !m.stage0Ipv4.en {
      assert m.consumedIpv4 == TxMerge.Project(m.out.All(), m.tags, TxMerge.Ipv4);
      OwnerBoundary(m.out.All(), m.tags, TxMerge.Ipv4, ipv4);
    }
  }

  /** The words arp_proc has sent when it is at rest are whole frames. */
  lemma ArpAtRest(u: ArpProc.ArpUnit)
    requires u.Valid() && !u.Busy()
    ensures u.out.sent == Flatten(ArpSpec.Frames(u.frames, u.accepted))
    ensures AllFramed(ArpSpec.Frames(u.frames, u.accepted))
  {
    u.Transmitted();
    assert u.out.All() == u.out.sent;
  }

  // ---------- runs without stalls ----------

  /** The whole packets `ps` have been received, and all ICMP packets among them get through. */
  ghost predicate Ready(s: Server, ps: seq<Packet>)
    reads s, s.etype, s.proto, s.mac, s.ip, s.par, s.sum, s.arp, s.merge
  {
    s.Valid() && AllFramed(ps) && s.input == Flatten(ps) && AllAnswerable(Filter(ps))
  }

  /** What each ICMP component has read is the beginning of a stream that passes it as a whole. */
  lemma Streams(s: Server, ps: seq<Packet>)
    requires Ready(s, ps)
    ensures var t := Flatten(Filter(ps));
            && s.mac.consumed <= t && Passes(SwapMac, t)
            && s.ip.consumed <= All(SwapMac, t) && Passes(SwapIp, All(SwapMac, t))
            && s.par.consumed <= All(SwapIp, All(SwapMac, t))
            && s.sum.consumed <= All(Param, All(SwapIp, All(SwapMac, t)))
            && Passes(Chksum, All(Param, All(SwapIp, All(SwapMac, t))))
  {
    hide EtypeRouter.Valid, ProtoRouter.Valid, SwapUnit.Valid, ParamUnit.Valid, ChksumUnit.Valid,
         ArpProc.ArpUnit.Valid, TxMerge.Merger.Valid, Passes, All, Flatten, Filter, AllAnswerable, Delivered;
    var icmp := Filter(ps);
    s.Histories();
    ChainSelects(ps);
    ChainSafe(ps, s.etype.consumed, s.proto.consumed, s.proto.icmp.sent);
    UnitOnAnswerable(SwapMac, icmp);
    AllMonotone(SwapMac, s.mac.consumed, Flatten(icmp));
    var p1 := MapAll(SwapMac, icmp);
    UnitOnAnswerable(SwapIp, p1);
    AllMonotone(SwapIp, s.ip.consumed, Flatten(p1));
    var p2 := MapAll(SwapIp, p1);
    UnitOnAnswerable(Param, p2);
    AllMonotone(Param, s.par.consumed, Flatten(p2));
    UnitOnAnswerable(Chksum, MapAll(Param, p2));
  }

  lemma NoJam(s: Server, ps: seq<Packet>)
    requires Ready(s, ps)
    ensures s.Valid() && s.mac != s.ip && !s.mac.Jammed() && !s.ip.Jammed() && !s.sum.Jammed()
  {
    hide SwapUnit.Valid, ChksumUnit.Valid, SwapUnit.Jammed, ChksumUnit.Jammed, Passes, All, Filter, Flatten;
    Streams(s, ps);
    var t := Flatten(Filter(ps));
    SwapFlows(s.mac, t);
    SwapFlows(s.ip, All(SwapMac, t));
    ChksumFlows(s.sum, All(Param, All(SwapIp, All(SwapMac, t))));
  }

  /** What one call of component `c` achieves: it uses up work if `c` has any, it never takes work away from
      another component, and if `c` has none nothing gets any. */
  twostate predicate Advanced(s: Server, c: Component)
    reads s, s.etype, s.proto, s.mac, s.ip, s.par, s.sum, s.arp, s.merge
  {
    && Potential(s) + (if old(Active(s, c)) then 1 else 0) <= old(Potential(s))
    && (forall d: Component :: d != c && old(Active(s, d)) ==> Active(s, d))
    && (forall d: Component :: !old(Active(s, c)) && Active(s, d) ==> old(Active(s, d)))
  }

  method CallEtype(s: Server)
    requires s.Valid()
    modifies s, s.etype
    ensures s.Valid() && Advanced(s, AtEtype)
  {
    hide Server.Valid, MacWork, IpWork, ParamWork, SumWork, MergeWork, MacActive, IpActive, ParamActive, SumActive,
         MergeActive, EtypeRouter.Distance, ProtoRouter.Distance, ProtoRouter.Busy, ArpProc.ArpUnit.Distance,
         ArpProc.ArpUnit.Busy;
    var _ := PushEtype(s);
  }

  method CallProto(s: Server)
    requires s.Valid()
    modifies s, s.proto
    ensures s.Valid() && Advanced(s, AtProto)
  {
    hide Server.Valid, EtypeWork, IpWork, ParamWork, SumWork, ArpWork, MergeWork, EtypeActive, IpActive,
         ParamActive, SumActive, ArpActive, MergeActive, ProtoRouter.Distance, SwapUnit.Distance, SwapUnit.Busy;
    var _ := PushProto(s);
  }

  method CallSwap(s: Server, c: Component)
    requires s.Valid() && (c.AtMac? || c.AtIp?) && s.mac != s.ip && !s.mac.Jammed() && !s.ip.Jammed()
    modifies s, s.mac, s.ip
    ensures s.Valid() && Advanced(s, c)
  {
    hide Server.Valid, EtypeWork, ProtoWork, SumWork, ArpWork, MergeWork,
         EtypeActive, ProtoActive, SumActive, ArpActive, MergeActive,
         SwapUnit.Distance, SwapUnit.Busy, ParamUnit.Distance, ParamUnit.Busy;
    if c.AtMac? { var _, _ := PushMac(s); } else { var _, _ := PushIp(s); }
  }

  method CallUpdate(s: Server, c: Component)
    requires s.Valid() && (c.AtParam? || c.AtSum?) && !s.sum.Jammed()
    modifies s, s.par, s.sum
    ensures s.Valid() && Advanced(s, c)
  {
    hide Server.Valid, EtypeWork, ProtoWork, MacWork, IpWork, ArpWork,
         EtypeActive, ProtoActive, MacActive, IpActive, ArpActive,
         ParamUnit.Distance, ParamUnit.Busy, ChksumUnit.Distance, ChksumUnit.Busy,
         TxMerge.Merger.Distance, TxMerge.Merger.Busy;
    if c.AtParam? { var _, _ := PushParam(s); } else { var _, _ := PushSum(s); }
  }

  method CallSender(s: Server, c: Component)
    requires s.Valid() && (c.AtArp? || c.AtMerge?)
    modifies s, s.arp, s.merge
    ensures s.Valid() && Advanced(s, c)
  {
    hide Server.Valid, EtypeWork, ProtoWork, MacWork, IpWork, ParamWork, SumWork,
         EtypeActive, ProtoActive, MacActive, IpActive, ParamActive, SumActive,
         ArpProc.ArpUnit.Distance, TxMerge.Merger.Distance, TxMerge.Merger.Busy;
    if c.AtArp? { var _ := PushArp(s); } else { var _, _ := PushMerge(s); }
  }

  method Call(s: Server, c: Component, ghost ps: seq<Packet>)
    requires Ready(s, ps)
    modifies s, s.etype, s.proto, s.mac, s.ip, s.par, s.sum, s.arp, s.merge
    ensures Ready(s, ps) && Advanced(s, c)
  {
    NoJam(s, ps);
    hide Server.Valid, Advanced;
    match c {
      case AtEtype => CallEtype(s);
      case AtProto => CallProto(s);
      case AtMac => CallSwap(s, c);
      case AtIp => CallSwap(s, c);
      case AtParam => CallUpdate(s, c);
      case AtSum => CallUpdate(s, c);
      case AtArp => CallSender(s, c);
      case AtMerge => CallSender(s, c);
    }
  }

  /** Calls in any order: if one of the components called had work at the beginning, work has been used up. */
  method Round(s: Server, order: seq<Component>, ghost ps: seq<Packet>)
    requires Ready(s, ps)
    modifies s, s.etype, s.proto, s.mac, s.ip, s.par, s.sum, s.arp, s.merge
    ensures Ready(s, ps) && Potential(s) <= old(Potential(s))
    ensures forall c :: c in order && old(Active(s, c)) ==> Potential(s) < old(Potential(s))
    ensures old(Resting(s)) ==> Resting(s)
  {
    hide Active, Potential, Ready;
    for i := 0 to |order|
      invariant Ready(s, ps) && Potential(s) <= old(Potential(s))
      invariant Potential(s) == old(Potential(s)) ==> forall c: Component :: old(Active(s, c)) ==> Active(s, c)
      invariant forall c :: c in order[..i] && old(Active(s, c)) ==> Potential(s) < old(Potential(s))
      invariant old(Resting(s)) ==> Resting(s)
    {
      assert order[..i + 1] == order[..i] + [order[i]];
      Call(s, order[i], ps);
    }
    assert order[..|order|] == order;
  }

  /** A round calls every component at least once. */
  predicate Full(order: seq<Component>) {
    && AtEtype in order && AtProto in order && AtMac in order && AtIp in order
    && AtParam in order && AtSum in order && AtArp in order && AtMerge in order
  }

  lemma AllCalled(order: seq<Component>)
    requires Full(order)
    ensures forall c: Component :: c in order
  {
    forall c: Component ensures c in order {
      match c
      case AtEtype => case AtProto => case AtMac => case AtIp =>
      case AtParam => case AtSum => case AtArp => case AtMerge =>
    }
  }

  // ---------- a path at rest ----------

  lemma NobodyActive(s: Server)
    requires Resting(s)
    ensures !EtypeActive(s) && !ProtoActive(s) && !MacActive(s) && !IpActive(s)
    ensures !ParamActive(s) && !SumActive(s) && !ArpActive(s) && !MergeActive(s)
  {
    assert !Active(s, AtEtype) && !Active(s, AtProto) && !Active(s, AtMac) && !Active(s, AtIp);
    assert !Active(s, AtParam) && !Active(s, AtSum) && !Active(s, AtArp) && !Active(s, AtMerge);
  }

  /** The routers have delivered all ICMP packets. */
  lemma RoutersAtRest(s: Server, ps: seq<Packet>)
    requires s.Valid() && AllFramed(ps) && s.input == Flatten(ps) && !EtypeActive(s) && !ProtoActive(s)
    ensures !s.etype.ipv4.slot.en && !s.etype.stage2.en && !s.etype.stage1.en && !s.etype.stage0.en
    ensures !s.proto.icmp.slot.en && !s.proto.stage3.en && !s.proto.stage2.en && !s.proto.stage1.en
    ensures !s.proto.stage0.en && s.mac.consumed + s.macQ == Flatten(Filter(ps))
  {
    hide EtypeRouter.Valid, ProtoRouter.Valid, SwapUnit.Valid, ParamUnit.Valid, ChksumUnit.Valid,
         ArpProc.ArpUnit.Valid, TxMerge.Merger.Valid, Flatten, Filter, Delivered, Boundary;
    ChainSelects(ps);
    s.etype.Drained();
    assert s.etype.consumed == Flatten(ps);
    FlattenBoundary(ps);
    DeliveredPackets(ByEtype, ps, ToIpv4);
    var ipv4 := Select(ByEtype, ps, ToIpv4);
    s.proto.Drained();
    assert s.proto.consumed == Flatten(ipv4);
    FlattenBoundary(ipv4);
    DeliveredPackets(ByProto, ipv4, ToIcmp);
  }

  /** The four ICMP components have answered all of them. */
  lemma IcmpAtRest(s: Server, ps: seq<Packet>)
    requires Ready(s, ps) && s.mac.consumed + s.macQ == Flatten(Filter(ps))
    requires !MacActive(s) && !IpActive(s) && !ParamActive(s) && !SumActive(s)
    ensures !s.mac.stage2En && !s.mac.stage1En && !s.mac.stage0En && !s.ip.stage2En && !s.ip.stage1En && !s.ip.stage0En
    ensures !s.par.stage1En && !s.par.stage0En
    ensures !s.sum.stage3En && !s.sum.stage2En && !s.sum.stage1En && !s.sum.stage0En
    ensures s.sum.emitted == Flatten(Replies(Filter(ps)))
  {
    hide EtypeRouter.Valid, ProtoRouter.Valid, SwapUnit.Valid, ParamUnit.Valid, ChksumUnit.Valid,
         ArpProc.ArpUnit.Valid, TxMerge.Merger.Valid, Passes, All, Flatten, Filter;
    Streams(s, ps);
    var t := Flatten(Filter(ps));
    SwapFlows(s.mac, t);
    SwapQuiet(s.mac);
    assert s.ip.consumed == All(SwapMac, t);
    SwapFlows(s.ip, All(SwapMac, t));
    SwapQuiet(s.ip);
    ParamQuiet(s.par);
    assert s.par.consumed == All(SwapIp, All(SwapMac, t));
    assert s.sum.consumed == All(Param, All(SwapIp, All(SwapMac, t)));
    ChksumFlows(s.sum, All(Param, All(SwapIp, All(SwapMac, t))));
    ChksumQuiet(s.sum);
    PipelineOnAnswerable(Filter(ps));
    assert s.sum.emitted == Pipeline(t);
  }

  /** Nothing is left anywhere, and everything has been answered. */
  lemma AtRest(s: Server, ps: seq<Packet>)
    requires Ready(s, ps) && Resting(s)
    ensures s.Quiet() && s.merge.out.All() == s.merge.out.sent && |s.merge.tags| == |s.merge.out.sent|
    ensures TxMerge.Project(s.merge.out.sent, s.merge.tags, TxMerge.Ipv4) == Flatten(Replies(Filter(ps)))
    ensures !s.merge.stage0Arp.en && s.mergeArpQ == []
  {
    hide EtypeRouter.Valid, ProtoRouter.Valid, SwapUnit.Valid, ParamUnit.Valid, ChksumUnit.Valid,
         ArpProc.ArpUnit.Valid, TxMerge.Merger.Valid, Flatten, Filter, AllAnswerable, Delivered,
         TxMerge.Project, Resting;
    NobodyActive(s);
    RoutersAtRest(s, ps);
    IcmpAtRest(s, ps);
    PipelineOnAnswerable(Filter(ps));
    ArpAtRest(s.arp);
    MergeDone(s.merge, ArpSpec.Frames(s.arp.frames, s.arp.accepted), Replies(Filter(ps)));
    s.Complete(ps);
  }

  /** arp_proc has answered every request it took on, and all its frames are on the wire. */
  lemma ArpServed(s: Server)
    requires s.Valid() && !ArpActive(s) && !s.merge.stage0Arp.en && s.mergeArpQ == []
    requires s.merge.out.All() == s.merge.out.sent && |s.merge.tags| == |s.merge.out.sent|
    ensures TxMerge.Project(s.merge.out.sent, s.merge.tags, TxMerge.Arp) ==
      Flatten(ArpSpec.Frames(s.arp.frames, s.arp.accepted))
    ensures ArpSpec.Replies(s.arp.frames) == |s.arp.accepted|
  {
    hide EtypeRouter.Valid, ProtoRouter.Valid, SwapUnit.Valid, ParamUnit.Valid, ChksumUnit.Valid,
         ArpProc.ArpUnit.Valid, Flatten, ArpSpec.Frames, ArpSpec.Replies, TxMerge.Project, TxMerge.Owner,
         TxMerge.Atomic;
    ArpAtRest(s.arp);
    s.arp.Transmitted();
  }

  /** And it has noticed every request for this device's address. */
  lemma ArpHeard(s: Server, ps: seq<Packet>)
    requires s.Valid() && AllFramed(ps) && s.input == Flatten(ps) && !EtypeActive(s) && !ArpActive(s)
    requires ArpSpec.AllArpShaped(ArpPackets(ps))
    ensures ArpProc.Senders(s.arp.asked) == ArpSpec.Requesters(ArpPackets(ps))
    ensures s.arp.accepted == ArpProc.Taken(s.arp.asked)
  {
    hide EtypeRouter.Valid, ProtoRouter.Valid, SwapUnit.Valid, ParamUnit.Valid, ChksumUnit.Valid,
         ArpProc.ArpUnit.Valid, TxMerge.Merger.Valid, Flatten, Delivered, Select, ArpSpec.Requesters,
         ArpProc.Senders, ArpProc.Taken, ArpSpec.AllArpShaped;
    s.etype.Drained();
    assert s.etype.consumed == Flatten(ps) && s.arp.consumed == s.etype.arp.sent;
    DeliveredPackets(ByEtype, ps, ToArp);
    s.arp.Noticed(ArpPackets(ps));
  }

  /** At rest: everything received has been answered, on the ARP side as on the IPv4 side. */
  lemma Served(s: Server, ps: seq<Packet>)
    requires Ready(s, ps) && Resting(s)
    ensures s.Quiet() && s.merge.out.All() == s.merge.out.sent && |s.merge.tags| == |s.merge.out.sent|
    ensures TxMerge.Project(s.merge.out.sent, s.merge.tags, TxMerge.Ipv4) == Flatten(Replies(Filter(ps)))
    ensures TxMerge.Project(s.merge.out.sent, s.merge.tags, TxMerge.Arp) ==
      Flatten(ArpSpec.Frames(s.arp.frames, s.arp.accepted))
    ensures ArpSpec.Replies(s.arp.frames) == |s.arp.accepted| && s.arp.accepted == ArpProc.Taken(s.arp.asked)
    ensures ArpSpec.AllArpShaped(ArpPackets(ps)) ==>
      ArpProc.Senders(s.arp.asked) == ArpSpec.Requesters(ArpPackets(ps))
  {
    hide Server.Units, Server.Links, Server.Quiet, Filter, Flatten, Select, AllFramed, AllAnswerable, TxMerge.Project,
         Resting, ArpActive, EtypeActive, ArpSpec.Frames, ArpSpec.Replies, ArpProc.Taken, ArpProc.Senders,
         ArpSpec.Requesters, ArpSpec.AllArpShaped;
    NobodyActive(s);
    AtRest(s, ps);
    ArpServed(s);
    if ArpSpec.AllArpShaped(ArpPackets(ps)) { ArpHeard(s, ps); }
    TakenOn(s);
  }

  /** The requests arp_proc accepted are those it noticed with none pending. */
  lemma TakenOn(s: Server)
    requires s.Valid()
    ensures s.arp.accepted == ArpProc.Taken(s.arp.asked)
  {
    hide EtypeRouter.Valid, ProtoRouter.Valid, SwapUnit.Valid, ParamUnit.Valid, ChksumUnit.Valid,
         TxMerge.Merger.Valid;
  }

  // ---------- the theorem ----------

  /** From any reachable state in which the whole packets `ps` have been received: when the environment stops
      stalling, and in whatever order and however often the components are called as long as none is left
      out for ever, the path runs dry within a bounded number of rounds and stays so.  Then the words sent
      for the IPv4 side are exactly the replies to all ICMP packets among `ps`, in order; those sent for the
      ARP side are exactly the frames of arp_proc, with one reply for each request it took on, out of all
      the requests for this device's address among `ps`. */
  method Serve(s: Server, rounds: seq<seq<Component>>, ghost ps: seq<Packet>)
    requires Ready(s, ps)
    requires forall i :: 0 <= i < |rounds| ==> Full(rounds[i])
    requires |rounds| > Potential(s)
    modifies s, s.etype, s.proto, s.mac, s.ip, s.par, s.sum, s.arp, s.merge
    ensures Ready(s, ps) && s.Quiet() && s.merge.out.All() == s.merge.out.sent
    ensures |s.merge.tags| == |s.merge.out.sent|
    ensures TxMerge.Project(s.merge.out.sent, s.merge.tags, TxMerge.Ipv4) == Flatten(Replies(Filter(ps)))
    ensures TxMerge.Project(s.merge.out.sent, s.merge.tags, TxMerge.Arp) ==
      Flatten(ArpSpec.Frames(s.arp.frames, s.arp.accepted))
    ensures ArpSpec.Replies(s.arp.frames) == |s.arp.accepted| && s.arp.accepted == ArpProc.Taken(s.arp.asked)
    ensures ArpSpec.AllArpShaped(ArpPackets(ps)) ==>
      ArpProc.Senders(s.arp.asked) == ArpSpec.Requesters(ArpPackets(ps))
  {
    hide Active, Potential, Ready, Server.Valid, Server.Quiet, Full, Filter, Flatten, TxMerge.Project;
    for i := 0 to |rounds|
      invariant Ready(s, ps)
      invariant Resting(s) || Potential(s) <= old(Potential(s)) - i
    {
      AllCalled(rounds[i]);
      Round(s, rounds[i], ps);
      PotentialBound(s, ps);
    }
    PotentialBound(s, ps);
    Served(s, ps);
  }
}
