/** The whole receive-to-transmit path as the system netlist wires it: both routers, the four ICMP
    components, arp_proc and tx_merge, joined by FIFOs and scheduled in any order. */
module EchoServer {
  import opened Basics
  import opened Words
  import opened IcmpSpec
  import opened IcmpUnits
  import opened EchoReply
  import opened RouteSpec
  import opened Routers
  import ArpSpec
  import ArpProc
  import TxMerge

  // ---------- specification ----------

  /** The echo requests among the packets received. */
  function IcmpPackets(ps: seq<Packet>): seq<Packet> {
    Select(ByProto, Select(ByEtype, ps, ToIpv4), ToIcmp)
  }

  /** The ARP packets among them. */
  function ArpPackets(ps: seq<Packet>): seq<Packet> { Select(ByEtype, ps, ToArp) }

  predicate IsIcmp(p: Packet) {
    |p| >= 3 && p[1].h2 == 0x0800 && p[2].h3 % 0x100 == 0x01
  }

  function Filter(ps: seq<Packet>): (r: seq<Packet>)
    ensures AllFramed(ps) ==> AllFramed(r)
  {
    if ps == [] then []
    else Filter(ps[..|ps| - 1]) + (if IsIcmp(ps[|ps| - 1]) then [ps[|ps| - 1]] else [])
  }

  lemma SelectSnoc(r: Router, ps: seq<Packet>, p: Packet, d: Route)
    ensures Select(r, ps + [p], d) == Select(r, ps, d) + (if Class(r, p) == d then [p] else [])
  {
    assert (ps + [p])[..|ps|] == ps;
  }

  /** The two routers in a row select exactly the packets with ethertype 0x0800, at least three words
      and protocol 1. */
  lemma {:induction false} ChainSelects(ps: seq<Packet>)
    requires AllFramed(ps)
    ensures IcmpPackets(ps) == Filter(ps) && AllFramed(Select(ByEtype, ps, ToIpv4))
  {
    if ps != [] {
      var init, p := ps[..|ps| - 1], ps[|ps| - 1];
      assert Framed(p);
      ChainSelects(init);
      ClassIs(ByEtype, p);
      ClassIs(ByProto, p);
      hide Class;
      var ipv4 := Select(ByEtype, init, ToIpv4);
      if Class(ByEtype, p) == ToIpv4 {
        SelectSnoc(ByProto, ipv4, p, ToIcmp);
        FramedSnoc(ipv4, p);
      } else {
        assert ipv4 + [] == ipv4;
      }
      var icmp := IcmpPackets(init);
      assert icmp + [] == icmp;
    }
  }

  /** Composition of the two stream filters, for any input: what the ICMP port can receive from a
      prefix of the packets `ps` is a prefix of the ICMP packets among them. */
  lemma ChainSafe(ps: seq<Packet>, wire: seq<Word>, mid: seq<Word>, icmp: seq<Word>)
    requires AllFramed(ps) && wire <= Flatten(ps)
    requires mid <= Delivered(ByEtype, wire, ToIpv4) && icmp <= Delivered(ByProto, mid, ToIcmp)
    ensures icmp <= Flatten(IcmpPackets(ps))
  {
    hide Delivered, Flatten, Select;
    DeliveredMonotone(ByEtype, wire, Flatten(ps), ToIpv4);
    DeliveredPackets(ByEtype, ps, ToIpv4);
    var ipv4 := Select(ByEtype, ps, ToIpv4);
    DeliveredMonotone(ByProto, mid, Flatten(ipv4), ToIcmp);
    DeliveredPackets(ByProto, ipv4, ToIcmp);
  }

  /** Cutting a prefix of a packet stream at eop gives a prefix of the packets. */
  lemma {:induction false} ParseMonotone(s: seq<Word>, t: seq<Word>)
    requires s <= t
    ensures Parse(s).whole <= Parse(t).whole
    decreases |t|
  {
    if |s| < |t| { ParseMonotone(s, t[..|t| - 1]); } else { assert s == t; }
  }

  // ---------- schedules ----------

  /** One call of one component; the flags are the stalls the environment imposes: a read succeeds only
      if allowed and the FIFO is not empty, a write only if allowed. */
  datatype Event =
    | Etype(read: bool, arp: bool, ipv4: bool, other: bool)
    | Proto(read: bool, icmp: bool, other: bool)
    | Mac(read: bool, write: bool)
    | Ip(read: bool, write: bool)
    | Par(read: bool, write: bool)
    | Sum(read: bool, write: bool)
    | Arp(read: bool, write: bool, pps: bool)
    | Merge(readArp: bool, readIpv4: bool, write: bool)

  function Offer(allowed: bool, q: seq<Word>): Option<Word> {
    if allowed && q != [] then Some(q[0]) else None
  }

  /** A queue without its first word. */
  function Rest(q: seq<Word>): seq<Word> { if q == [] then [] else q[1..] }

  function Pop(took: bool, q: seq<Word>): seq<Word>
    requires took ==> q != []
  {
    if took then q[1..] else q
  }

  class Server {
    const etype: EtypeRouter
    const proto: ProtoRouter
    const mac: SwapUnit
    const ip: SwapUnit
    const par: ParamUnit
    const sum: ChksumUnit
    const arp: ArpProc.ArpUnit
    const merge: TxMerge.Merger

    var wireQ: seq<Word>   // received words not yet read
    var protoQ: seq<Word>
    var arpQ: seq<Word>
    var macQ: seq<Word>
    var ipQ: seq<Word>
    var parQ: seq<Word>
    var sumQ: seq<Word>
    var mergeIpv4Q: seq<Word>
    var mergeArpQ: seq<Word>

    ghost const input: seq<Word>
    ghost var calls: seq<Event>   // the calls made so far

    ghost predicate Units()
      reads etype, proto, mac, ip, par, sum, arp, merge
    {
      && etype.Valid() && proto.Valid() && par.Valid() && sum.Valid() && arp.Valid() && merge.Valid()
      && mac.Valid() && mac.kind == SwapMac && ip.Valid() && ip.kind == SwapIp && mac != ip
    }

    /** Each FIFO holds what its producer has written and its consumer has not read. */
    ghost predicate Links()
      reads this, etype, proto, mac, ip, par, sum, arp, merge
    {
      && input == etype.consumed + wireQ
      && etype.ipv4.sent == proto.consumed + protoQ
      && etype.arp.sent == arp.consumed + arpQ
      && proto.icmp.sent == mac.consumed + macQ
      && mac.emitted == ip.consumed + ipQ
      && ip.emitted == par.consumed + parQ
      && par.emitted == sum.consumed + sumQ
      && sum.emitted == merge.consumedIpv4 + mergeIpv4Q
      && arp.out.sent == merge.consumedArp + mergeArpQ
    }

    ghost predicate Valid()
      reads this, etype, proto, mac, ip, par, sum, arp, merge
    {
      Units() && Links()
    }

    constructor (wire: seq<Word>)
      ensures Valid() && input == wire && calls == []
      ensures fresh(etype) && fresh(proto) && fresh(mac) && fresh(ip)
      ensures fresh(par) && fresh(sum) && fresh(arp) && fresh(merge)
    {
      hide EtypeRouter.Valid, ProtoRouter.Valid, SwapUnit.Valid, ParamUnit.Valid, ChksumUnit.Valid,
           ArpProc.ArpUnit.Valid, TxMerge.Merger.Valid;
      etype := new EtypeRouter();
      proto := new ProtoRouter();
      mac := new SwapUnit(SwapMac);
      ip := new SwapUnit(SwapIp);
      par := new ParamUnit();
      sum := new ChksumUnit();
      arp := new ArpProc.ArpUnit();
      merge := new TxMerge.Merger();
      wireQ, protoQ, arpQ, macQ, ipQ, parQ, sumQ, mergeIpv4Q, mergeArpQ := wire, [], [], [], [], [], [], [], [];
      input := wire;
      calls := [];
      new;
      Linked();
      hide Links;
    }

    /** Units that have read and written nothing are linked by empty FIFOs. */
    lemma Linked()
      requires etype.consumed == proto.consumed == mac.consumed == ip.consumed == par.consumed == sum.consumed == []
      requires arp.consumed == merge.consumedIpv4 == merge.consumedArp == []
      requires etype.ipv4.sent == etype.arp.sent == proto.icmp.sent == arp.out.sent == []
      requires mac.emitted == ip.emitted == par.emitted == sum.emitted == []
      requires protoQ == arpQ == macQ == ipQ == parQ == sumQ == mergeIpv4Q == mergeArpQ == []
      requires wireQ == input
      ensures Links()
    {
    }

    method StepEtype(read: bool, rArp: bool, rIpv4: bool, rOther: bool)
      requires Valid()
      modifies this, etype
      ensures Valid() && calls == old(calls) + [Etype(read, rArp, rIpv4, rOther)]
      ensures wireQ == if read && old(etype.Takes(rArp, rIpv4, rOther)) then Rest(old(wireQ)) else old(wireQ)
      ensures protoQ == old(protoQ) + Seq(old(etype.ipv4.Put(rIpv4)))
      ensures arpQ == old(arpQ) + Seq(old(etype.arp.Put(rArp)))
      ensures etype.other.sent == old(etype.other.sent) + Seq(old(etype.other.Put(rOther)))
    {
      hide EtypeRouter.Valid, ProtoRouter.Valid, SwapUnit.Valid, ParamUnit.Valid, ChksumUnit.Valid,
           ArpProc.ArpUnit.Valid, TxMerge.Merger.Valid, OutPort.Put, EtypeRouter.Open, EtypeRouter.Seen, Decide, Seq,
           EtypeRouter.Takes;
      var putIpv4, putArp := etype.ipv4.Put(rIpv4), etype.arp.Put(rArp);
      var took := etype.Step(Offer(read, wireQ), rArp, rIpv4, rOther);
      wireQ, protoQ, arpQ := Pop(took, wireQ), protoQ + Seq(putIpv4), arpQ + Seq(putArp);
      calls := calls + [Etype(read, rArp, rIpv4, rOther)];
    }

    method StepProto(read: bool, rIcmp: bool, rOther: bool)
      requires Valid()
      modifies this, proto
      ensures Valid() && calls == old(calls) + [Proto(read, rIcmp, rOther)]
      ensures protoQ == if read && old(proto.Takes(rIcmp, rOther)) then Rest(old(protoQ)) else old(protoQ)
      ensures macQ == old(macQ) + Seq(old(proto.icmp.Put(rIcmp)))
      ensures proto.other.sent == old(proto.other.sent) + Seq(old(proto.other.Put(rOther)))
    {
      hide EtypeRouter.Valid, ProtoRouter.Valid, SwapUnit.Valid, ParamUnit.Valid, ChksumUnit.Valid,
           ArpProc.ArpUnit.Valid, TxMerge.Merger.Valid, ProtoRouter.Takes;
      var put := proto.icmp.Put(rIcmp);
      var took := proto.Step(Offer(read, protoQ), rIcmp, rOther);
      protoQ := Pop(took, protoQ);
      macQ := macQ + Seq(put);
      calls := calls + [Proto(read, rIcmp, rOther)];
    }

    method StepMac(read: bool, write: bool)
      requires Valid()
      modifies this, mac
      ensures Valid() && calls == old(calls) + [Mac(read, write)]
      ensures macQ == if read && old(mac.Takes(write)) then Rest(old(macQ)) else old(macQ)
      ensures ipQ == old(ipQ) + (if write && old(mac.stage2En) then [old(mac.stage2)] else [])
    {
      hide EtypeRouter.Valid, ProtoRouter.Valid, SwapUnit.Valid, ParamUnit.Valid, ChksumUnit.Valid,
           ArpProc.ArpUnit.Valid, TxMerge.Merger.Valid, SwapUnit.Takes;
      var put, took := mac.Step(Offer(read, macQ), write);
      macQ := Pop(took, macQ);
      ipQ := ipQ + Seq(put);
      calls := calls + [Mac(read, write)];
    }

    method StepIp(read: bool, write: bool)
      requires Valid()
      modifies this, ip
      ensures Valid() && calls == old(calls) + [Ip(read, write)]
      ensures ipQ == if read && old(ip.Takes(write)) then Rest(old(ipQ)) else old(ipQ)
      ensures parQ == old(parQ) + (if write && old(ip.stage2En) then [old(ip.stage2)] else [])
    {
      hide EtypeRouter.Valid, ProtoRouter.Valid, SwapUnit.Valid, ParamUnit.Valid, ChksumUnit.Valid,
           ArpProc.ArpUnit.Valid, TxMerge.Merger.Valid, SwapUnit.Takes;
      var put, took := ip.Step(Offer(read, ipQ), write);
      ipQ := Pop(took, ipQ);
      parQ := parQ + Seq(put);
      calls := calls + [Ip(read, write)];
    }

    method StepParam(read: bool, write: bool)
      requires Valid()
      modifies this, par
      ensures Valid() && calls == old(calls) + [Par(read, write)]
      ensures parQ == if read && old(par.Takes(write)) then Rest(old(parQ)) else old(parQ)
      ensures sumQ == old(sumQ) + (if write && old(par.stage1En) then [old(par.stage1)] else [])
    {
      hide EtypeRouter.Valid, ProtoRouter.Valid, SwapUnit.Valid, ParamUnit.Valid, ChksumUnit.Valid,
           ArpProc.ArpUnit.Valid, TxMerge.Merger.Valid, ParamUnit.Takes;
      var put, took := par.Step(Offer(read, parQ), write);
      parQ := Pop(took, parQ);
      sumQ := sumQ + Seq(put);
      calls := calls + [Par(read, write)];
    }

    method StepChksum(read: bool, write: bool)
      requires Valid()
      modifies this, sum
      ensures Valid() && calls == old(calls) + [Sum(read, write)]
      ensures sumQ == if read && old(sum.Takes(write)) then Rest(old(sumQ)) else old(sumQ)
      ensures mergeIpv4Q == old(mergeIpv4Q) + (if write && old(sum.stage3En) then [old(sum.stage3)] else [])
    {
      hide EtypeRouter.Valid, ProtoRouter.Valid, SwapUnit.Valid, ParamUnit.Valid, ChksumUnit.Valid,
           ArpProc.ArpUnit.Valid, TxMerge.Merger.Valid, ChksumUnit.Takes;
      var put, took := sum.Step(Offer(read, sumQ), write);
      sumQ := Pop(took, sumQ);
      mergeIpv4Q := mergeIpv4Q + Seq(put);
      calls := calls + [Sum(read, write)];
    }

    method CallArp(offer: Option<Word>, ready: bool, pps: bool) returns (took: bool)
      requires Units()
      modifies arp
      ensures Units()
      ensures took == offer.Some? && arp.consumed == old(arp.consumed) + Seq(offer)
      ensures arp.out.sent == old(arp.out.sent) + Seq(old(arp.out).Put(ready))
      ensures |arp.beats| == |old(arp.beats)| + 1 && old(arp.beats) <= arp.beats
      ensures var b := arp.beats[|arp.beats| - 1];
              && b.call == ArpProc.Call(offer, ready, pps)
              && b.arm == (pps && (!old(arp.refreshed) || old(arp.ticks) >= 16))
              && (b.arm ==> arp.reqStdby || arp.mode == ArpProc.SendRequest)
    {
      hide EtypeRouter.Valid, ProtoRouter.Valid, SwapUnit.Valid, ParamUnit.Valid, ChksumUnit.Valid,
           ArpProc.ArpUnit.Valid, TxMerge.Merger.Valid, OutPort.Put, ArpSpec.AsksOwn, ArpSpec.Announces,
           ArpSpec.Sender, ArpSpec.Replies, ArpSpec.Fill;
      ghost var load, free, accept, refresh;
      took, load, free, accept, refresh := arp.Step(offer, ready, pps);
    }

    /** A tick that finds no announcement in the sixteen before it leads to an ARP request, at once or as soon
        as a reply has been sent; any other tick does not. */
    method StepArp(read: bool, write: bool, pps: bool)
      requires Valid()
      modifies this, arp
      ensures Valid() && calls == old(calls) + [Arp(read, write, pps)]
      ensures arpQ == if read then Rest(old(arpQ)) else old(arpQ)
      ensures mergeArpQ == old(mergeArpQ) + Seq(old(arp.out.Put(write)))
      ensures |arp.beats| == |old(arp.beats)| + 1 && old(arp.beats) <= arp.beats
      ensures var b := arp.beats[|arp.beats| - 1];
              && b.call == ArpProc.Call(Offer(read, old(arpQ)), write, pps)
              && b.arm == (pps && (!old(arp.refreshed) || old(arp.ticks) >= 16))
              && (b.arm ==> arp.reqStdby || arp.mode == ArpProc.SendRequest)
    {
      hide Units, OutPort.Put;
      var put := arp.out.Put(write);
      var took := CallArp(Offer(read, arpQ), write, pps);
      arpQ := Pop(took, arpQ);
      mergeArpQ := mergeArpQ + Seq(put);
      calls := calls + [Arp(read, write, pps)];
    }

    method CallMerge(offerArp: Option<Word>, offerIpv4: Option<Word>, ready: bool)
      returns (tookArp: bool, tookIpv4: bool)
      requires Units()
      modifies merge
      ensures Units()
      ensures tookArp == (offerArp.Some? && old(merge.TakesArp(ready)))
      ensures tookIpv4 == (offerIpv4.Some? && old(merge.TakesIpv4(ready)))
      ensures merge.consumedArp == old(merge.consumedArp) + (if tookArp then [offerArp.value] else [])
      ensures merge.consumedIpv4 == old(merge.consumedIpv4) + (if tookIpv4 then [offerIpv4.value] else [])
      ensures merge.out.sent == old(merge.out.sent) + Seq(old(merge.out.Put(ready)))
    {
      hide EtypeRouter.Valid, ProtoRouter.Valid, SwapUnit.Valid, ParamUnit.Valid, ChksumUnit.Valid,
           ArpProc.ArpUnit.Valid, TxMerge.Merger.Valid, TxMerge.Merger.TakesArp, TxMerge.Merger.TakesIpv4;
      tookArp, tookIpv4 := merge.Step(offerArp, offerIpv4, ready);
    }

    method StepMerge(readArp: bool, readIpv4: bool, write: bool)
      requires Valid()
      modifies this, merge
      ensures Valid() && calls == old(calls) + [Merge(readArp, readIpv4, write)]
      ensures mergeArpQ == if readArp && old(merge.TakesArp(write)) then Rest(old(mergeArpQ)) else old(mergeArpQ)
      ensures mergeIpv4Q == if readIpv4 && old(merge.TakesIpv4(write)) then Rest(old(mergeIpv4Q)) else old(mergeIpv4Q)
      ensures merge.out.sent == old(merge.out.sent) + Seq(old(merge.out.Put(write)))
    {
      hide Units, OutPort.Put, TxMerge.Merger.TakesArp, TxMerge.Merger.TakesIpv4;
      var tookArp, tookIpv4 := CallMerge(Offer(readArp, mergeArpQ), Offer(readIpv4, mergeIpv4Q), write);
      mergeArpQ := Pop(tookArp, mergeArpQ);
      mergeIpv4Q := Pop(tookIpv4, mergeIpv4Q);
      calls := calls + [Merge(readArp, readIpv4, write)];
    }

    /** Any run: any order of calls, any stalls. */
    method Run(schedule: seq<Event>)
      requires Valid()
      modifies this, etype, proto, mac, ip, par, sum, arp, merge
      ensures Valid() && calls == old(calls) + schedule
      ensures forall ps :: AllFramed(ps) && input <= Flatten(ps) ==> merge.consumedIpv4 <= Echoes(Filter(ps))
    {
      hide EtypeRouter.Valid, ProtoRouter.Valid, SwapUnit.Valid, ParamUnit.Valid, ChksumUnit.Valid,
           ArpProc.ArpUnit.Valid, TxMerge.Merger.Valid;
      for i := 0 to |schedule|
        invariant Valid() && calls == old(calls) + schedule[..i]
      {
        OneEvent(schedule[i]);
        assert schedule[..i + 1] == schedule[..i] + [schedule[i]];
      }
      assert schedule[..|schedule|] == schedule;
      forall ps | AllFramed(ps) && input <= Flatten(ps) ensures merge.consumedIpv4 <= Echoes(Filter(ps))
      {
        EndToEnd(ps);
      }
    }

    method OneEvent(e: Event)
      requires Valid()
      modifies this, etype, proto, mac, ip, par, sum, arp, merge
      ensures Valid() && calls == old(calls) + [e]
    {
      hide Valid, EtypeRouter.Valid, ProtoRouter.Valid, SwapUnit.Valid, ParamUnit.Valid, ChksumUnit.Valid,
           ArpProc.ArpUnit.Valid, TxMerge.Merger.Valid;
      match e {
        case Etype(r, a, v, o) => StepEtype(r, a, v, o);
        case Proto(r, c, o) => StepProto(r, c, o);
        case Mac(r, w) => StepMac(r, w);
        case Ip(r, w) => StepIp(r, w);
        case Par(r, w) => StepParam(r, w);
        case Sum(r, w) => StepChksum(r, w);
        case Arp(r, w, p) => StepArp(r, w, p);
        case Merge(ra, rv, w) => StepMerge(ra, rv, w);
      }
    }

    // ---------- what every reachable state satisfies ----------

    /** Each unit's history against its transfer function. */
    lemma Histories()
      requires Valid()
      ensures etype.consumed <= input
      ensures etype.ipv4.sent <= Delivered(ByEtype, etype.consumed, ToIpv4)
      ensures proto.icmp.sent <= Delivered(ByProto, proto.consumed, ToIcmp)
      ensures mac.emitted <= All(SwapMac, mac.consumed) && ip.emitted <= All(SwapIp, ip.consumed)
      ensures par.emitted <= All(Param, par.consumed) && sum.emitted <= All(Chksum, sum.consumed)
    {
      EtypeHistory(etype);
      ProtoHistory(proto);
      SwapHistory(mac);
      SwapHistory(ip);
      ParamHistory(par);
      ChksumHistory(sum);
    }

    /** End to end: in every reachable state, if the packets `ps` are arriving, then the words tx_merge has
        taken from the IPv4 side are a prefix of what the ICMP packets among them are answered with: the
        echo replies in order, up to the first packet whose length jams the pipeline. */
    lemma EndToEnd(ps: seq<Packet>)
      requires Valid() && AllFramed(ps) && input <= Flatten(ps)
      ensures merge.consumedIpv4 <= Echoes(Filter(ps))
    {
      hide EtypeRouter.Valid, ProtoRouter.Valid, SwapUnit.Valid, ParamUnit.Valid, ChksumUnit.Valid,
           ArpProc.ArpUnit.Valid, TxMerge.Merger.Valid, Delivered, All, Flatten, Filter, AllFramed, Echoes;
      Histories();
      ChainSelects(ps);
      ChainSafe(ps, etype.consumed, proto.consumed, proto.icmp.sent);
      PipelineSafe(Filter(ps), mac.consumed, ip.consumed, par.consumed, sum.consumed, sum.emitted);
    }

    /** In every reachable state the requests for this device's address that arp_proc has noticed are the
        first ones among the ARP packets received, and those it answers are the ones it took on. */
    lemma ArpNoticed(ps: seq<Packet>)
      requires Valid() && AllFramed(ps) && input <= Flatten(ps) && ArpSpec.AllArpShaped(ArpPackets(ps))
      ensures ArpProc.Senders(arp.asked) <= ArpSpec.Requesters(ArpPackets(ps))
      ensures arp.accepted == ArpProc.Taken(arp.asked)
    {
      hide EtypeRouter.Valid, ProtoRouter.Valid, SwapUnit.Valid, ParamUnit.Valid, ChksumUnit.Valid,
           ArpProc.ArpUnit.Valid, TxMerge.Merger.Valid, Delivered, Flatten, Select, AllFramed,
           ArpSpec.Requesters, ArpSpec.Asking, ArpProc.Senders, ArpProc.Taken;
      EtypeHistory(etype);
      DeliveredMonotone(ByEtype, etype.consumed, Flatten(ps), ToArp);
      DeliveredPackets(ByEtype, ps, ToArp);
      arp.NoticedSoFar(Flatten(ArpPackets(ps)));
      ArpSpec.AskingPackets(ArpPackets(ps));
    }

    /** On the wire: the output cut at eop is a shuffle of whole packets.  Those from the IPv4 side are
        a prefix of the echo replies, those from the ARP side a prefix of the ARP frames, and no packet
        is interrupted by another. */
    lemma OnTheWire(ps: seq<Packet>)
      requires Valid() && AllFramed(ps) && input <= Flatten(ps)
      ensures |merge.tags| == |merge.out.All()|
      ensures var whole := Parse(merge.out.All()).whole;
              var from := TxMerge.Origins(merge.out.All(), merge.tags);
              && |from| == |whole|
              && TxMerge.Pick(whole, from, TxMerge.Ipv4) <= Replies(Filter(ps)[..Answered(Filter(ps))])
              && TxMerge.Pick(whole, from, TxMerge.Arp) <= ArpSpec.Frames(arp.frames, arp.accepted)
    {
      hide EtypeRouter.Valid, ProtoRouter.Valid, SwapUnit.Valid, ParamUnit.Valid, ChksumUnit.Valid,
           ArpProc.ArpUnit.Valid, Flatten, Filter, AllFramed, Parse, Echoes, Answered,
           TxMerge.Pick, TxMerge.Origins, TxMerge.Project, TxMerge.Atomic, TxMerge.Owner;
      var out, tags := merge.out.All(), merge.tags;
      TxMerge.AtomicShuffle(out, tags, TxMerge.Ipv4);
      TxMerge.AtomicShuffle(out, tags, TxMerge.Arp);
      EndToEnd(ps);
      EchoesCut(Filter(ps));
      ParseMonotone(TxMerge.Project(out, tags, TxMerge.Ipv4), Echoes(Filter(ps)));
      ArpFrames(arp);
      ParseMonotone(TxMerge.Project(out, tags, TxMerge.Arp), arp.out.sent);
    }

    /** All FIFOs and all registers of the echo path are empty. */
    ghost predicate Quiet()
      reads this, etype, proto, mac, ip, par, sum, merge
    {
      && wireQ == protoQ == macQ == ipQ == parQ == sumQ == mergeIpv4Q == []
      && !etype.ipv4.slot.en && !etype.stage2.en && !etype.stage1.en && !etype.stage0.en
      && !proto.icmp.slot.en && !proto.stage3.en && !proto.stage2.en && !proto.stage1.en && !proto.stage0.en
      && !mac.stage2En && !mac.stage1En && !mac.stage0En && !ip.stage2En && !ip.stage1En && !ip.stage0En
      && !par.stage1En && !par.stage0En && !sum.stage3En && !sum.stage2En && !sum.stage1En && !sum.stage0En
      && !merge.stage0Ipv4.en
    }

    /** Nothing is lost and the schedule does not matter: the path can be quiet only if every ICMP packet
        received gets through, and then the words that have gone out for the IPv4 side are all the
        replies to all of them. */
    lemma Complete(ps: seq<Packet>)
      requires Valid() && Quiet() && AllFramed(ps) && input == Flatten(ps)
      ensures |merge.tags| == |merge.out.All()| && AllAnswerable(Filter(ps))
      ensures TxMerge.Project(merge.out.All(), merge.tags, TxMerge.Ipv4) == Flatten(Replies(Filter(ps)))
    {
      hide Flatten, Filter, AllFramed, AllAnswerable, Echoes, Pipeline,
           EtypeRouter.Valid, ProtoRouter.Valid, SwapUnit.Valid, ParamUnit.Valid, ChksumUnit.Valid,
           ArpProc.ArpUnit.Valid, All, Delivered, TxMerge.Project, TxMerge.Atomic, TxMerge.Owner;
      UnitsQuiet();
      assert etype.consumed == Flatten(ps) && proto.consumed == etype.ipv4.sent && mac.consumed == proto.icmp.sent;
      DeliveredPackets(ByEtype, ps, ToIpv4);
      DeliveredPackets(ByProto, Select(ByEtype, ps, ToIpv4), ToIcmp);
      ChainSelects(ps);
      PipelineOnPackets(Filter(ps));
      AnsweredInFull(Filter(ps));
      PipelineOnAnswerable(Filter(ps));
    }

    /** What the units have done when they are quiet. */
    lemma UnitsQuiet()
      requires Valid() && Quiet()
      ensures etype.ipv4.sent == Delivered(ByEtype, etype.consumed, ToIpv4)
      ensures proto.icmp.sent == Delivered(ByProto, proto.consumed, ToIcmp)
      ensures sum.emitted == Pipeline(mac.consumed) && |sum.emitted| == |mac.consumed|
      ensures |merge.tags| == |merge.out.All()|
      ensures sum.emitted == TxMerge.Project(merge.out.All(), merge.tags, TxMerge.Ipv4)
    {
      hide EtypeRouter.Valid, ProtoRouter.Valid, SwapUnit.Valid, ParamUnit.Valid, ChksumUnit.Valid,
           ArpProc.ArpUnit.Valid, All, Delivered, TxMerge.Project, TxMerge.Atomic, TxMerge.Owner;
      EtypeQuiet(etype);
      ProtoQuiet(proto);
      SwapQuiet(mac);
      SwapQuiet(ip);
      ParamQuiet(par);
      ChksumQuiet(sum);
      assert ip.consumed == mac.emitted && par.consumed == ip.emitted && sum.consumed == par.emitted;
    }
  }

  // ---------- histories of the single units ----------

  lemma EtypeHistory(u: EtypeRouter)
    requires u.Valid()
    ensures u.ipv4.sent <= Delivered(ByEtype, u.consumed, ToIpv4) && u.arp.sent <= Delivered(ByEtype, u.consumed, ToArp)
  {
    RoutedGrows(ByEtype, u.consumed, u.Passed(), |u.consumed|, ToIpv4);
    RoutedGrows(ByEtype, u.consumed, u.Passed(), |u.consumed|, ToArp);
  }

  lemma ProtoHistory(u: ProtoRouter)
    requires u.Valid()
    ensures u.icmp.sent <= Delivered(ByProto, u.consumed, ToIcmp)
  {
    RoutedGrows(ByProto, u.consumed, u.Passed(), |u.consumed|, ToIcmp);
  }

  lemma SwapHistory(u: SwapUnit)
    requires u.Valid()
    ensures u.emitted <= All(u.kind, u.consumed)
  {
    StreamGrows(u.kind, u.consumed, u.Passed(), |u.consumed|);
  }

  lemma ParamHistory(u: ParamUnit)
    requires u.Valid()
    ensures u.emitted <= All(Param, u.consumed)
  {
    StreamGrows(Param, u.consumed, u.Passed(), |u.consumed|);
  }

  lemma ChksumHistory(u: ChksumUnit)
    requires u.Valid()
    ensures u.emitted <= All(Chksum, u.consumed)
  {
    StreamGrows(Chksum, u.consumed, u.Passed(), |u.consumed|);
  }

  lemma EtypeQuiet(u: EtypeRouter)
    requires u.Valid() && !u.ipv4.slot.en && !u.stage2.en && !u.stage1.en && !u.stage0.en
    ensures u.ipv4.sent == Delivered(ByEtype, u.consumed, ToIpv4)
  {
  }

  lemma ProtoQuiet(u: ProtoRouter)
    requires u.Valid() && !u.icmp.slot.en && !u.stage3.en && !u.stage2.en && !u.stage1.en && !u.stage0.en
    ensures u.icmp.sent == Delivered(ByProto, u.consumed, ToIcmp)
  {
  }

  lemma SwapQuiet(u: SwapUnit)
    requires u.Valid() && !u.stage2En && !u.stage1En && !u.stage0En
    ensures u.emitted == All(u.kind, u.consumed) && |u.emitted| == |u.consumed|
  {
  }

  lemma ParamQuiet(u: ParamUnit)
    requires u.Valid() && !u.stage1En && !u.stage0En
    ensures u.emitted == All(Param, u.consumed) && |u.emitted| == |u.consumed|
  {
  }

  lemma ChksumQuiet(u: ChksumUnit)
    requires u.Valid() && !u.stage3En && !u.stage2En && !u.stage1En && !u.stage0En
    ensures u.emitted == All(Chksum, u.consumed) && |u.emitted| == |u.consumed|
  {
  }

  /** What arp_proc has put on its output, cut at eop, is a prefix of its frames. */
  lemma ArpFrames(u: ArpProc.ArpUnit)
    requires u.Valid()
    ensures Parse(u.out.sent).whole <= ArpSpec.Frames(u.frames, u.accepted)
  {
    hide ArpProc.ArpUnit.Valid, Flatten, Parse, ArpSpec.Frames, ArpSpec.FrameWords;
    u.Transmitted();
    u.LoadedPart();
    var fs := ArpSpec.Frames(u.frames, u.accepted);
    ParseMonotone(u.out.sent, u.out.All());
    ParseUnique(Framing(fs, u.Loaded()));
  }
}
