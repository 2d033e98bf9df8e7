/** rx_split_by_etype and rx_split_by_ipv4proto as clocked machines; see IcmpUnits for `offer`,
    `ready` and the histories. */
module Routers {
  import opened Basics
  import opened Words
  import opened RouteSpec

  /** The first `n` words of `s` split over the three ports of rx_split_by_etype. */
  ghost predicate Split(s: seq<Word>, n: nat, toArp: seq<Word>, toIpv4: seq<Word>, toOther: seq<Word>)
    requires n <= |s|
  {
    && AllDecided(ByEtype, s, n)
    && Routed(ByEtype, s, n, ToArp) == toArp
    && Routed(ByEtype, s, n, ToIpv4) == toIpv4
    && Routed(ByEtype, s, n, ToOther) == toOther
  }

  /** One more word routed. */
  lemma SplitNext(s: seq<Word>, n: nat, toArp: seq<Word>, toIpv4: seq<Word>, toOther: seq<Word>)
    requires n < |s| && Split(s, n, toArp, toIpv4, toOther)
    ensures var d := RouteOf(ByEtype, s, n);
            && (d == ToArp ==> Split(s, n + 1, toArp + [s[n]], toIpv4, toOther))
            && (d == ToIpv4 ==> Split(s, n + 1, toArp, toIpv4 + [s[n]], toOther))
            && (d == ToOther ==> Split(s, n + 1, toArp, toIpv4, toOther + [s[n]]))
  {
    hide RouteOf;
  }

  /** One more word read. */
  lemma SplitRead(s: seq<Word>, w: Word, n: nat, toArp: seq<Word>, toIpv4: seq<Word>, toOther: seq<Word>)
    requires n <= |s| && Split(s, n, toArp, toIpv4, toOther)
    ensures Split(s + [w], n, toArp, toIpv4, toOther)
  {
    hide Routed, RouteOf;
    DecidedPrefix(ByEtype, s, s + [w], n);
    RoutedPrefix(ByEtype, s, s + [w], n, ToArp);
    RoutedPrefix(ByEtype, s, s + [w], n, ToIpv4);
    RoutedPrefix(ByEtype, s, s + [w], n, ToOther);
  }

  lemma NextPacket(r: Router, s: seq<Word>, n: nat)
    requires n < |s|
    ensures s[n].Last() ==> Start(s, n + 1) == n + 1
    ensures !s[n].Last() ==> RouteOf(r, s, n + 1) == RouteOf(r, s, n)
  {
  }

  class EtypeRouter {
    var arp: OutPort
    var ipv4: OutPort
    var other: OutPort
    var stage2: Slot
    var stage1: Slot
    var stage0: Slot
    var state: Route

    ghost var consumed: seq<Word>

    ghost function Waiting(): nat reads `stage2, `stage1, `stage0 {
      stage2.Count() + stage1.Count() + stage0.Count()
    }

    /** How many words have been routed. */
    ghost function Passed(): (n: nat)
      reads `stage2, `stage1, `stage0, `consumed
      ensures n <= |consumed|
    {
      if Waiting() <= |consumed| then |consumed| - Waiting() else 0
    }

    /** What has been routed to each port is what left it and what waits in it. */
    ghost predicate Ports(n: nat)
      requires n <= |consumed|
      reads `consumed, `arp, `ipv4, `other
    {
      Split(consumed, n, arp.All(), ipv4.All(), other.All())
    }

    ghost predicate Queue()
      reads `stage2, `stage1, `stage0, `consumed
    {
      && Waiting() <= |consumed|
      && (stage2.en ==> stage2.word == consumed[Passed()])
      && (stage1.en ==> stage1.word == consumed[Passed() + stage2.Count()])
      && (stage0.en ==> stage0.word == consumed[|consumed| - 1])
    }

    /** HOLD means a packet is about to begin; any other state names the port of the next word. */
    ghost predicate Valid() reads this {
      && Queue() && Ports(Passed())
      && (state == Hold ==> Start(consumed, Passed()) == Passed())
      && (state != Hold ==> RouteOf(ByEtype, consumed, Passed()) == state)
      && state != ToIcmp
    }

    /** The port that the state selects accepts a word in this call. */
    predicate Open(readyArp: bool, readyIpv4: bool, readyOther: bool)
      reads `state, `arp, `ipv4, `other
    {
      match state
      case ToArp => arp.Accepts(readyArp)
      case ToIpv4 => ipv4.Accepts(readyIpv4)
      case ToOther => other.Accepts(readyOther)
      case _ => false
    }

    /** Something can still move when all sinks are ready. */
    predicate Busy() reads `arp, `ipv4, `other, `stage2, `stage1, `stage0, `state {
      || arp.slot.en || ipv4.slot.en || other.slot.en
      || (stage2.en && state != Hold) || (stage1.en && !stage2.en) || (stage0.en && !stage1.en)
      || (stage2.en && state == Hold && (stage2.word.Last() || stage1.en))
    }

    /** How far the words held are from the outputs. */
    function Distance(): nat reads `arp, `ipv4, `other, `stage2, `stage1, `stage0, `state {
      arp.slot.Count() + ipv4.slot.Count() + other.slot.Count()
      + 3 * stage2.Count() + 4 * stage1.Count() + 5 * stage0.Count() + (if state == Hold then 1 else 0)
    }

    /** The words the routing decision can see: stage 2, and stage 1 behind it. */
    ghost function Seen(): seq<Word>
      requires Queue()
      reads `stage2, `stage1, `stage0, `consumed
    {
      consumed[..Passed() + if stage2.en then 1 + stage1.Count() else 0]
    }

    constructor ()
      ensures Valid() && consumed == [] && arp == ipv4 == other == CLOSED
      ensures stage2 == stage1 == stage0 == EMPTY && state == Hold
    {
      arp, ipv4, other := CLOSED, CLOSED, CLOSED;
      stage2, stage1, stage0 := EMPTY, EMPTY, EMPTY;
      state := Hold;
      consumed := [];
    }

    /** Stage 3: routing. */
    method RouteWord() returns (sopNextExpected: bool)
      requires Valid()
      modifies `arp, `ipv4, `other, `stage2
      ensures Queue() && Ports(Passed())
      ensures sopNextExpected ==> Start(consumed, Passed()) == Passed()
      ensures !sopNextExpected ==> state != Hold && RouteOf(ByEtype, consumed, Passed()) == state
      ensures var moved := old(stage2.en && Open(false, false, false));
              && sopNextExpected == (state == Hold || (moved && old(stage2.word.Last())))
              && stage2.en == (old(stage2.en) && !moved)
              && arp == (if moved && state == ToArp then old(arp).Load(old(stage2.word)) else old(arp))
              && ipv4 == (if moved && state == ToIpv4 then old(ipv4).Load(old(stage2.word)) else old(ipv4))
              && other == (if moved && state == ToOther then old(other).Load(old(stage2.word)) else old(other))
    {
      hide RouteOf, Start, Split, OutPort.All, OutPort.Load;
      ghost var n := Passed();
      if stage2.en {
        SplitNext(consumed, n, arp.All(), ipv4.All(), other.All());
        NextPacket(ByEtype, consumed, n);
      }
      sopNextExpected := false;
      match state {
        case ToArp =>
          if !arp.slot.en && stage2.en {
            sopNextExpected := stage2.word.Last();
            arp := arp.Load(stage2.word);
            stage2 := stage2.(en := false);
          }
        case ToIpv4 =>
          if !ipv4.slot.en && stage2.en {
            sopNextExpected := stage2.word.Last();
            ipv4 := ipv4.Load(stage2.word);
            stage2 := stage2.(en := false);
          }
        case ToOther =>
          if !other.slot.en && stage2.en {
            sopNextExpected := stage2.word.Last();
            other := other.Load(stage2.word);
            stage2 := stage2.(en := false);
          }
        case _ => sopNextExpected := true;
      }
    }

    /** Stages 2, 1 and 0. */
    method Shift(offer: Option<Word>) returns (took: bool)
      requires Queue() && Ports(Passed())
      modifies `stage2, `stage1, `stage0, `consumed
      ensures Queue() && Passed() == old(Passed()) && Ports(Passed())
      ensures stage2.en == (old(stage2.en) || old(stage1.en))
      ensures stage1.en == ((old(stage1.en) && old(stage2.en)) || old(stage0.en))
      ensures var full := old(stage0.en && stage1.en && stage2.en);
              took == (offer.Some? && !full) && stage0.en == (took || full)
      ensures took ==> offer.Some?
      ensures consumed == old(consumed) + (if took then [offer.value] else [])
    {
      hide Split, OutPort.All;
      if !stage2.en && stage1.en {
        stage2 := stage1;
        stage1 := stage1.(en := false);
      }
      if !stage1.en && stage0.en {
        stage1 := stage0;
        stage0 := stage0.(en := false);
      }
      took := Input(offer);
    }

    /** Stage 0. */
    method Input(offer: Option<Word>) returns (took: bool)
      requires Queue() && Ports(Passed())
      modifies `stage0, `consumed
      ensures Queue() && Passed() == old(Passed()) && Ports(Passed())
      ensures took == (offer.Some? && !old(stage0.en)) && stage0.en == (took || old(stage0.en))
      ensures consumed == old(consumed) + (if took then [offer.value] else [])
    {
      hide Split, OutPort.All;
      took := false;
      if !stage0.en && offer.Some? {
        took := true;
        SplitRead(consumed, offer.value, Passed(), arp.All(), ipv4.All(), other.All());
        stage0 := Slot(true, offer.value);
        consumed := consumed + [offer.value];
      }
    }

    lemma NextRoute()
      requires Queue()
      ensures Seen() <= consumed
      ensures Decide(ByEtype, Seen(), Passed()) ==
        if !stage2.en then Hold else if stage2.word.Last() then ToOther
        else if stage1.en then EtypeRoute(stage1.word) else Hold
    {
    }

    /** The next routing decision. */
    method UpdateState(sopNextExpected: bool)
      requires Queue() && Ports(Passed()) && state != ToIcmp
      requires sopNextExpected ==> Start(consumed, Passed()) == Passed()
      requires !sopNextExpected ==> state != Hold && RouteOf(ByEtype, consumed, Passed()) == state
      modifies `state
      ensures Valid()
      ensures state == if sopNextExpected then Decide(ByEtype, Seen(), Passed()) else old(state)
    {
      hide Start, Ports, Decide, Seen;
      NextRoute();
      if sopNextExpected {
        if stage2.en {
          if stage2.word.Last() {
            state := ToOther;
          } else if stage1.en {
            state := EtypeRoute(stage1.word);
          } else {
            state := Hold;
          }
        } else {
          state := Hold;
        }
        if state != Hold { DecidePrefix(ByEtype, Seen(), consumed, Passed()); }
      }
    }

    /** Stages 2, 1 and 0, and the next routing decision. */
    method Advance(sopNextExpected: bool, offer: Option<Word>) returns (took: bool)
      requires Queue() && Ports(Passed()) && state != ToIcmp
      requires sopNextExpected ==> Start(consumed, Passed()) == Passed()
      requires !sopNextExpected ==> state != Hold && RouteOf(ByEtype, consumed, Passed()) == state
      modifies `stage2, `stage1, `stage0, `consumed, `state
      ensures Valid()
      ensures stage2.en == (old(stage2.en) || old(stage1.en))
      ensures stage1.en == ((old(stage1.en) && old(stage2.en)) || old(stage0.en))
      ensures var full := old(stage0.en && stage1.en && stage2.en);
              took == (offer.Some? && !full) && stage0.en == (took || full)
      ensures took ==> offer.Some?
      ensures consumed == old(consumed) + (if took then [offer.value] else [])
      ensures state == if sopNextExpected then Decide(ByEtype, Seen(), Passed()) else old(state)
    {
      hide RouteOf, Start, Decide, Split, Ports, Queue, Passed, Waiting, Seen;
      ghost var s, n := consumed, Passed();
      took := Shift(offer);
      if sopNextExpected { StartPrefix(s, consumed, n); } else { RouteOfPrefix(ByEtype, s, consumed, n); }
      UpdateState(sopNextExpected);
    }

    /** A word that is offered now is taken. */
    predicate Takes(readyArp: bool, readyIpv4: bool, readyOther: bool)
      reads `state, `arp, `ipv4, `other, `stage2, `stage1, `stage0
    {
      !(stage0.en && stage1.en && stage2.en) || Open(readyArp, readyIpv4, readyOther)
    }

    method Step(offer: Option<Word>, readyArp: bool, readyIpv4: bool, readyOther: bool) returns (took: bool)
      requires Valid()
      modifies this
      ensures Valid()
      // transfers
      ensures arp.sent == old(arp.sent) + Seq(old(arp).Put(readyArp))
      ensures ipv4.sent == old(ipv4.sent) + Seq(old(ipv4).Put(readyIpv4))
      ensures other.sent == old(other.sent) + Seq(old(other).Put(readyOther))
      ensures took ==> offer.Some?
      ensures consumed == old(consumed) + (if took then [offer.value] else [])
      // registers
      ensures var moved := old(stage2.en && Open(readyArp, readyIpv4, readyOther));
              && arp.slot.en == ((old(arp.slot.en) && !readyArp) || (moved && old(state) == ToArp))
              && ipv4.slot.en == ((old(ipv4.slot.en) && !readyIpv4) || (moved && old(state) == ToIpv4))
              && other.slot.en == ((old(other.slot.en) && !readyOther) || (moved && old(state) == ToOther))
              && stage2.en == ((old(stage2.en) && !moved) || old(stage1.en))
              && stage1.en == ((old(stage1.en) && old(stage2.en) && !moved) || old(stage0.en))
              && (var full := old(stage0.en && stage1.en && stage2.en) && !moved;
                  took == (offer.Some? && !full) && stage0.en == (took || full))
              && state == (if old(state) == Hold || (moved && old(stage2.word.Last()))
                           then Decide(ByEtype, Seen(), Passed()) else old(state))
      ensures took == (offer.Some? && old(Takes(readyArp, readyIpv4, readyOther)))
    {
      hide RouteOf, Start, Decide, Split, OutPort.All, Queue, Passed, Waiting, Seen;
      // output stage
      arp, ipv4, other := arp.Flush(readyArp), ipv4.Flush(readyIpv4), other.Flush(readyOther);
      var sopNextExpected := RouteWord();
      took := Advance(sopNextExpected, offer);
    }

    /** A call with ready sinks brings something nearer to the outputs if anything is left to move. */
    method Forward(offer: Option<Word>) returns (took: bool)
      requires Valid()
      modifies this
      ensures Valid()
      ensures took ==> offer.Some?
      ensures consumed == old(consumed) + (if took then [offer.value] else [])
      ensures arp.sent == old(arp.All()) && ipv4.sent == old(ipv4.All()) && other.sent == old(other.All())
      ensures old(Busy()) || offer.Some? ==> Distance() < old(Distance()) + (if took then 6 else 0)
      ensures !old(Busy()) && offer.None? ==> !Busy() && Distance() == old(Distance())
    {
      hide RouteOf, Start, Split, Routed, AllDecided, Queue, Seen, Decide;
      DecideSeen();
      took := Step(offer, true, true, true);
      DecideSeen();
    }

    /** With ready sinks and no further input the remaining distance to the outputs shrinks in every
        call, until each port has received every word that can be routed: a function of what was
        consumed alone. */
    method Settle()
      requires Valid()
      modifies this
      ensures Valid() && consumed == old(consumed)
      ensures arp.sent == Delivered(ByEtype, consumed, ToArp)
      ensures ipv4.sent == Delivered(ByEtype, consumed, ToIpv4)
      ensures other.sent == Delivered(ByEtype, consumed, ToOther)
      ensures Boundary(consumed) ==> !stage2.en && !stage1.en && !stage0.en
    {
      hide RouteOf, Start, Split, Routed, AllDecided, Queue, Seen, Decide, OutPort.All, Boundary;
      while Busy()
        invariant Valid() && consumed == old(consumed)
        decreases Distance()
      {
        ghost var s := consumed;
        var took := Forward(None);
        assert consumed == s;
      }
      Drained();
    }

    lemma NothingHeld()
      requires Valid() && consumed == []
      ensures !stage2.en && !stage1.en && !stage0.en
    {
    }

    /** What the routing stage can decide from stages 2 and 1. */
    lemma DecideSeen()
      requires Valid()
      ensures Queue() && Waiting() <= |consumed|
      ensures stage2.en ==> stage2.word == consumed[Passed()]
      ensures state != Hold ==> Open(true, true, true)
      ensures Decide(ByEtype, Seen(), Passed()) == Hold <==> !stage2.en || (!stage2.word.Last() && !stage1.en)
    {
    }

    lemma Drained()
      requires Valid() && !Busy()
      ensures arp.sent == Delivered(ByEtype, consumed, ToArp)
      ensures ipv4.sent == Delivered(ByEtype, consumed, ToIpv4)
      ensures other.sent == Delivered(ByEtype, consumed, ToOther)
      ensures Boundary(consumed) ==> !stage2.en
      ensures !stage1.en && !stage0.en
    {
      hide Start, AllDecided;
      if stage2.en { assert RouteOf(ByEtype, consumed, Passed()) == Hold; }
    }

    /** Source and sinks always ready: `n` calls emit max(0, n - 4) words in total whatever the packet
        lengths, because the call that forwards eop already decides the next route. */
    method FullRate(words: seq<Word>)
      requires Valid() && consumed == [] && arp == ipv4 == other == CLOSED && state == Hold
      modifies this
      ensures Valid() && consumed == words
      ensures |arp.sent| + |ipv4.sent| + |other.sent| == if |words| < 4 then 0 else |words| - 4
    {
      hide Valid, Queue, Seen, Decide, OutPort.All, Passed, Waiting;
      NothingHeld();
      DecideSeen();
      for i := 0 to |words|
        invariant Valid() && consumed == words[..i]
        invariant stage0.en == (i >= 1) && stage1.en == (i >= 2) && stage2.en == (i >= 3)
        invariant (state != Hold) == (i >= 3)
        invariant arp.slot.Count() + ipv4.slot.Count() + other.slot.Count() == if i >= 4 then 1 else 0
        invariant |arp.sent| + |ipv4.sent| + |other.sent| == if i < 4 then 0 else i - 4
      {
        var took := Step(Some(words[i]), true, true, true);
        DecideSeen();
      }
    }
  }

  // ---------- rx_split_by_ipv4proto ----------

  ghost predicate Split2(s: seq<Word>, n: nat, toIcmp: seq<Word>, toOther: seq<Word>)
    requires n <= |s|
  {
    && AllDecided(ByProto, s, n)
    && Routed(ByProto, s, n, ToIcmp) == toIcmp
    && Routed(ByProto, s, n, ToOther) == toOther
  }

  lemma Split2Next(s: seq<Word>, n: nat, toIcmp: seq<Word>, toOther: seq<Word>)
    requires n < |s| && Split2(s, n, toIcmp, toOther)
    ensures var d := RouteOf(ByProto, s, n);
            && (d == ToIcmp ==> Split2(s, n + 1, toIcmp + [s[n]], toOther))
            && (d == ToOther ==> Split2(s, n + 1, toIcmp, toOther + [s[n]]))
  {
    hide RouteOf;
  }

  lemma Split2Read(s: seq<Word>, w: Word, n: nat, toIcmp: seq<Word>, toOther: seq<Word>)
    requires n <= |s| && Split2(s, n, toIcmp, toOther)
    ensures Split2(s + [w], n, toIcmp, toOther)
  {
    hide Routed, RouteOf;
    DecidedPrefix(ByProto, s, s + [w], n);
    RoutedPrefix(ByProto, s, s + [w], n, ToIcmp);
    RoutedPrefix(ByProto, s, s + [w], n, ToOther);
  }

  class ProtoRouter {
    var icmp: OutPort
    var other: OutPort
    var stage3: Slot
    var stage2: Slot
    var stage1: Slot
    var stage0: Slot
    var state: Route

    ghost var consumed: seq<Word>

    ghost function Waiting(): nat reads `stage3, `stage2, `stage1, `stage0 {
      stage3.Count() + stage2.Count() + stage1.Count() + stage0.Count()
    }

    ghost function Passed(): (n: nat)
      reads `stage3, `stage2, `stage1, `stage0, `consumed
      ensures n <= |consumed|
    {
      if Waiting() <= |consumed| then |consumed| - Waiting() else 0
    }

    ghost predicate Ports(n: nat)
      requires n <= |consumed|
      reads `consumed, `icmp, `other
    {
      Split2(consumed, n, icmp.All(), other.All())
    }

    ghost predicate Queue()
      reads `stage3, `stage2, `stage1, `stage0, `consumed
    {
      && Waiting() <= |consumed|
      && (stage3.en ==> stage3.word == consumed[Passed()])
      && (stage2.en ==> stage2.word == consumed[Passed() + stage3.Count()])
      && (stage1.en ==> stage1.word == consumed[Passed() + stage3.Count() + stage2.Count()])
      && (stage0.en ==> stage0.word == consumed[|consumed| - 1])
    }

    ghost predicate Valid() reads this {
      && Queue() && Ports(Passed())
      && (state == Hold ==> Start(consumed, Passed()) == Passed())
      && (state != Hold ==> RouteOf(ByProto, consumed, Passed()) == state)
      && state != ToArp && state != ToIpv4
    }

    predicate Open(readyIcmp: bool, readyOther: bool)
      reads `state, `icmp, `other
    {
      match state
      case ToIcmp => icmp.Accepts(readyIcmp)
      case ToOther => other.Accepts(readyOther)
      case _ => false
    }

    predicate Busy() reads `icmp, `other, `stage3, `stage2, `stage1, `stage0, `state {
      || icmp.slot.en || other.slot.en
      || (stage3.en && state != Hold) || (stage2.en && !stage3.en)
      || (stage1.en && !stage2.en) || (stage0.en && !stage1.en)
      || (stage3.en && state == Hold && (stage3.word.Last() || (stage2.en && (stage2.word.Last() || stage1.en))))
    }

    function Distance(): nat reads `icmp, `other, `stage3, `stage2, `stage1, `stage0, `state {
      icmp.slot.Count() + other.slot.Count() + 3 * stage3.Count()
      + 4 * stage2.Count() + 5 * stage1.Count() + 6 * stage0.Count() + (if state == Hold then 1 else 0)
    }

    /** The words the routing decision can see: stages 3, 2 and 1, as far as they are filled without
        a gap. */
    ghost function Seen(): seq<Word>
      requires Queue()
      reads `stage3, `stage2, `stage1, `stage0, `consumed
    {
      consumed[..Passed() + if stage3.en then 1 + (if stage2.en then 1 + stage1.Count() else 0) else 0]
    }

    constructor ()
      ensures Valid() && consumed == [] && icmp == other == CLOSED
      ensures stage3 == stage2 == stage1 == stage0 == EMPTY && state == Hold
    {
      icmp, other := CLOSED, CLOSED;
      stage3, stage2, stage1, stage0 := EMPTY, EMPTY, EMPTY, EMPTY;
      state := Hold;
      consumed := [];
    }

    /** Stage 4: routing. */
    method RouteWord() returns (sopNextExpected: bool)
      requires Valid()
      modifies `icmp, `other, `stage3
      ensures Queue() && Ports(Passed())
      ensures sopNextExpected ==> Start(consumed, Passed()) == Passed()
      ensures !sopNextExpected ==> state != Hold && RouteOf(ByProto, consumed, Passed()) == state
      ensures var moved := old(stage3.en && Open(false, false));
              && sopNextExpected == (state == Hold || (moved && old(stage3.word.Last())))
              && stage3.en == (old(stage3.en) && !moved)
              && icmp == (if moved && state == ToIcmp then old(icmp).Load(old(stage3.word)) else old(icmp))
              && other == (if moved && state == ToOther then old(other).Load(old(stage3.word)) else old(other))
    {
      hide RouteOf, Start, Split2, OutPort.All, OutPort.Load;
      ghost var n := Passed();
      if stage3.en {
        Split2Next(consumed, n, icmp.All(), other.All());
        NextPacket(ByProto, consumed, n);
      }
      sopNextExpected := false;
      match state {
        case ToIcmp =>
          if !icmp.slot.en && stage3.en {
            sopNextExpected := stage3.word.Last();
            icmp := icmp.Load(stage3.word);
            stage3 := stage3.(en := false);
          }
        case ToOther =>
          if !other.slot.en && stage3.en {
            sopNextExpected := stage3.word.Last();
            other := other.Load(stage3.word);
            stage3 := stage3.(en := false);
          }
        case _ => sopNextExpected := true;
      }
    }

    /** Stages 3 to 0. */
    method Shift(offer: Option<Word>) returns (took: bool)
      requires Queue() && Ports(Passed())
      modifies `stage3, `stage2, `stage1, `stage0, `consumed
      ensures Queue() && Passed() == old(Passed()) && Ports(Passed())
      ensures stage3.en == (old(stage3.en) || old(stage2.en))
      ensures stage2.en == ((old(stage2.en) && old(stage3.en)) || old(stage1.en))
      ensures stage1.en == ((old(stage1.en) && old(stage2.en) && old(stage3.en)) || old(stage0.en))
      ensures var full := old(stage0.en && stage1.en && stage2.en && stage3.en);
              took == (offer.Some? && !full) && stage0.en == (took || full)
      ensures took ==> offer.Some?
      ensures consumed == old(consumed) + (if took then [offer.value] else [])
    {
      hide Split2, OutPort.All;
      if !stage3.en && stage2.en {
        stage3 := stage2;
        stage2 := stage2.(en := false);
      }
      if !stage2.en && stage1.en {
        stage2 := stage1;
        stage1 := stage1.(en := false);
      }
      if !stage1.en && stage0.en {
        stage1 := stage0;
        stage0 := stage0.(en := false);
      }
      took := Input(offer);
    }

    /** Stage 0. */
    method Input(offer: Option<Word>) returns (took: bool)
      requires Queue() && Ports(Passed())
      modifies `stage0, `consumed
      ensures Queue() && Passed() == old(Passed()) && Ports(Passed())
      ensures took == (offer.Some? && !old(stage0.en)) && stage0.en == (took || old(stage0.en))
      ensures consumed == old(consumed) + (if took then [offer.value] else [])
    {
      hide Split2, OutPort.All;
      took := false;
      if !stage0.en && offer.Some? {
        took := true;
        Split2Read(consumed, offer.value, Passed(), icmp.All(), other.All());
        stage0 := Slot(true, offer.value);
        consumed := consumed + [offer.value];
      }
    }

    lemma NextRoute()
      requires Queue()
      ensures Seen() <= consumed
      ensures Decide(ByProto, Seen(), Passed()) ==
        if !stage3.en then Hold else if stage3.word.Last() then ToOther
        else if !stage2.en then Hold else if stage2.word.Last() then ToOther
        else if stage1.en then ProtoRoute(stage1.word) else Hold
    {
    }

    method UpdateState(sopNextExpected: bool)
      requires Queue() && Ports(Passed()) && state != ToArp && state != ToIpv4
      requires sopNextExpected ==> Start(consumed, Passed()) == Passed()
      requires !sopNextExpected ==> state != Hold && RouteOf(ByProto, consumed, Passed()) == state
      modifies `state
      ensures Valid()
      ensures state == if sopNextExpected then Decide(ByProto, Seen(), Passed()) else old(state)
    {
      hide Start, Ports, Decide, Seen, Queue;
      NextRoute();
      if sopNextExpected {
        if stage3.en {
          if stage3.word.Last() {
            state := ToOther;
          } else if stage2.en {
            if stage2.word.Last() {
              state := ToOther;
            } else if stage1.en {
              state := ProtoRoute(stage1.word);
            } else {
              state := Hold;
            }
          } else {
            state := Hold;
          }
        } else {
          state := Hold;
        }
        if state != Hold { DecidePrefix(ByProto, Seen(), consumed, Passed()); }
      }
    }

    /** Stages 3 to 0, and the next routing decision. */
    method Advance(sopNextExpected: bool, offer: Option<Word>) returns (took: bool)
      requires Queue() && Ports(Passed()) && state != ToArp && state != ToIpv4
      requires sopNextExpected ==> Start(consumed, Passed()) == Passed()
      requires !sopNextExpected ==> state != Hold && RouteOf(ByProto, consumed, Passed()) == state
      modifies `stage3, `stage2, `stage1, `stage0, `consumed, `state
      ensures Valid()
      ensures stage3.en == (old(stage3.en) || old(stage2.en))
      ensures stage2.en == ((old(stage2.en) && old(stage3.en)) || old(stage1.en))
      ensures stage1.en == ((old(stage1.en) && old(stage2.en) && old(stage3.en)) || old(stage0.en))
      ensures var full := old(stage0.en && stage1.en && stage2.en && stage3.en);
              took == (offer.Some? && !full) && stage0.en == (took || full)
      ensures took ==> offer.Some?
      ensures consumed == old(consumed) + (if took then [offer.value] else [])
      ensures state == if sopNextExpected then Decide(ByProto, Seen(), Passed()) else old(state)
    {
      hide RouteOf, Start, Decide, Split2, Ports, Queue, Passed, Waiting, Seen;
      ghost var s, n := consumed, Passed();
      took := Shift(offer);
      if sopNextExpected { StartPrefix(s, consumed, n); } else { RouteOfPrefix(ByProto, s, consumed, n); }
      UpdateState(sopNextExpected);
    }

    /** A word that is offered now is taken. */
    predicate Takes(readyIcmp: bool, readyOther: bool)
      reads `state, `icmp, `other, `stage3, `stage2, `stage1, `stage0
    {
      !(stage0.en && stage1.en && stage2.en && stage3.en) || Open(readyIcmp, readyOther)
    }

    method Step(offer: Option<Word>, readyIcmp: bool, readyOther: bool) returns (took: bool)
      requires Valid()
      modifies this
      ensures Valid()
      // transfers
      ensures icmp.sent == old(icmp.sent) + Seq(old(icmp).Put(readyIcmp))
      ensures other.sent == old(other.sent) + Seq(old(other).Put(readyOther))
      ensures took ==> offer.Some?
      ensures consumed == old(consumed) + (if took then [offer.value] else [])
      // registers
      ensures var moved := old(stage3.en && Open(readyIcmp, readyOther));
              && icmp.slot.en == ((old(icmp.slot.en) && !readyIcmp) || (moved && old(state) == ToIcmp))
              && other.slot.en == ((old(other.slot.en) && !readyOther) || (moved && old(state) == ToOther))
              && stage3.en == ((old(stage3.en) && !moved) || old(stage2.en))
              && stage2.en == ((old(stage2.en) && old(stage3.en) && !moved) || old(stage1.en))
              && stage1.en == ((old(stage1.en) && old(stage2.en) && old(stage3.en) && !moved) || old(stage0.en))
              && (var full := old(stage0.en && stage1.en && stage2.en && stage3.en) && !moved;
                  took == (offer.Some? && !full) && stage0.en == (took || full))
              && state == (if old(state) == Hold || (moved && old(stage3.word.Last()))
                           then Decide(ByProto, Seen(), Passed()) else old(state))
      ensures took == (offer.Some? && old(Takes(readyIcmp, readyOther)))
    {
      hide RouteOf, Start, Decide, Split2, OutPort.All, Queue, Passed, Waiting, Seen;
      // output stage
      icmp, other := icmp.Flush(readyIcmp), other.Flush(readyOther);
      var sopNextExpected := RouteWord();
      took := Advance(sopNextExpected, offer);
    }

    method Forward(offer: Option<Word>) returns (took: bool)
      requires Valid()
      modifies this
      ensures Valid()
      ensures took ==> offer.Some?
      ensures consumed == old(consumed) + (if took then [offer.value] else [])
      ensures icmp.sent == old(icmp.All()) && other.sent == old(other.All())
      ensures old(Busy()) || offer.Some? ==> Distance() < old(Distance()) + (if took then 7 else 0)
      ensures !old(Busy()) && offer.None? ==> !Busy() && Distance() == old(Distance())
    {
      hide RouteOf, Start, Split2, Routed, AllDecided, Queue, Seen, Decide;
      DecideSeen();
      took := Step(offer, true, true);
      DecideSeen();
    }

    method Settle()
      requires Valid()
      modifies this
      ensures Valid() && consumed == old(consumed)
      ensures icmp.sent == Delivered(ByProto, consumed, ToIcmp)
      ensures other.sent == Delivered(ByProto, consumed, ToOther)
      ensures Boundary(consumed) ==> !stage3.en && !stage2.en && !stage1.en && !stage0.en
    {
      hide RouteOf, Start, Split2, Routed, AllDecided, Queue, Seen, Decide, OutPort.All, Boundary;
      while Busy()
        invariant Valid() && consumed == old(consumed)
        decreases Distance()
      {
        ghost var s := consumed;
        var took := Forward(None);
        assert consumed == s;
      }
      Drained();
    }

    lemma NothingHeld()
      requires Valid() && consumed == []
      ensures !stage3.en && !stage2.en && !stage1.en && !stage0.en
    {
    }

    /** What the routing stage can decide from stages 3, 2 and 1. */
    lemma DecideSeen()
      requires Valid()
      ensures Queue() && Waiting() <= |consumed|
      ensures stage3.en ==> stage3.word == consumed[Passed()]
      ensures stage2.en && stage3.en ==> stage2.word == consumed[Passed() + 1]
      ensures state != Hold ==> Open(true, true)
      ensures Decide(ByProto, Seen(), Passed()) == Hold <==>
        !stage3.en || (!stage3.word.Last() && (!stage2.en || (!stage2.word.Last() && !stage1.en)))
    {
      hide Start, RouteOf, Ports;
    }

    lemma Drained()
      requires Valid() && !Busy()
      ensures icmp.sent == Delivered(ByProto, consumed, ToIcmp)
      ensures other.sent == Delivered(ByProto, consumed, ToOther)
      ensures Boundary(consumed) ==> !stage3.en && !stage2.en
      ensures !stage1.en && !stage0.en
    {
      hide Start, AllDecided;
      if stage3.en {
        var n := Passed();
        assert RouteOf(ByProto, consumed, n) == Hold;
        if stage2.en {
          UndecidedTail(ByProto, consumed, n, n + 1);
          assert Routed(ByProto, consumed, n + 1, ToIcmp) == Routed(ByProto, consumed, n, ToIcmp);
          assert Routed(ByProto, consumed, n + 1, ToOther) == Routed(ByProto, consumed, n, ToOther);
        }
      }
    }

    /** One more word of lookahead costs one more call: max(0, n - 5). */
    method FullRate(words: seq<Word>)
      requires Valid() && consumed == [] && icmp == other == CLOSED && state == Hold
      modifies this
      ensures Valid() && consumed == words
      ensures |icmp.sent| + |other.sent| == if |words| < 5 then 0 else |words| - 5
    {
      hide Valid, Queue, Seen, Decide, OutPort.All, Passed, Waiting;
      NothingHeld();
      DecideSeen();
      for i := 0 to |words|
        invariant Valid() && consumed == words[..i]
        invariant stage0.en == (i >= 1) && stage1.en == (i >= 2) && stage2.en == (i >= 3) && stage3.en == (i >= 4)
        invariant (state != Hold) == (i >= 4)
        invariant icmp.slot.Count() + other.slot.Count() == if i >= 5 then 1 else 0
        invariant |icmp.sent| + |other.sent| == if i < 5 then 0 else i - 5
      {
        var took := Step(Some(words[i]), true, true);
        DecideSeen();
      }
    }
  }
}
