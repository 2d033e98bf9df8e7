/** Two runs of arp_proc that end with a reply no requester asked for, one for each cause. */
module ArpWitness {
  import opened Basics
  import opened Words
  import opened ArpSpec
  import opened ArpProc

  /** The request for this device's address by `from`, in a minimal 60-byte frame. */
  function RequestFrom(from: Peer): (p: Packet)
    ensures |p| == 8 && RequestsOwn(p) && SenderOf(p) == from
  {
    [Lanes(0xFFFF, 0xFFFF, 0xFFFF, from.mac.m0).(sop := 1),
     Lanes(from.mac.m1, from.mac.m2, 0x0806, 0x0001),
     Lanes(0x0800, 0x0604, 0x0001, from.mac.m0),
     Lanes(from.mac.m1, from.mac.m2, from.ip.hi, from.ip.lo),
     Lanes(0, 0, 0, OWN_IP.hi),
     Lanes(OWN_IP.lo, 0, 0, 0),
     Lanes(0, 0, 0, 0),
     Lanes(0, 0, 0, 0).(eop := 1, empty := 4)]
  }

  /** What the window sees when the first `k` words of the request have been read. */
  lemma Windows(base: seq<Word>, from: Peer, k: nat)
    requires Clear(base) && 0 < k <= 8
    ensures var s, n := base + RequestFrom(from)[..k], |base| + k - 1;
            (AsksOwn(s, n) <==> k == 6) && (k == 6 ==> Sender(s, n) == from)
  {
    var p := RequestFrom(from);
    hide AsksOwn, Sender;
    OncePerPacket(base, p, k - 1);
    assert base + p[..k] <= base + p;
    WindowPrefix(base + p[..k], base + p, |base| + k - 1);
  }

  /** The word offered in call `k`, and none after the last. */
  function Word8(p: Packet, k: nat): Option<Word>
    requires |p| == 8
  {
    if k < 8 then Some(p[k]) else None
  }

  /** A device at rest hears a request while its output is not accepted: word 0 of the reply is loaded and
      stays in the output register. */
  method HearFirst(u: ArpUnit, from: Peer)
    requires u.Valid() && u.out == CLOSED && u.mode == Idle && !u.rpyStdby && !u.reqStdby && !u.stage0.en
    requires u.consumed == [] && u.accepted == [] && u.frames == []
    modifies u
    ensures u.Valid() && u.consumed == RequestFrom(from) && u.accepted == [from] && u.frames == [] && !u.stage0.en
    ensures Loading(u, 1, Reply(0, false, false, false)) && u.out.slot.en && !u.rpyStdby
  {
    hide ArpUnit.Valid, AsksOwn, Announces, Sender, ArpUnit.NextWord, OutPort.Put, RequestFrom;
    var p := RequestFrom(from);
    for k := 0 to 9
      invariant u.Valid() && u.consumed == p[..if k < 8 then k else 8] && u.stage0.en == (0 < k < 9)
      invariant u.frames == [] && !u.rpyStdby && !u.reqStdby
      invariant k < 7 ==> u.mode == Idle && u.accepted == [] && !u.out.slot.en
      invariant k >= 7 ==> u.accepted == [from] && Loading(u, if k == 7 then 0 else 1, Reply(0, false, false, false))
      invariant k == 7 ==> !u.out.slot.en
      invariant k > 7 ==> u.out.slot.en
    {
      if 0 < k <= 8 {
        Windows([], from, k);
        assert [] + p[..k] == p[..k];
      }
      ghost var took, load, free, accept, refresh;
      took, load, free, accept, refresh := u.Step(Word8(p, k), false, false);
    }
    assert p[..8] == p;
  }

  /** `n` words of the reply `f` have been loaded, and nothing else is to be sent. */
  ghost predicate Loading(u: ArpUnit, n: nat, f: Frame)
    reads u
  {
    u.mode == SendReply && u.sendIdx == n && u.current == f && !u.reqStdby
  }

  /** A second request arrives while the output is still not accepted. */
  method HearSecond(u: ArpUnit, from: Peer)
    requires u.Valid() && Clear(u.consumed) && !u.stage0.en && u.frames == []
    requires Loading(u, 1, Reply(0, false, false, false)) && u.out.slot.en && !u.rpyStdby
    modifies u
    ensures u.Valid() && u.accepted == old(u.accepted) + [from] && u.frames == [] && !u.stage0.en
    ensures Loading(u, 1, Reply(0, false, false, false)) && u.out.slot.en && u.rpyStdby
  {
    hide ArpUnit.Valid, AsksOwn, Announces, Sender, ArpUnit.NextWord, OutPort.Put, RequestFrom, Clear;
    ghost var base := u.consumed;
    var p := RequestFrom(from);
    for k := 0 to 9
      invariant u.Valid() && u.consumed == base + p[..if k < 8 then k else 8] && u.stage0.en == (0 < k < 9)
      invariant u.frames == [] && Loading(u, 1, Reply(0, false, false, false)) && u.out.slot.en
      invariant u.accepted == old(u.accepted) + (if k >= 7 then [from] else []) && u.rpyStdby == (k >= 7)
    {
      if 0 < k <= 8 { Windows(base, from, k); }
      ghost var took, load, free, accept, refresh;
      took, load, free, accept, refresh := u.Step(Word8(p, k), false, false);
    }
  }

  /** The rest of the reply leaves. */
  method Deliver(u: ArpUnit)
    requires u.Valid() && !u.stage0.en && u.frames == []
    requires Loading(u, 1, Reply(0, false, false, false))
    modifies u
    ensures u.Valid() && u.accepted == old(u.accepted)
    ensures u.frames == [Reply(0, false, old(u.rpyStdby), old(u.rpyStdby))]
  {
    hide ArpUnit.Valid, AsksOwn, Announces, Sender, ArpUnit.NextWord, OutPort.Put;
    ghost var late := u.rpyStdby;
    for n := 1 to 6
      invariant u.Valid() && u.accepted == old(u.accepted) && !u.stage0.en
      invariant n < 6 ==> u.rpyStdby == late && u.frames == []
      invariant n < 6 ==> Loading(u, n, Reply(0, false, n > 4 && late, false))
      invariant n == 6 ==> u.frames == [Reply(0, false, late, late)]
    {
      ghost var took, load, free, accept, refresh;
      took, load, free, accept, refresh := u.Step(None, true, false);
    }
  }

  /** A second requester is accepted while the reply to the first waits for the output: the first reply is
      not the RFC 826 reply to its request, for any two requesters that differ in hardware address or in
      the lower half of the protocol address. */
  method SecondRequester(first: Peer, second: Peer) returns (u: ArpUnit)
    requires first.mac != second.mac || first.ip.lo != second.ip.lo
    ensures u.Valid() && u.accepted == [first, second] && u.frames == [Reply(0, false, true, true)]
    ensures UsedLanes(FrameWords(u.frames[0], u.accepted, 6)) != Rfc826Reply(first)
  {
    hide ArpUnit.Valid, FrameWords;
    u := new ArpUnit();
    HearFirst(u, first);
    HearSecond(u, second);
    Deliver(u);
    u.ReplyExact(0);
  }

  /** A requester outside the gateway's upper sixteen address bits is alone and still not answered rightly. */
  method FarRequester(from: Peer) returns (u: ArpUnit)
    requires from.ip.hi != GTW_IP.hi
    ensures u.Valid() && u.accepted == [from] && u.frames == [Reply(0, false, false, false)]
    ensures UsedLanes(FrameWords(u.frames[0], u.accepted, 6)) != Rfc826Reply(from)
  {
    hide ArpUnit.Valid, FrameWords;
    u := new ArpUnit();
    HearFirst(u, from);
    Deliver(u);
    u.ReplyExact(0);
  }
}
