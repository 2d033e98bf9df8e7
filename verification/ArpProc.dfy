/** arp_proc as a clocked machine: a transmit sequencer with two pending flags, a six-word input
    window and the gateway cache timer. */
module ArpProc {
  import opened Basics
  import opened Words
  import opened ArpSpec

  datatype Mode = Idle | SendRequest | SendReply

  /** A request for this device's address, and whether it was taken on. */
  datatype Asked = Asked(from: Peer, taken: bool)

  function Senders(asked: seq<Asked>): seq<Peer> {
    if asked == [] then [] else Senders(asked[..|asked| - 1]) + [asked[|asked| - 1].from]
  }

  function Taken(asked: seq<Asked>): seq<Peer> {
    if asked == [] then []
    else
      var a := asked[|asked| - 1];
      Taken(asked[..|asked| - 1]) + (if a.taken then [a.from] else [])
  }

  /** What one call of arp_proc finds: a word to read or none, room for a word or not, a pps tick or not. */
  datatype Call = Call(offer: Option<Word>, ready: bool, pps: bool)

  function Inputs(calls: seq<Call>): seq<Word> {
    if calls == [] then [] else Inputs(calls[..|calls| - 1]) + Seq(calls[|calls| - 1].offer)
  }

  lemma InputsSnoc(calls: seq<Call>, c: Call)
    ensures Inputs(calls + [c]) == Inputs(calls) + Seq(c.offer)
  {
    assert (calls + [c])[..|calls|] == calls;
  }

  /** What a call did to the cache timer: a gateway announcement was received, a request was called for. */
  datatype Beat = Beat(call: Call, refresh: bool, arm: bool)

  /** The calls behind the beats. */
  function Made(b: seq<Beat>): seq<Call> {
    if b == [] then [] else Made(b[..|b| - 1]) + [b[|b| - 1].call]
  }

  lemma MadeSnoc(b: seq<Beat>, x: Beat)
    ensures Made(b + [x]) == Made(b) + [x.call]
  {
    assert (b + [x])[..|b|] == b;
  }

  /** The pps ticks in calls `lo` to `hi - 1`. */
  function Pulses(b: seq<Beat>, lo: nat, hi: nat): nat
    requires hi <= |b|
  {
    if lo >= hi then 0 else Pulses(b, lo, hi - 1) + (if b[hi - 1].call.pps then 1 else 0)
  }

  /** The ticks after call `j` and before call `i`. */
  function Since(b: seq<Beat>, j: nat, i: nat): nat
    requires i <= |b|
  {
    Pulses(b, j + 1, i)
  }

  /** Before call `i` there is no announcement with fewer than sixteen ticks after it. */
  ghost predicate Stale(b: seq<Beat>, i: nat)
    requires i <= |b|
  {
    forall j :: 0 <= j < i && b[j].refresh ==> Since(b, j, i) >= 16
  }

  /** A request is called for by exactly the ticks that find the cache stale. */
  ghost predicate OnSchedule(b: seq<Beat>) {
    forall i :: 0 <= i < |b| ==> (b[i].arm <==> b[i].call.pps && Stale(b, i))
  }

  /** `ticks` counts from the newest announcement. */
  ghost predicate Counted(b: seq<Beat>, refreshed: bool, ticks: nat) {
    && (refreshed ==> exists j :: 0 <= j < |b| && b[j].refresh && Since(b, j, |b|) == ticks)
    && (forall j :: 0 <= j < |b| && b[j].refresh ==> refreshed && Since(b, j, |b|) >= ticks)
  }

  lemma {:induction false} PulsesSame(b: seq<Beat>, c: seq<Beat>, lo: nat, hi: nat)
    requires hi <= |b| && hi <= |c| && forall k :: lo <= k < hi ==> b[k].call.pps == c[k].call.pps
    ensures Pulses(b, lo, hi) == Pulses(c, lo, hi)
    decreases hi
  {
    if lo < hi { PulsesSame(b, c, lo, hi - 1); }
  }

  lemma StaleSame(b: seq<Beat>, c: seq<Beat>, i: nat)
    requires i <= |b| && i <= |c|
    requires forall k :: 0 <= k < i ==> b[k].call.pps == c[k].call.pps && b[k].refresh == c[k].refresh
    ensures Stale(b, i) == Stale(c, i)
  {
    forall j | 0 <= j < i ensures Since(b, j, i) == Since(c, j, i) { PulsesSame(b, c, j + 1, i); }
  }

  /** One more tick, or none, that finds the counter at zero or not. */
  lemma BeatSnoc(b: seq<Beat>, call: Call, refreshed: bool, ticks: nat)
    requires OnSchedule(b) && Counted(b, refreshed, ticks)
    ensures var c := b + [Beat(call, false, call.pps && (!refreshed || ticks >= 16))];
            OnSchedule(c) && Counted(c, refreshed, if call.pps then ticks + 1 else ticks)
  {
    var c := b + [Beat(call, false, call.pps && (!refreshed || ticks >= 16))];
    var n := |b|;
    forall j | 0 <= j < n ensures Since(c, j, n + 1) == Since(b, j, n) + (if call.pps then 1 else 0) {
      PulsesSame(b, c, j + 1, n);
    }
    forall i | 0 <= i <= n ensures Stale(c, i) == Stale(b, i) { StaleSame(b, c, i); }
    assert Stale(b, n) <==> !refreshed || ticks >= 16;
    if refreshed {
      var j :| 0 <= j < n && b[j].refresh && Since(b, j, n) == ticks;
      assert c[j].refresh && Since(c, j, n + 1) == if call.pps then ticks + 1 else ticks;
    }
  }

  /** The call under way receives an announcement. */
  function Refreshed(b: seq<Beat>): seq<Beat>
    requires b != []
  {
    b[..|b| - 1] + [b[|b| - 1].(refresh := true)]
  }

  lemma BeatRefreshed(b: seq<Beat>)
    requires b != [] && OnSchedule(b)
    ensures OnSchedule(Refreshed(b)) && Counted(Refreshed(b), true, 0)
  {
    var c, n := Refreshed(b), |b| - 1;
    forall i | 0 <= i <= n ensures Stale(c, i) == Stale(b, i) { StaleSame(b, c, i); }
    assert c[n].refresh && Since(c, n, n + 1) == 0;
  }

  lemma AskedSnoc(asked: seq<Asked>, a: Asked)
    ensures Senders(asked + [a]) == Senders(asked) + [a.from]
    ensures Taken(asked + [a]) == Taken(asked) + (if a.taken then [a.from] else [])
  {
    assert (asked + [a])[..|asked|] == asked;
  }

  class ArpUnit {
    var out: OutPort
    var sendIdx: nat
    var rpyStdby: bool
    var reqStdby: bool
    var mode: Mode
    var stage5: Word
    var stage4: Word
    var stage3: Word
    var stage2: Word
    var stage1: Word
    var stage0: Slot
    var rpyPeer: Peer
    var cacheCount: nat

    ghost var consumed: seq<Word>
    ghost var asked: seq<Asked>       // requests for this device's address, in the order of arrival
    ghost var accepted: seq<Peer>     // the senders of those that were taken on
    ghost var frames: seq<Frame>      // frames completely loaded
    ghost var current: Frame          // the frame being loaded when mode is not Idle
    ghost var refreshed: bool         // a gateway announcement has been seen
    ghost var ticks: nat              // pps ticks since the last one
    ghost var beats: seq<Beat>        // what each call did to the timer

    ghost function Processed(): int reads `consumed, `stage0 { |consumed| - stage0.Count() }

    /** The input registers are the last six words. */
    ghost predicate Window()
      reads `stage5, `stage4, `stage3, `stage2, `stage1, `stage0, `consumed
    {
      && 0 <= Processed()
      && var n := Processed();
      && (stage0.en ==> stage0.word == At(consumed, n))
      && stage1 == At(consumed, n - 1) && stage2 == At(consumed, n - 2) && stage3 == At(consumed, n - 3)
      && stage4 == At(consumed, n - 4) && stage5 == At(consumed, n - 5)
    }

    /** Replies started. */
    ghost function Started(): nat reads `frames, `mode {
      Replies(frames) + if mode == SendReply then 1 else 0
    }

    /** The current frame records truly whether another request was pending when its words were loaded. */
    ghost predicate CurrentOk()
      reads `mode, `current, `sendIdx, `frames, `rpyStdby
    {
      && (mode != Idle ==> sendIdx < 6)
      && (mode == SendRequest ==> current.Request?)
      && (mode == SendReply ==>
            && current.Reply? && current.req == Replies(frames)
            && ((current.late0 || current.late4) ==> rpyStdby)
            && (sendIdx > 4 && current.late0 ==> current.late4))
    }

    /** The output is the complete frames followed by the loaded part of the current one. */
    ghost predicate Sent()
      reads `out, `frames, `accepted, `mode, `current, `sendIdx
    {
      && AllRefer(frames, |accepted|) && AllInOrder(frames)
      && out.All() == Render(frames, accepted) + (if mode == Idle then [] else FrameWords(current, accepted, sendIdx))
    }

    /** Every accepted request is answered once or still pending. */
    ghost predicate Answered()
      reads `frames, `mode, `rpyStdby, `accepted, `rpyPeer
    {
      && Started() + (if rpyStdby then 1 else 0) == |accepted|
      && (accepted != [] ==> rpyPeer == accepted[|accepted| - 1])
    }

    /** The cache counter is what is left of the lifetime since the last announcement. */
    ghost predicate Timer()
      reads `cacheCount, `refreshed, `ticks, `beats
    {
      && cacheCount == (if refreshed && ticks < CACHE_LIFETIME then CACHE_LIFETIME - ticks else 0)
      && OnSchedule(beats) && Counted(beats, refreshed, ticks)
    }

    /** Every request for this device's address in the first `n` words has been noticed, and the accepted
        ones are those taken on. */
    ghost predicate HeardTo(n: int)
      reads `consumed, `asked, `accepted
    {
      Senders(asked) == Asking(consumed, n) && accepted == Taken(asked)
    }

    ghost predicate Heard() reads `consumed, `stage0, `asked, `accepted { HeardTo(Processed()) }

    ghost predicate Core() reads this {
      Window() && CurrentOk() && Sent() && Answered() && Timer()
    }

    ghost predicate Valid() reads this { Core() && Heard() }

    constructor ()
      ensures Valid() && out == CLOSED && mode == Idle && !rpyStdby && !reqStdby
      ensures consumed == [] && asked == [] && accepted == [] && frames == [] && !refreshed && !stage0.en
      ensures beats == []
    {
      out, sendIdx, rpyStdby, reqStdby, mode := CLOSED, 0, false, false, Idle;
      stage5, stage4, stage3, stage2, stage1, stage0 := NO_WORD, NO_WORD, NO_WORD, NO_WORD, NO_WORD, EMPTY;
      rpyPeer, cacheCount := Peer(Mac(0, 0, 0), Ip(0, 0)), 0;
      consumed, asked, accepted, frames, current := [], [], [], [], Request;
      refreshed, ticks, beats := false, 0, [];
    }

    /** The word loaded next: the table entry for `sendIdx` with the variable fields filled in. */
    function NextWord(): Word
      reads `mode, `sendIdx, `rpyPeer
    {
      var toMac := if mode == SendRequest then BCAST_MAC else rpyPeer.mac;
      match sendIdx
      case 0 => Lanes(toMac.m0, toMac.m1, toMac.m2, OWN_MAC.m0).(sop := 1)
      case 1 => Lanes(OWN_MAC.m1, OWN_MAC.m2, 0x0806, 0x0001)
      case 2 => Lanes(0x0800, 0x0604, if mode == SendRequest then 0x0001 else 0x0002, OWN_MAC.m0)
      case 3 => Lanes(OWN_MAC.m1, OWN_MAC.m2, OWN_IP.hi, OWN_IP.lo)
      case 4 => Lanes(toMac.m0, toMac.m1, toMac.m2, GTW_IP.hi)
      case _ => Lanes(if mode == SendRequest then GTW_IP.lo else rpyPeer.ip.lo, 0, 0, 0).(eop := 1, empty := 6)
    }

    /** Load the next word of the frame being sent. */
    method LoadWord()
      requires Valid()
      modifies `out, `sendIdx, `mode, `frames, `current
      ensures Valid()
      ensures out.sent == old(out.sent)
      ensures var load := !old(out.slot.en) && old(mode) != Idle;
              && out.slot.en == (old(out.slot.en) || load)
              && mode == (if load && old(sendIdx) == 5 then Idle else old(mode))
              && sendIdx == (if load then old(sendIdx) + 1 else old(sendIdx))
              && |frames| == |old(frames)| + (if load && old(sendIdx) == 5 then 1 else 0)
              && (load ==> out.slot.word == old(NextWord()))
              && (var f := if load then Fill(old(current), old(sendIdx), rpyStdby) else old(current);
                  if load && old(sendIdx) == 5 then frames == old(frames) + [f]
                  else frames == old(frames) && current == f)
    {
      hide Render, FrameWords, AllRefer, AllInOrder, InOrder, OutPort.All, OutPort.Load, Replies, Window, Timer,
           Refers, NextWord;
      if !out.slot.en && mode != Idle {
        PutWord();
        if sendIdx == 6 { FinishFrame(); }
      }
    }

    method PutWord()
      requires Core() && !out.slot.en && mode != Idle
      modifies `out, `sendIdx, `current
      ensures out == old(out).Load(old(NextWord())) && sendIdx == old(sendIdx) + 1
      ensures current == Fill(old(current), old(sendIdx), rpyStdby)
      ensures out.All() == Render(frames, accepted) + FrameWords(current, accepted, sendIdx)
      ensures sendIdx < 6 ==> CurrentOk()
      ensures sendIdx == 6 ==> Refers(current, |accepted|) && InOrder(current, Replies(frames))
      ensures mode == SendReply <==> current.Reply?
    {
      FillCurrent();
      Extended();
      hide Render, FrameWords, FrameWord, AllRefer, AllInOrder, InOrder, OutPort.All, OutPort.Load, Replies, Refers,
           NextWord, Fill, Window, Answered, Timer, Sent;
      out := out.Load(NextWord());
      sendIdx := sendIdx + 1;
    }

    /** The output with the next word. */
    lemma Extended()
      requires Sent() && mode != Idle && FrameWord(current, accepted, sendIdx) == NextWord()
      ensures out.All() + [NextWord()] == Render(frames, accepted) + FrameWords(current, accepted, sendIdx + 1)
    {
      hide Render, FrameWord, AllRefer, AllInOrder, OutPort.All, NextWord;
    }

    /** The last word of a frame has been loaded. */
    method FinishFrame()
      requires mode != Idle && sendIdx == 6 && Answered()
      requires Refers(current, |accepted|) && InOrder(current, Replies(frames))
      requires mode == SendReply <==> current.Reply?
      requires AllRefer(frames, |accepted|) && AllInOrder(frames)
      requires out.All() == Render(frames, accepted) + FrameWords(current, accepted, 6)
      modifies `mode, `frames
      ensures mode == Idle && frames == old(frames) + [current]
      ensures CurrentOk() && Sent() && Answered()
    {
      hide Render, FrameWords, AllRefer, AllInOrder, InOrder, OutPort.All, Replies, Refers;
      RenderSnoc(frames, current, accepted);
      InOrderSnoc(frames, current);
      ReferSnoc(frames, current, |accepted|);
      frames := frames + [current];
      mode := Idle;
      assert Render(frames, accepted) + [] == Render(frames, accepted);
    }

    /** Record whether another request is pending: the next word is filled from the one on file now. */
    ghost method FillCurrent()
      requires CurrentOk() && Sent() && Answered() && mode != Idle
      modifies `current
      ensures CurrentOk() && Sent() && Answered()
      ensures current == Fill(old(current), sendIdx, rpyStdby)
      ensures FrameWord(current, accepted, sendIdx) == NextWord()
      ensures mode == SendReply && sendIdx >= 4 && current.late0 ==> current.late4
      ensures sendIdx == 5 ==> Refers(current, |accepted|) && InOrder(current, Replies(frames))
    {
      hide Render, AllRefer, AllInOrder, OutPort.All, Replies, NextWord, FrameWord;
      ghost var g := Fill(current, sendIdx, rpyStdby);
      FillSame(g);
      FillNext(g);
      current := g;
    }

    /** The words loaded before stay as they are. */
    lemma FillSame(g: Frame)
      requires CurrentOk() && mode != Idle && g == Fill(current, sendIdx, rpyStdby)
      ensures FrameWords(g, accepted, sendIdx) == FrameWords(current, accepted, sendIdx)
    {
      if mode == SendReply { FrameWordsRefine(current, g, accepted, sendIdx); }
    }

    lemma FillNext(g: Frame)
      requires CurrentOk() && Answered() && mode != Idle && g == Fill(current, sendIdx, rpyStdby)
      ensures FrameWord(g, accepted, sendIdx) == NextWord()
    {
      hide Replies;
    }

    /** The pps input: count down, or arm a request when the cache has run out. */
    method Pps(pps: bool, ghost call: Call)
      requires Valid() && call.pps == pps
      modifies `cacheCount, `reqStdby, `ticks, `beats
      ensures Valid()
      ensures beats == old(beats) + [Beat(call, false, pps && old(cacheCount) == 0)]
      ensures reqStdby == (old(reqStdby) || (pps && old(cacheCount) == 0))
      ensures cacheCount == if pps && old(cacheCount) > 0 then old(cacheCount) - 1 else old(cacheCount)
      ensures ticks == if pps then old(ticks) + 1 else old(ticks)
    {
      hide Sent, CurrentOk, Window, Answered, OnSchedule, Counted;
      BeatSnoc(beats, call, refreshed, ticks);
      beats := beats + [Beat(call, false, pps && cacheCount == 0)];
      if pps {
        if cacheCount == 0 {
          if !reqStdby { reqStdby := true; }
        } else {
          cacheCount := cacheCount - 1;
        }
        ticks := ticks + 1;
      }
    }

    /** Dispatch on the input window. */
    method Dispatch()
      requires Valid() && stage0.en && beats != []
      modifies `rpyPeer, `rpyStdby, `cacheCount, `asked, `accepted, `refreshed, `ticks, `beats
      ensures Core() && HeardTo(|consumed|)
      ensures var n := |consumed| - 1;
              var accept := AsksOwn(consumed, n) && !old(rpyStdby);
              var refresh := Announces(consumed, n);
              && asked == old(asked) + (if AsksOwn(consumed, n) then [Asked(Sender(consumed, n), accept)] else [])
              && accepted == (if accept then old(accepted) + [Sender(consumed, n)] else old(accepted))
              && rpyStdby == (old(rpyStdby) || accept)
              && cacheCount == (if refresh then CACHE_LIFETIME else old(cacheCount))
              && refreshed == (old(refreshed) || refresh) && ticks == (if refresh then 0 else old(ticks))
              && beats == (if refresh then Refreshed(old(beats)) else old(beats))
    {
      hide Render, FrameWords, AllInOrder, AllRefer, OutPort.All, Replies, Sent, CurrentOk, At, Asking, Senders, Taken;
      AskingStep();
      ghost var n := |consumed| - 1;
      if stage5.sop != 0 {
        var op := stage3.h2 % 0x100;
        var src := Peer(Mac(stage3.h3, stage2.h0, stage2.h1), Ip(stage2.h2, stage2.h3));
        var dstIp := Ip(stage1.h3, stage0.word.h0);
        if op == 1 {
          if dstIp == OWN_IP && !rpyStdby {
            Accept(src);
          } else {
            if dstIp == OWN_IP { Refuse(src); }
            if dstIp == GTW_IP && src.ip == GTW_IP { Refresh(); }
          }
        } else if src.ip == GTW_IP {
          Refresh();
        }
      }
    }

    lemma AskingStep()
      requires Valid() && stage0.en
      ensures var n := |consumed| - 1;
              Asking(consumed, |consumed|) ==
                Asking(consumed, n) + (if AsksOwn(consumed, n) then [Sender(consumed, n)] else [])
      ensures HeardTo(|consumed| - 1)
    {
    }

    method Refresh()
      requires Core() && beats != []
      modifies `cacheCount, `refreshed, `ticks, `beats
      ensures Core() && cacheCount == CACHE_LIFETIME && refreshed && ticks == 0 && beats == Refreshed(old(beats))
    {
      hide Sent, CurrentOk, Window, Answered, OnSchedule, Counted;
      BeatRefreshed(beats);
      beats := Refreshed(beats);
      cacheCount := CACHE_LIFETIME;
      refreshed, ticks := true, 0;
    }

    method Accept(src: Peer)
      requires Core() && accepted == Taken(asked) && !rpyStdby
      modifies `rpyPeer, `rpyStdby, `asked, `accepted
      ensures Core() && rpyStdby && accepted == old(accepted) + [src] && asked == old(asked) + [Asked(src, true)]
      ensures accepted == Taken(asked) && Senders(asked) == old(Senders(asked)) + [src]
    {
      hide Render, FrameWords, AllInOrder, AllRefer, OutPort.All, Replies, Window, Timer, Senders, Taken;
      Accepting(src);
      AskedSnoc(asked, Asked(src, true));
      rpyPeer := src;
      rpyStdby := true;
      asked, accepted := asked + [Asked(src, true)], accepted + [src];
    }

    /** A reply is pending already: the request is dropped. */
    ghost method Refuse(src: Peer)
      requires accepted == Taken(asked)
      modifies `asked
      ensures asked == old(asked) + [Asked(src, false)]
      ensures accepted == Taken(asked) && Senders(asked) == old(Senders(asked)) + [src]
    {
      AskedSnoc(asked, Asked(src, false));
      asked := asked + [Asked(src, false)];
    }

    lemma SixWords()
      requires Window() && stage0.en
      ensures var n := |consumed|;
              && stage0.word == At(consumed, n - 1) && stage1 == At(consumed, n - 2) && stage2 == At(consumed, n - 3)
              && stage3 == At(consumed, n - 4) && stage4 == At(consumed, n - 5)
    {
    }

    lemma WindowIs()
      requires !stage0.en
      requires var n := |consumed|;
               && stage1 == At(consumed, n - 1) && stage2 == At(consumed, n - 2) && stage3 == At(consumed, n - 3)
               && stage4 == At(consumed, n - 4) && stage5 == At(consumed, n - 5)
      ensures Window() && Processed() == |consumed|
    {
    }

    /** Shift the input window. */
    method ShiftWindow()
      requires Core() && HeardTo(|consumed|) && stage0.en
      modifies `stage5, `stage4, `stage3, `stage2, `stage1, `stage0
      ensures Valid() && !stage0.en
    {
      hide Sent, CurrentOk, Answered, Timer, HeardTo, At, Window;
      SixWords();
      Push();
      WindowIs();
    }

    /** Pushing the delay buffer. */
    method Push()
      modifies `stage5, `stage4, `stage3, `stage2, `stage1, `stage0
      ensures stage5 == old(stage4) && stage4 == old(stage3) && stage3 == old(stage2) && stage2 == old(stage1)
      ensures stage1 == old(stage0.word) && !stage0.en
    {
      stage5, stage4, stage3, stage2, stage1, stage0 :=
        stage4, stage3, stage2, stage1, stage0.word, stage0.(en := false);
    }

    method Receive() returns (ghost accept: bool, ghost refresh: bool)
      requires Valid() && beats != []
      modifies `rpyPeer, `rpyStdby, `cacheCount, `asked, `accepted, `refreshed, `ticks, `beats,
               `stage5, `stage4, `stage3, `stage2, `stage1, `stage0
      ensures Valid() && !stage0.en
      ensures accept == (old(stage0.en) && AsksOwn(consumed, |consumed| - 1) && !old(rpyStdby))
      ensures refresh == (old(stage0.en) && Announces(consumed, |consumed| - 1))
      ensures asked == old(asked) + (if old(stage0.en) && AsksOwn(consumed, |consumed| - 1)
                                     then [Asked(Sender(consumed, |consumed| - 1), accept)] else [])
      ensures accepted == old(accepted) + (if accept then [Sender(consumed, |consumed| - 1)] else [])
      ensures rpyStdby == (old(rpyStdby) || accept)
      ensures refreshed == (old(refreshed) || refresh) && ticks == (if refresh then 0 else old(ticks))
      ensures beats == if refresh then Refreshed(old(beats)) else old(beats)
    {
      hide Core, Heard, HeardTo, OutPort.All, AsksOwn, Announces, Sender, At, Timer;
      accept := stage0.en && AsksOwn(consumed, |consumed| - 1) && !rpyStdby;
      refresh := stage0.en && Announces(consumed, |consumed| - 1);
      if stage0.en {
        Dispatch();
        ShiftWindow();
      }
    }

    /** Accepting one more request changes nothing that has been sent. */
    lemma Accepting(src: Peer)
      requires Sent() && CurrentOk() && Answered()
      ensures var more := accepted + [src];
              && AllRefer(frames, |more|) && Render(frames, more) == Render(frames, accepted)
              && (mode != Idle ==> FrameWords(current, more, sendIdx) == FrameWords(current, accepted, sendIdx))
    {
      var more := accepted + [src];
      RenderStable(frames, accepted, more);
      if mode != Idle { FrameWordsStable(current, accepted, more, sendIdx); }
    }

    /** Start the next frame; replies go first. */
    method StartFrame()
      requires Valid()
      modifies `mode, `rpyStdby, `reqStdby, `sendIdx, `current
      ensures Valid()
      ensures mode == if old(mode) != Idle then old(mode)
                      else if old(rpyStdby) then SendReply else if old(reqStdby) then SendRequest else Idle
      ensures rpyStdby == (old(rpyStdby) && old(mode) != Idle)
      ensures reqStdby == (old(reqStdby) && !(old(mode) == Idle && !old(rpyStdby)))
      ensures sendIdx == if old(mode) == Idle && mode != Idle then 0 else old(sendIdx)
      ensures old(mode) != Idle ==> current == old(current)
      ensures old(mode) == Idle && mode == SendReply ==> current == Reply(Replies(frames), false, false, false)
    {
      hide Render, AllRefer, AllInOrder, OutPort.All, Replies, Window, Timer, Heard, FrameWords, InOrder, Refers;
      if mode == Idle {
        if rpyStdby {
          mode, rpyStdby, sendIdx := SendReply, false, 0;
          current := Reply(Replies(frames), false, false, false);
        } else if reqStdby {
          mode, reqStdby, sendIdx := SendRequest, false, 0;
          current := Request;
        }
      }
    }

    /** One call.  The ghost results name what happened in it: a word was loaded, the sequencer came
        free, a request for this device was accepted, the gateway announced itself. */
    method Step(offer: Option<Word>, ready: bool, pps: bool)
      returns (took: bool, ghost load: bool, ghost free: bool, ghost accept: bool, ghost refresh: bool)
      requires Valid()
      modifies this
      ensures Valid()
      // transfers
      ensures took == offer.Some? == stage0.en && consumed == old(consumed) + Seq(offer)
      ensures out.sent == old(out.sent) + Seq(old(out).Put(ready))
      // transmission
      ensures load == (old(out).Accepts(ready) && old(mode) != Idle)
      ensures free == (old(mode) == Idle || (load && old(sendIdx) == 5))
      ensures out.slot.en == ((old(out.slot.en) && !ready) || load)
      ensures load ==> out.slot.word == old(NextWord())
      // a frame keeps record of the pending flag at the moments its variable words are loaded
      ensures var f := if load then Fill(old(current), old(sendIdx), old(rpyStdby)) else old(current);
              && frames == (if load && free then old(frames) + [f] else old(frames))
              && (!free ==> current == f)
              && (free && mode == SendReply ==> current == Reply(Replies(frames), false, false, false))
      ensures sendIdx == if free && mode != Idle then 0 else if load then old(sendIdx) + 1 else old(sendIdx)
      // requests for this device: taken on unless one is pending
      ensures asked == old(asked) + (if old(stage0.en) && AsksOwn(old(consumed), |old(consumed)| - 1)
                                     then [Asked(Sender(old(consumed), |old(consumed)| - 1), accept)] else [])
      ensures accept == (old(stage0.en) && AsksOwn(old(consumed), |old(consumed)| - 1) && !old(rpyStdby))
      ensures accepted == old(accepted) + (if accept then [Sender(old(consumed), |old(consumed)| - 1)] else [])
      // what is sent next
      ensures mode == if !free then old(mode) else if old(rpyStdby) || accept then SendReply
                      else if old(reqStdby) || Arming() then SendRequest else Idle
      ensures rpyStdby == ((old(rpyStdby) || accept) && !free)
      ensures reqStdby == ((old(reqStdby) || Arming()) && (!free || mode == SendReply))
      // cache timer: a tick calls for a request unless fewer than sixteen came since the last announcement
      ensures beats == old(beats)
                + [Beat(Call(offer, ready, pps), refresh, pps && (!old(refreshed) || old(ticks) >= 16))]
      ensures refresh == (old(stage0.en) && Announces(old(consumed), |old(consumed)| - 1))
      ensures refreshed == (old(refreshed) || refresh)
      ensures ticks == if refresh then 0 else if pps then old(ticks) + 1 else old(ticks)
      ensures old(refreshed) && old(ticks) < 16 && !old(reqStdby) ==>
                !reqStdby && (mode == SendRequest ==> old(mode) == SendRequest)
      ensures pps && (!old(refreshed) || old(ticks) >= 16) ==> reqStdby || mode == SendRequest
    {
      hide Valid, OutPort.All, OutPort.Accepts, OutPort.Put, AsksOwn, Announces, Sender, At, NextWord, Fill,
           Replies;
      load, free := Transmit(ready);
      accept, refresh := Control(pps, Call(offer, ready, pps));
      took := offer.Some?;
      Read(offer);
    }

    /** The newest call called for a request. */
    ghost predicate Arming() reads `beats { beats != [] && beats[|beats| - 1].arm }

    /** The pps input, the dispatch of a received word and the choice of the next frame. */
    method Control(pps: bool, ghost call: Call) returns (ghost accept: bool, ghost refresh: bool)
      requires Valid() && call.pps == pps
      modifies `cacheCount, `reqStdby, `ticks, `beats, `rpyPeer, `rpyStdby, `asked, `accepted, `refreshed,
               `stage5, `stage4, `stage3, `stage2, `stage1, `stage0, `mode, `sendIdx, `current
      ensures Valid() && !stage0.en
      ensures asked == old(asked) + (if old(stage0.en) && AsksOwn(consumed, |consumed| - 1)
                                     then [Asked(Sender(consumed, |consumed| - 1), accept)] else [])
      ensures accept == (old(stage0.en) && AsksOwn(consumed, |consumed| - 1) && !old(rpyStdby))
      ensures accepted == old(accepted) + (if accept then [Sender(consumed, |consumed| - 1)] else [])
      ensures mode == if old(mode) != Idle then old(mode) else if old(rpyStdby) || accept then SendReply
                      else if old(reqStdby) || Arming() then SendRequest else Idle
      ensures rpyStdby == ((old(rpyStdby) || accept) && old(mode) != Idle)
      ensures reqStdby == ((old(reqStdby) || Arming()) && (old(mode) != Idle || mode == SendReply))
      ensures sendIdx == if old(mode) == Idle && mode != Idle then 0 else old(sendIdx)
      ensures old(mode) != Idle ==> current == old(current)
      ensures old(mode) == Idle && mode == SendReply ==> current == Reply(Replies(frames), false, false, false)
      ensures refresh == (old(stage0.en) && Announces(consumed, |consumed| - 1))
      ensures refreshed == (old(refreshed) || refresh)
      ensures ticks == if refresh then 0 else if pps then old(ticks) + 1 else old(ticks)
      ensures beats == old(beats) + [Beat(call, refresh, pps && (!old(refreshed) || old(ticks) >= 16))]
    {
      hide Valid, AsksOwn, Announces, Sender, Replies;
      Running();
      Pps(pps, call);
      accept, refresh := Receive();
      StartFrame();
    }

    /** Output stage and the load of the next word. */
    method Transmit(ready: bool) returns (ghost load: bool, ghost free: bool)
      requires Valid()
      modifies `out, `sendIdx, `mode, `frames, `current
      ensures Valid()
      ensures load == (old(out).Accepts(ready) && old(mode) != Idle)
      ensures free == (old(mode) == Idle || (load && old(sendIdx) == 5))
      ensures out.sent == old(out.sent) + Seq(old(out).Put(ready))
      ensures out.slot.en == ((old(out.slot.en) && !ready) || load)
      ensures load ==> out.slot.word == old(NextWord())
      ensures var f := if load then Fill(old(current), old(sendIdx), rpyStdby) else old(current);
              if load && free then frames == old(frames) + [f] else frames == old(frames) && current == f
      ensures sendIdx == if load then old(sendIdx) + 1 else old(sendIdx)
      ensures mode == if free then Idle else old(mode)
    {
      hide Valid, OutPort.All, NextWord;
      load := (!out.slot.en || ready) && mode != Idle;
      free := mode == Idle || (load && sendIdx == 5);
      Output(ready);
      LoadWord();
    }

    /** Something is being sent, about to be sent, or not yet looked at. */
    predicate Busy() reads `out, `mode, `rpyStdby, `reqStdby, `stage0 {
      out.slot.en || mode != Idle || rpyStdby || reqStdby || stage0.en
    }

    function Distance(): int reads `out, `mode, `sendIdx, `rpyStdby, `reqStdby, `stage0 {
      out.slot.Count() + (if mode != Idle then 14 - 2 * sendIdx else 0)
      + (if rpyStdby then 16 else 0) + (if reqStdby then 16 else 0) + 18 * stage0.Count()
    }

    /** With a ready sink and no pps tick every call brings the unit nearer to rest. */
    method Forward(offer: Option<Word>) returns (took: bool)
      requires Valid()
      modifies this
      ensures Valid() && out.sent == old(out.All())
      ensures took == offer.Some? && consumed == old(consumed) + Seq(offer)
      ensures 0 <= Distance()
      ensures old(Busy()) || offer.Some? ==> Distance() < old(Distance()) + (if took then 19 else 0)
      ensures !old(Busy()) && offer.None? ==> !Busy() && Distance() == old(Distance())
    {
      IdxBound();
      hide Valid, AsksOwn, Announces, Sender, At, Timer, NextWord;
      ghost var load, free, accept, refresh;
      took, load, free, accept, refresh := Step(offer, true, false);
      IdxBound();
    }

    lemma IdxBound()
      requires Valid()
      ensures mode != Idle ==> sendIdx < 6
    {
    }

    lemma Running()
      requires Valid()
      ensures cacheCount == 0 <==> !refreshed || ticks >= 16
    {
    }

    method Output(ready: bool)
      requires Valid()
      modifies `out
      ensures Valid() && out == old(out).Flush(ready)
    {
      hide Render, FrameWords, AllInOrder, AllRefer, OutPort.All, Replies, Window, Timer, Answered, CurrentOk,
           OutPort.Flush;
      out := out.Flush(ready);
    }

    method Read(offer: Option<Word>)
      requires Valid() && !stage0.en
      modifies `stage0, `consumed
      ensures Valid() && consumed == old(consumed) + Seq(offer) && stage0.en == offer.Some?
    {
      hide Sent, CurrentOk, Answered, Timer, At, Asking, Senders, Taken;
      if offer.Some? {
        WindowRead(offer.value);
        AskingPrefix(consumed, consumed + [offer.value], |consumed|);
        stage0 := Slot(true, offer.value);
        consumed := consumed + [offer.value];
      }
    }

    lemma WindowRead(w: Word)
      requires Window() && !stage0.en
      ensures var s, t, n := consumed, consumed + [w], |consumed|;
              && At(t, n) == w && At(t, n - 1) == At(s, n - 1) && At(t, n - 2) == At(s, n - 2)
              && At(t, n - 3) == At(s, n - 3) && At(t, n - 4) == At(s, n - 4) && At(t, n - 5) == At(s, n - 5)
    {
    }

    /** In every reachable state, exactly which of the replies loaded are the RFC 826 replies to their
        requests; the flags are the pending flag at the moments `Step` says. */
    lemma ReplyExact(i: nat)
      requires Valid() && i < |frames|
      ensures Exact(frames[i], accepted, Replies(frames[..i]))
    {
      if frames[i].Reply? { ReplyIsRfc826(frames[i], accepted, Replies(frames[..i])); }
    }

    /** A reply that has been loaded with no request left to answer is right exactly when the requester
        shares the gateway's upper sixteen address bits. */
    lemma LastReplyExact()
      requires Valid() && frames != [] && frames[|frames| - 1].Reply? && mode != SendReply && !rpyStdby
      ensures accepted != []
      ensures var to := accepted[|accepted| - 1];
              UsedLanes(FrameWords(frames[|frames| - 1], accepted, 6)) == Rfc826Reply(to) <==> to.ip.hi == GTW_IP.hi
    {
      hide *;
      var n := |frames| - 1;
      LastReply(n);
      ReplyExact(n);
      ExactLast(frames[n], accepted, Replies(frames[..n]));
    }

    lemma LastReply(n: nat)
      requires Valid() && |frames| == n + 1 && frames[n].Reply? && mode != SendReply && !rpyStdby
      ensures |accepted| == Replies(frames[..n]) + 1
    {
      hide Heard, Window, Sent, CurrentOk, Timer, Render, FrameWords;
      assert frames == frames[..n] + [frames[n]];
      RenderSnoc(frames[..n], frames[n], accepted);
    }

    /** Any run: whatever is offered, accepted and ticked, every reply loaded is the RFC 826 reply to the
        request it answers exactly if it was undisturbed. */
    method Run(calls: seq<Call>)
      requires Valid()
      modifies this
      ensures Valid() && consumed == old(consumed) + Inputs(calls)
      ensures old(beats) <= beats && Made(beats) == old(Made(beats)) + calls
      ensures old(frames) <= frames && old(asked) <= asked
      ensures forall i :: 0 <= i < |frames| ==> Exact(frames[i], accepted, Replies(frames[..i]))
      ensures OnSchedule(beats)
    {
      hide Valid, AsksOwn, Announces, Sender, At, NextWord, Fill, OutPort.All, Exact, Replies, OnSchedule, Made;
      for i := 0 to |calls|
        invariant Valid() && consumed == old(consumed) + Inputs(calls[..i])
        invariant old(beats) <= beats && Made(beats) == old(Made(beats)) + calls[..i]
        invariant old(frames) <= frames && old(asked) <= asked
      {
        OneCall(calls[i]);
        InputsSnoc(calls[..i], calls[i]);
        assert calls[..i + 1] == calls[..i] + [calls[i]];
      }
      assert calls[..|calls|] == calls;
      forall i | 0 <= i < |frames| ensures Exact(frames[i], accepted, Replies(frames[..i])) { ReplyExact(i); }
      ArmedWhen();
    }

    /** In every reachable state: a call has called for a request exactly if it brought a pps tick and no
        announcement had arrived with fewer than sixteen ticks after it. */
    lemma ArmedWhen()
      requires Valid()
      ensures OnSchedule(beats) && cacheCount <= 16
    {
      hide OnSchedule;
    }

    method OneCall(c: Call)
      requires Valid()
      modifies this
      ensures Valid() && consumed == old(consumed) + Seq(c.offer) && Made(beats) == old(Made(beats)) + [c]
      ensures old(beats) <= beats
      ensures old(frames) <= frames && old(asked) <= asked
    {
      hide Valid, AsksOwn, Announces, Sender, At, NextWord, Fill, OutPort.All, Replies, Made;
      ghost var before := beats;
      ghost var took, load, free, accept, refresh;
      took, load, free, accept, refresh := Step(c.offer, c.ready, c.pps);
      MadeSnoc(before, beats[|beats| - 1]);
    }

    /** Of a stream that is still arriving, the requests noticed so far are the first ones. */
    lemma NoticedSoFar(stream: seq<Word>)
      requires Valid() && consumed <= stream
      ensures Senders(asked) <= Asking(stream, |stream|) && accepted == Taken(asked)
    {
      hide Sent, CurrentOk, Answered, Timer, Asking, At, Senders, Taken;
      AskingPrefix(consumed, stream, Processed());
      AskingGrows(stream, Processed(), |stream|);
    }

    /** On a list of ARP packets exactly the requests for this device's address are noticed, in order; `Step`
        says that each is taken on unless one was pending, and the accepted ones are those. */
    lemma Noticed(ps: seq<Packet>)
      requires Valid() && !stage0.en && AllArpShaped(ps) && consumed == Flatten(ps)
      ensures Senders(asked) == Requesters(ps) && accepted == Taken(asked)
    {
      AskingPackets(ps);
    }

    /** The part of the current frame that has been loaded. */
    ghost function Loaded(): seq<Word>
      reads `mode, `current, `accepted, `sendIdx
    {
      if mode == Idle then [] else FrameWords(current, accepted, sendIdx)
    }

    lemma LoadedPart()
      requires Valid()
      ensures forall i :: 0 <= i < |Loaded()| ==> !Loaded()[i].Last()
    {
      if mode != Idle {
        forall i | 0 <= i < sendIdx ensures !Loaded()[i].Last() {
          FrameWordsAt(current, accepted, sendIdx, i);
          FrameShape(current, accepted, i);
        }
      }
    }

    /** Everything put on the wire is whole frames and at most one frame prefix; with the reply
        numbering of `frames`, replies started plus the pending flag equal the requests accepted. */
    lemma Transmitted()
      requires Valid()
      ensures out.All() == Flatten(Frames(frames, accepted)) + Loaded()
      ensures AllFramed(Frames(frames, accepted))
      ensures Replies(frames) + (if mode == SendReply then 1 else 0) + (if rpyStdby then 1 else 0) == |accepted|
      ensures cacheCount <= 16
    {
      RenderPackets(frames, accepted);
    }
  }

  lemma ReferSnoc(fs: seq<Frame>, f: Frame, n: nat)
    requires AllRefer(fs, n) && Refers(f, n)
    ensures AllRefer(fs + [f], n)
  {
  }
}
