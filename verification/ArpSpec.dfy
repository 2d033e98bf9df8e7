/** The ARP frames arp_proc sends and the packets it reacts to. */
module ArpSpec {
  import opened Basics
  import opened Words

  datatype Mac = Mac(m0: Half, m1: Half, m2: Half)
  datatype Ip = Ip(hi: Half, lo: Half)
  datatype Peer = Peer(mac: Mac, ip: Ip)

  // 06:00:00:00:00:00, 192.168.2.100 and 192.168.2.1
  const OWN_MAC := Mac(0x0600, 0, 0)
  const OWN_IP := Ip(0xC0A8, 0x0264)
  const GTW_IP := Ip(0xC0A8, 0x0201)
  const BCAST_MAC := Mac(0xFFFF, 0xFFFF, 0xFFFF)

  const CACHE_LIFETIME := 16

  // ---------- sent frames ----------

  /** A frame that was started.  A request is constant.  A reply answers the `req`-th accepted request, but
      each of its words is filled from whatever requester is on file when the word is loaded: `late0`,
      `late4` and `late5` say whether the next request was already pending when words 0, 4 and 5 were
      loaded. */
  datatype Frame = Request | Reply(req: nat, late0: bool, late4: bool, late5: bool)

  /** Word `i` of a frame is loaded while another request is pending or not. */
  function Fill(f: Frame, i: nat, pending: bool): Frame {
    if f.Request? then f
    else
      match i
      case 0 => f.(late0 := pending)
      case 4 => f.(late4 := pending)
      case 5 => f.(late5 := pending)
      case _ => f
  }

  function PeerAt(peers: seq<Peer>, i: nat): Peer {
    if i < |peers| then peers[i] else Peer(Mac(0, 0, 0), Ip(0, 0))
  }

  function Lanes(h0: Half, h1: Half, h2: Half, h3: Half): Word { Word(h0, h1, h2, h3, 0, 0, 0) }

  /** The words of a frame to `dst` with operation `op` about `target`, as arp_proc assembles them:
      the upper half of the target address is always the gateway's. */
  function RequestWord(i: nat): Word {
    match i
    case 0 => Lanes(0xFFFF, 0xFFFF, 0xFFFF, 0x0600).(sop := 1)
    case 1 => Lanes(0, 0, 0x0806, 0x0001)
    case 2 => Lanes(0x0800, 0x0604, 0x0001, 0x0600)
    case 3 => Lanes(0, 0, 0xC0A8, 0x0264)
    case 4 => Lanes(0xFFFF, 0xFFFF, 0xFFFF, GTW_IP.hi)
    case _ => Lanes(GTW_IP.lo, 0, 0, 0).(eop := 1, empty := 6)
  }

  function ReplyWord(i: nat, peer: Peer): Word {
    match i
    case 0 => Lanes(peer.mac.m0, peer.mac.m1, peer.mac.m2, 0x0600).(sop := 1)
    case 1 => Lanes(0, 0, 0x0806, 0x0001)
    case 2 => Lanes(0x0800, 0x0604, 0x0002, 0x0600)
    case 3 => Lanes(0, 0, 0xC0A8, 0x0264)
    case 4 => Lanes(peer.mac.m0, peer.mac.m1, peer.mac.m2, GTW_IP.hi)
    case _ => Lanes(peer.ip.lo, 0, 0, 0).(eop := 1, empty := 6)
  }

  /** Which accepted request word `i` of a reply was filled from. */
  function SourceOf(f: Frame, i: nat): nat
    requires f.Reply?
  {
    var late := if i < 4 then f.late0 else if i == 4 then f.late4 else f.late5;
    if late then f.req + 1 else f.req
  }

  function FrameWord(f: Frame, peers: seq<Peer>, i: nat): Word {
    if f.Request? then RequestWord(i) else ReplyWord(i, PeerAt(peers, SourceOf(f, i)))
  }

  /** The first `n` words of a frame. */
  function FrameWords(f: Frame, peers: seq<Peer>, n: nat): (r: seq<Word>)
    ensures |r| == n
  {
    if n == 0 then [] else FrameWords(f, peers, n - 1) + [FrameWord(f, peers, n - 1)]
  }

  function Render(fs: seq<Frame>, peers: seq<Peer>): (r: seq<Word>)
    ensures |r| == 6 * |fs|
  {
    if fs == [] then [] else Render(fs[..|fs| - 1], peers) + FrameWords(fs[|fs| - 1], peers, 6)
  }

  /** A frame uses only requests accepted before its last word was loaded. */
  ghost predicate Refers(f: Frame, n: nat) {
    f.Reply? ==> SourceOf(f, 0) < n && SourceOf(f, 4) < n && SourceOf(f, 5) < n
  }

  ghost predicate AllRefer(fs: seq<Frame>, n: nat) { forall i :: 0 <= i < |fs| ==> Refers(fs[i], n) }

  function Replies(fs: seq<Frame>): nat {
    if fs == [] then 0 else Replies(fs[..|fs| - 1]) + if fs[|fs| - 1].Reply? then 1 else 0
  }

  /** The `r`-th reply answers the `r`-th request, and a request that is pending stays so until the reply
      has been loaded. */
  ghost predicate InOrder(f: Frame, r: nat) {
    f.Reply? ==> f.req == r && (f.late0 ==> f.late4) && (f.late4 ==> f.late5)
  }

  ghost predicate AllInOrder(fs: seq<Frame>) {
    forall i :: 0 <= i < |fs| ==> InOrder(fs[i], Replies(fs[..i]))
  }

  // ---------- frames and packets ----------

  /** Every rendered frame is one packet of six words: sop on the first word only, eop with six unused
      bytes on the last word only. */
  lemma FrameShape(f: Frame, peers: seq<Peer>, i: nat)
    requires i < 6
    ensures var w := FrameWord(f, peers, i);
            && (w.sop == if i == 0 then 1 else 0) && (w.eop == if i == 5 then 1 else 0)
            && (w.empty == if i == 5 then 6 else 0)
  {
  }

  lemma {:induction false} FrameWordsAt(f: Frame, peers: seq<Peer>, n: nat, i: nat)
    requires i < n
    ensures FrameWords(f, peers, n)[i] == FrameWord(f, peers, i)
  {
    if i < n - 1 { FrameWordsAt(f, peers, n - 1, i); }
  }

  lemma FrameIsFramed(f: Frame, peers: seq<Peer>)
    ensures Framed(FrameWords(f, peers, 6))
  {
    var p := FrameWords(f, peers, 6);
    forall i | 0 <= i < 6 ensures p[i].Last() == (i == 5) {
      FrameWordsAt(f, peers, 6, i);
      FrameShape(f, peers, i);
    }
  }

  lemma {:induction false} FrameWordsStable(f: Frame, peers: seq<Peer>, more: seq<Peer>, n: nat)
    requires peers <= more
    requires f.Reply? && n > 0 ==> SourceOf(f, 0) < |peers|
    requires f.Reply? && n > 4 ==> SourceOf(f, 4) < |peers|
    requires f.Reply? && n > 5 ==> SourceOf(f, 5) < |peers|
    ensures FrameWords(f, peers, n) == FrameWords(f, more, n)
  {
    if n > 0 { FrameWordsStable(f, peers, more, n - 1); }
  }

  /** Later acceptances do not change frames already sent. */
  lemma {:induction false} RenderStable(fs: seq<Frame>, peers: seq<Peer>, more: seq<Peer>)
    requires AllRefer(fs, |peers|) && peers <= more
    ensures Render(fs, peers) == Render(fs, more)
  {
    if fs != [] {
      RenderStable(fs[..|fs| - 1], peers, more);
      assert Refers(fs[|fs| - 1], |peers|);
      FrameWordsStable(fs[|fs| - 1], peers, more, 6);
    }
  }

  /** Filling in which request the words still to come are taken from leaves the loaded words alone. */
  lemma {:induction false} FrameWordsRefine(f: Frame, g: Frame, peers: seq<Peer>, n: nat)
    requires f.Reply? && g.Reply?
    requires n > 0 ==> SourceOf(f, 0) == SourceOf(g, 0)
    requires n > 4 ==> SourceOf(f, 4) == SourceOf(g, 4)
    requires n > 5 ==> SourceOf(f, 5) == SourceOf(g, 5)
    ensures FrameWords(f, peers, n) == FrameWords(g, peers, n)
  {
    if n > 0 { FrameWordsRefine(f, g, peers, n - 1); }
  }

  lemma RenderSnoc(fs: seq<Frame>, f: Frame, peers: seq<Peer>)
    ensures Render(fs + [f], peers) == Render(fs, peers) + FrameWords(f, peers, 6)
    ensures Replies(fs + [f]) == Replies(fs) + if f.Reply? then 1 else 0
  {
    assert (fs + [f])[..|fs|] == fs;
  }

  lemma InOrderSnoc(fs: seq<Frame>, f: Frame)
    requires AllInOrder(fs) && InOrder(f, Replies(fs))
    ensures AllInOrder(fs + [f])
  {
    forall i | 0 <= i < |fs| + 1 ensures InOrder((fs + [f])[i], Replies((fs + [f])[..i])) {
      assert (fs + [f])[..i] == fs[..i];
      if i == |fs| { assert fs[..i] == fs; }
    }
  }

  ghost function Frames(fs: seq<Frame>, peers: seq<Peer>): (ps: seq<Packet>)
    ensures |ps| == |fs| && forall i :: 0 <= i < |fs| ==> ps[i] == FrameWords(fs[i], peers, 6)
  {
    seq(|fs|, i requires 0 <= i < |fs| => FrameWords(fs[i], peers, 6))
  }

  /** The output of arp_proc cut at eop is exactly its list of frames. */
  lemma {:induction false} RenderPackets(fs: seq<Frame>, peers: seq<Peer>)
    ensures Render(fs, peers) == Flatten(Frames(fs, peers)) && AllFramed(Frames(fs, peers))
  {
    if fs != [] {
      var init, f := fs[..|fs| - 1], fs[|fs| - 1];
      RenderPackets(init, peers);
      FrameIsFramed(f, peers);
      hide FrameWords, Flatten, Framed, Render;
      assert init + [f] == fs;
      RenderSnoc(init, f, peers);
      assert Frames(fs, peers) == Frames(init, peers) + [FrameWords(f, peers, 6)];
      FlattenSnoc(Frames(init, peers), FrameWords(f, peers, 6));
    }
  }

  // ---------- RFC 826 ----------

  /** The 21 lanes (42 bytes) of an Ethernet ARP packet, field by field in wire order. */
  function ArpPacket(dst: Mac, op: Half, sender: Peer, target: Peer): seq<Half> {
    [dst.m0, dst.m1, dst.m2, sender.mac.m0, sender.mac.m1, sender.mac.m2, 0x0806,
     0x0001, 0x0800, 0x0604, op,
     sender.mac.m0, sender.mac.m1, sender.mac.m2, sender.ip.hi, sender.ip.lo,
     target.mac.m0, target.mac.m1, target.mac.m2, target.ip.hi, target.ip.lo]
  }

  /** The reply of RFC 826, section "Packet Reception": the fields of the request exchanged, this
      device as sender, operation ares_op$REPLY, sent to the requester's hardware address. */
  function Rfc826Reply(to: Peer): seq<Half> { ArpPacket(to.mac, 2, Peer(OWN_MAC, OWN_IP), to) }

  /** The used lanes of a six-word frame: all but the six bytes that `empty` marks. */
  function UsedLanes(p: Packet): seq<Half>
    requires |p| == 6
  {
    [p[0].h0, p[0].h1, p[0].h2, p[0].h3, p[1].h0, p[1].h1, p[1].h2,
     p[1].h3, p[2].h0, p[2].h1, p[2].h2,
     p[2].h3, p[3].h0, p[3].h1, p[3].h2, p[3].h3,
     p[4].h0, p[4].h1, p[4].h2, p[4].h3, p[5].h0]
  }

  /** The requester shares the gateway's upper sixteen address bits; if the next request was pending when
      word 4 was loaded, it came from the same hardware address; if it was pending when word 5 was loaded,
      from the same lower half of the protocol address. */
  predicate Undisturbed(f: Frame, peers: seq<Peer>, r: nat)
    requires f.Reply? && r < |peers| && (f.late5 ==> r + 1 < |peers|) && (f.late4 ==> f.late5)
  {
    && peers[r].ip.hi == GTW_IP.hi
    && (f.late4 ==> peers[r + 1].mac == peers[r].mac)
    && (f.late5 ==> peers[r + 1].ip.lo == peers[r].ip.lo)
  }

  /** Exactly then a reply is the RFC 826 reply to its request. */
  lemma ReplyIsRfc826(f: Frame, peers: seq<Peer>, r: nat)
    requires f.Reply? && InOrder(f, r) && Refers(f, |peers|)
    ensures r < |peers| && (f.late5 ==> r + 1 < |peers|)
    ensures UsedLanes(FrameWords(f, peers, 6)) == Rfc826Reply(peers[r]) <==> Undisturbed(f, peers, r)
  {
    hide FrameWords;
    forall i | 0 <= i < 6 ensures FrameWords(f, peers, 6)[i] == FrameWord(f, peers, i) {
      FrameWordsAt(f, peers, 6, i);
    }
    LanesDecide(f, peers, peers[r]);
  }

  /** Reply `f`, the `r`-th, is the RFC 826 reply to its request exactly if it was undisturbed. */
  ghost predicate Exact(f: Frame, peers: seq<Peer>, r: nat) {
    f.Reply? ==>
      && r < |peers| && (f.late5 ==> r + 1 < |peers|) && (f.late4 ==> f.late5)
      && (UsedLanes(FrameWords(f, peers, 6)) == Rfc826Reply(peers[r]) <==> Undisturbed(f, peers, r))
  }

  /** With no later request accepted, only the gateway's upper address half matters. */
  lemma ExactLast(f: Frame, peers: seq<Peer>, r: nat)
    requires f.Reply? && Exact(f, peers, r) && |peers| == r + 1
    ensures UsedLanes(FrameWords(f, peers, 6)) == Rfc826Reply(peers[r]) <==> peers[r].ip.hi == GTW_IP.hi
  {
    hide UsedLanes, FrameWords, Rfc826Reply;
  }

  lemma LanesDecide(f: Frame, peers: seq<Peer>, to: Peer)
    requires f.Reply?
    requires forall i :: 0 <= i < 6 ==> FrameWords(f, peers, 6)[i] == FrameWord(f, peers, i)
    ensures UsedLanes(FrameWords(f, peers, 6)) == Rfc826Reply(to) <==>
      && PeerAt(peers, SourceOf(f, 0)).mac == to.mac && PeerAt(peers, SourceOf(f, 4)).mac == to.mac
      && PeerAt(peers, SourceOf(f, 5)).ip.lo == to.ip.lo && to.ip.hi == GTW_IP.hi
  {
    hide FrameWords, PeerAt, SourceOf;
    var u, v := UsedLanes(FrameWords(f, peers, 6)), Rfc826Reply(to);
    assert |u| == 21 && |v| == 21;
    if u == v {
      assert u[0] == v[0] && u[1] == v[1] && u[2] == v[2];
      assert u[16] == v[16] && u[17] == v[17] && u[18] == v[18] && u[19] == v[19] && u[20] == v[20];
    }
  }

  lemma RequestIsRfc826(peers: seq<Peer>)
    ensures UsedLanes(FrameWords(Request, peers, 6)) ==
      ArpPacket(BCAST_MAC, 1, Peer(OWN_MAC, OWN_IP), Peer(BCAST_MAC, GTW_IP))
  {
    hide FrameWords;
    forall i | 0 <= i < 6 ensures FrameWords(Request, peers, 6)[i] == FrameWord(Request, peers, i) {
      FrameWordsAt(Request, peers, 6, i);
    }
  }

  // ---------- received packets ----------

  /** Word `i` of the input, or the zero word a register holds after reset. */
  function At(s: seq<Word>, i: int): Word { if 0 <= i < |s| then s[i] else NO_WORD }

  /** The six-word window that ends at word `i` opens with sop and asks for this device's address. */
  predicate AsksOwn(s: seq<Word>, i: int) {
    At(s, i - 5).sop != 0 && At(s, i - 3).h2 % 0x100 == 1 && TargetIp(s, i) == OWN_IP
  }

  /** The window is a gateway announcement: a request by the gateway for its own address, or any other
      operation sent by the gateway. */
  predicate Announces(s: seq<Word>, i: int) {
    && At(s, i - 5).sop != 0 && Sender(s, i).ip == GTW_IP
    && (At(s, i - 3).h2 % 0x100 == 1 ==> TargetIp(s, i) == GTW_IP)
  }

  function Sender(s: seq<Word>, i: int): Peer {
    Peer(Mac(At(s, i - 3).h3, At(s, i - 2).h0, At(s, i - 2).h1), Ip(At(s, i - 2).h2, At(s, i - 2).h3))
  }

  function TargetIp(s: seq<Word>, i: int): Ip { Ip(At(s, i - 1).h3, At(s, i).h0) }

  /** The senders of the own-address requests that end before word `n`, in order. */
  function Asking(s: seq<Word>, n: int): seq<Peer> {
    if n <= 0 then [] else Asking(s, n - 1) + (if AsksOwn(s, n - 1) then [Sender(s, n - 1)] else [])
  }

  lemma AtPrefix(s: seq<Word>, t: seq<Word>, i: int)
    requires s <= t && i < |s|
    ensures At(s, i) == At(t, i)
  {
  }

  lemma WindowPrefix(s: seq<Word>, t: seq<Word>, i: int)
    requires s <= t && i < |s|
    ensures AsksOwn(s, i) == AsksOwn(t, i) && Sender(s, i) == Sender(t, i)
  {
    hide At;
    AtPrefix(s, t, i); AtPrefix(s, t, i - 1); AtPrefix(s, t, i - 2); AtPrefix(s, t, i - 3); AtPrefix(s, t, i - 5);
  }

  lemma {:induction false} AskingPrefix(s: seq<Word>, t: seq<Word>, n: int)
    requires s <= t && n <= |s|
    ensures Asking(s, n) == Asking(t, n)
  {
    if n > 0 {
      hide AsksOwn, Sender;
      AskingPrefix(s, t, n - 1);
      WindowPrefix(s, t, n - 1);
    }
  }

  /** Where packets open with their only sop and the one before had at least six words, the window is
      looked at once per packet, at its sixth word, and reads that packet's own fields: RFC 826 operation
      (low byte), target and sender protocol address. */
  lemma OncePerPacket(base: seq<Word>, p: Packet, j: nat)
    requires j < |p| && |p| >= 6 && p[0].sop != 0 && forall i :: 0 < i < |p| ==> p[i].sop == 0
    requires forall i :: 0 <= i < |base| && |base| - 5 <= i ==> base[i].sop == 0
    ensures AsksOwn(base + p, |base| + j) <==>
      j == 5 && p[2].h2 % 0x100 == 1 && Ip(p[4].h3, p[5].h0) == OWN_IP
    ensures Announces(base + p, |base| + j) <==>
      && j == 5 && Ip(p[3].h2, p[3].h3) == GTW_IP && (p[2].h2 % 0x100 == 1 ==> Ip(p[4].h3, p[5].h0) == GTW_IP)
    ensures j == 5 ==> Sender(base + p, |base| + j) == Peer(Mac(p[2].h3, p[3].h0, p[3].h1), Ip(p[3].h2, p[3].h3))
  {
    var s, n := base + p, |base| + j;
    if j < 5 {
      if n - 5 >= 0 { assert s[n - 5] == base[n - 5]; }
    } else {
      assert s[n - 5] == p[j - 5] && s[n - 3] == p[j - 3] && s[n - 2] == p[j - 2];
      assert s[n - 1] == p[j - 1] && s[n] == p[j];
    }
  }

  lemma {:induction false} AskingGrows(s: seq<Word>, m: int, n: int)
    requires m <= n
    ensures Asking(s, m) <= Asking(s, n)
    decreases n - m
  {
    if m < n {
      hide AsksOwn, Sender;
      AskingGrows(s, m, n - 1);
    }
  }

  /** An ARP packet as the window needs it: six words at least, sop on the first only. */
  ghost predicate ArpShaped(p: Packet) {
    |p| >= 6 && p[0].sop != 0 && forall i :: 0 < i < |p| ==> p[i].sop == 0
  }

  ghost predicate AllArpShaped(ps: seq<Packet>) { forall i :: 0 <= i < |ps| ==> ArpShaped(ps[i]) }

  predicate RequestsOwn(p: Packet)
    requires |p| >= 6
  {
    p[2].h2 % 0x100 == 1 && Ip(p[4].h3, p[5].h0) == OWN_IP
  }

  function SenderOf(p: Packet): Peer
    requires |p| >= 6
  {
    Peer(Mac(p[2].h3, p[3].h0, p[3].h1), Ip(p[3].h2, p[3].h3))
  }

  /** The senders of the packets that ask for this device's address. */
  ghost function Requesters(ps: seq<Packet>): seq<Peer>
    requires AllArpShaped(ps)
  {
    if ps == [] then []
    else
      var p := ps[|ps| - 1];
      Requesters(ps[..|ps| - 1]) + (if RequestsOwn(p) then [SenderOf(p)] else [])
  }

  ghost predicate Clear(base: seq<Word>) { forall i :: 0 <= i < |base| && |base| - 5 <= i ==> base[i].sop == 0 }

  lemma {:induction false} AskingInPacket(base: seq<Word>, p: Packet, j: nat)
    requires ArpShaped(p) && Clear(base) && j <= |p|
    ensures Asking(base + p, |base| + j) ==
      Asking(base, |base|) + (if j >= 6 && RequestsOwn(p) then [SenderOf(p)] else [])
  {
    hide AsksOwn, Sender;
    if j == 0 {
      AskingPrefix(base, base + p, |base|);
    } else {
      AskingInPacket(base, p, j - 1);
      OncePerPacket(base, p, j - 1);
    }
  }

  lemma ClearAfter(base: seq<Word>, p: Packet)
    requires ArpShaped(p)
    ensures Clear(base + p) && |p| >= 6
  {
  }

  /** On a list of ARP packets the window finds exactly the requests for this device's address. */
  lemma {:induction false} AskingPackets(ps: seq<Packet>)
    requires AllArpShaped(ps)
    ensures Asking(Flatten(ps), |Flatten(ps)|) == Requesters(ps) && Clear(Flatten(ps))
  {
    if ps != [] {
      var init, p := ps[..|ps| - 1], ps[|ps| - 1];
      assert ArpShaped(p);
      hide Asking, AsksOwn, Sender, RequestsOwn, SenderOf, Clear, ArpShaped;
      AskingPackets(init);
      AskingInPacket(Flatten(init), p, |p|);
      ClearAfter(Flatten(init), p);
    } else {
      assert Asking([], 0) == [];
    }
  }
}
