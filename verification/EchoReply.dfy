/** The packet the four ICMP components produce together, described byte by byte and
    independently of how it is computed. */
module EchoReply {
  import opened Basics
  import opened Words
  import opened IcmpSpec
  import opened OnesComplement

  /** Packets for which the bytes of the reply are described: five words at least, no wrap of the 8-bit counter. */
  ghost predicate Sized(p: Packet) { Framed(p) && 5 <= |p| <= 0x100 }

  /** The four components in the order of the testbench and of the system netlist. */
  ghost function Pipeline(s: seq<Word>): seq<Word> {
    All(Chksum, All(Param, All(SwapIp, All(SwapMac, s))))
  }

  ghost function Reply(p: Packet): Packet { Pipeline(p) }

  function Lane(p: Packet, i: nat): Half
    requires i < 4 * |p|
  {
    var w := p[i / 4];
    match i % 4
    case 0 => w.h0
    case 1 => w.h1
    case 2 => w.h2
    case _ => w.h3
  }

  /** Byte `j` of the packet in wire order. */
  function Byte(p: Packet, j: nat): Octet
    requires j < 8 * |p|
  {
    if j % 2 == 0 then Lane(p, j / 2) / 0x100 else Lane(p, j / 2) % 0x100
  }

  /** Where byte `j` of an echo reply comes from: source and destination MAC change places, so do
      source and destination address, everything else stays. */
  function Origin(j: nat): nat {
    if j < 6 then j + 6
    else if j < 12 then j - 6
    else if 26 <= j < 30 then j + 4
    else if 30 <= j < 34 then j - 4
    else j
  }

  // ---------- word by word ----------

  lemma EachWord(u: Unit, p: Packet, k: nat)
    requires Sized(p) && k < |p|
    ensures Framed(All(u, p)) && |All(u, p)| == |p| && Index(p, k) == k
    ensures All(u, p)[k] == Out(u, p, k)
  {
    hide Out, Stream;
    AllFramedOut(u, p);
    IndexInPacket([], p, k);
    assert [] + p == p;
  }

  lemma MacWord(p: Packet, k: nat)
    requires Sized(p) && k < |p|
    ensures Sized(All(SwapMac, p)) && |All(SwapMac, p)| == |p|
    ensures All(SwapMac, p)[k] ==
      if k == 0 then MacLead(p[0], p[1]) else if k == 1 then MacTrail(p[0], p[1]) else p[k]
  {
    EachWord(SwapMac, p, k);
  }

  lemma IpWord(p: Packet, k: nat)
    requires Sized(p) && k < |p|
    ensures Sized(All(SwapIp, p)) && |All(SwapIp, p)| == |p|
    ensures All(SwapIp, p)[k] ==
      if k == 3 then IpLead(p[3], p[4]) else if k == 4 then IpTrail(p[3], p[4]) else p[k]
  {
    EachWord(SwapIp, p, k);
  }

  lemma ParamWordAt(p: Packet, k: nat)
    requires Sized(p) && k < |p|
    ensures Sized(All(Param, p)) && |All(Param, p)| == |p|
    ensures All(Param, p)[k] == if k == 4 then ParamWord(p[4]) else p[k]
  {
    EachWord(Param, p, k);
  }

  lemma ChksumWord(p: Packet, k: nat)
    requires Sized(p) && k < |p|
    ensures Sized(All(Chksum, p)) && |All(Chksum, p)| == |p|
    ensures All(Chksum, p)[k] ==
      if k == 3 then p[3].(h0 := SumField(FoldOnce(HeaderSum(p[1], p[2], p[3], p[4])))) else p[k]
  {
    EachWord(Chksum, p, k);
  }

  /** The header sum of a request; the swaps do not change it. */
  ghost function Header(p: Packet): nat
    requires |p| >= 5
  {
    HeaderSum(p[1], p[2], p[3], p[4])
  }

  /** Each word of the reply in terms of the request. */
  lemma ReplyWord(p: Packet, k: nat)
    requires Sized(p) && k < |p|
    ensures Sized(Reply(p)) && |Reply(p)| == |p|
    ensures Reply(p)[k] ==
      if k == 0 then MacLead(p[0], p[1])
      else if k == 1 then MacTrail(p[0], p[1])
      else if k == 3 then IpLead(p[3], p[4]).(h0 := SumField(FoldOnce(Header(p))))
      else if k == 4 then ParamWord(IpTrail(p[3], p[4]))
      else p[k]
  {
    hide All, Framed;
    var a := All(SwapMac, p);
    forall i | 0 <= i < |p| ensures Sized(a) && |a| == |p| && a[i] ==
      if i == 0 then MacLead(p[0], p[1]) else if i == 1 then MacTrail(p[0], p[1]) else p[i]
    { MacWord(p, i); }
    MacWord(p, 0);
    var b := All(SwapIp, a);
    forall i | 0 <= i < |p| ensures Sized(b) && |b| == |p| && b[i] ==
      if i == 3 then IpLead(a[3], a[4]) else if i == 4 then IpTrail(a[3], a[4]) else a[i]
    { IpWord(a, i); }
    IpWord(a, 0);
    var c := All(Param, b);
    forall i | 0 <= i < |p| ensures Sized(c) && |c| == |p| && c[i] == if i == 4 then ParamWord(b[4]) else b[i]
    { ParamWordAt(b, i); }
    ParamWordAt(b, 0);
    ChksumWord(c, k);
    assert HeaderSum(c[1], c[2], c[3], c[4]) == Header(p);
  }

  /** Frame flags and length are those of the request. */
  lemma ReplyFlags(p: Packet, k: nat)
    requires Sized(p) && k < |p|
    ensures |Reply(p)| == |p| && Sized(Reply(p))
    ensures var r := Reply(p)[k]; r.sop == p[k].sop && r.eop == p[k].eop && r.empty == p[k].empty
  {
    ReplyWord(p, k);
  }

  lemma ReplyLane(p: Packet, i: nat)
    requires Sized(p) && i < 4 * |p|
    ensures |Reply(p)| == |p|
    ensures Lane(Reply(p), i) ==
      if i == 12 then 0xFFFF - (Header(p) + Header(p) / 0x1_0000) % 0x1_0000
      else if i == 17 then Lane(p, 17) % 0x100
      else if i == 18 then UpdateSum(Lane(p, 18))
      else Lane(p, Origin(2 * i) / 2)
  {
    hide Reply;
    ReplyWord(p, i / 4);
    OneFold(Header(p));
    hide FoldOnce, SumField, Header;
  }

  /** The RFC 792 echo reply, byte by byte: addresses swapped, type 0, and apart from the two
      checksum fields (bytes 24, 25 and 36, 37) nothing else touched. */
  lemma ReplyBytes(p: Packet, j: nat)
    requires Sized(p) && j < 8 * |p|
    requires j != 24 && j != 25 && j != 36 && j != 37
    ensures |Reply(p)| == |p|
    ensures Byte(Reply(p), j) == if j == 34 then 0 else Byte(p, Origin(j))
  {
    hide Reply, Origin, Lane, SumField, FoldOnce, UpdateSum;
    OriginByte(j, |p|);
    ReplyLane(p, j / 2);
  }

  lemma OriginByte(j: nat, n: nat)
    requires n >= 5 && j < 8 * n
    ensures Origin(j) < 8 * n && Origin(j) / 2 == Origin(2 * (j / 2)) / 2 && Origin(j) % 2 == j % 2
    ensures j / 2 == 17 ==> Origin(j) == j
  {
  }

  /** The packets that get through all four components. */
  ghost predicate Answerable(p: Packet) { Framed(p) && |p| % 0x100 != 1 && |p| % 0x100 != 4 }

  /** Every length but 1 and 4 modulo 256 gets through; the last word of any other packet never does. */
  lemma PipelinePassesIff(p: Packet)
    requires Framed(p)
    ensures |Reply(p)| == if Answerable(p) then |p| else |p| - 1
    ensures forall j :: 0 <= j < |Reply(p)| ==> Reply(p)[j].Last() == p[j].Last()
  {
    hide All, Framed, Part, Passes;
    var a := All(SwapMac, p);
    var b := All(SwapIp, a);
    var c := All(Param, b);
    Whole(p);
    Through(SwapMac, p);
    Through(SwapIp, a);
    Through(Param, b);
    Through(Chksum, c);
  }

  lemma Whole(p: Packet)
    requires Framed(p)
    ensures Part(p) && p != []
  {
  }

  /** What one component does to the length and the flags of a packet or of the beginning of one. */
  lemma Through(u: Unit, p: Packet)
    requires Part(p)
    ensures Part(All(u, p)) && |All(u, p)| == if Stuck(u, |p|) then |p| - 1 else |p|
    ensures forall j :: 0 <= j < |All(u, p)| ==> All(u, p)[j].Last() == p[j].Last()
    ensures Passes(u, p) <==> !Stuck(u, |p|)
  {
    PassesIff(u, p);
    AllFlags(u, p);
  }

  // ---------- the IPv4 header checksum ----------

  /** The ten header lanes (bytes 14..33); lane 5 of them is the checksum. */
  ghost function HeaderLanes(p: Packet): seq<Half>
    requires |p| >= 5
  {
    BeforeField(p) + [p[3].h0] + AfterField(p)
  }

  ghost function BeforeField(p: Packet): seq<Half> requires |p| >= 5 { [p[1].h3, p[2].h0, p[2].h1, p[2].h2, p[2].h3] }
  ghost function AfterField(p: Packet): seq<Half> requires |p| >= 5 { [p[3].h1, p[3].h2, p[3].h3, p[4].h0] }

  lemma TotalIs(a: Half, b: Half, c: Half, d: Half, e: Half, f: Half, g: Half, h: Half, i: Half)
    ensures Total([a, b, c, d, e] + [f, g, h, i]) == a + b + c + d + e + f + g + h + i
  {
    hide Total;
    TotalTwo(h, i, []);
    TotalTwo(f, g, [h, i]);
    TotalTwo(d, e, [f, g, h, i]);
    TotalTwo(b, c, [d, e, f, g, h, i]);
    TotalCons(a, [b, c, d, e, f, g, h, i]);
    assert [h, i] + [] == [h, i];
    assert [f, g] + [h, i] == [f, g, h, i];
    assert [d, e] + [f, g, h, i] == [d, e, f, g, h, i];
    assert [b, c] + [d, e, f, g, h, i] == [b, c, d, e, f, g, h, i];
    assert [a] + [b, c, d, e, f, g, h, i] == [a, b, c, d, e] + [f, g, h, i];
    EmptyTotal();
  }

  lemma EmptyTotal()
    ensures Total([]) == 0
  {
  }

  /** The header of the reply is accepted by a receiver if and only if one fold of the nine other
      lanes fits 16 bits; in every other case the written field is one too large. */
  lemma HeaderChecksum(p: Packet)
    requires Sized(p)
    ensures Sized(Reply(p))
    ensures var r := Reply(p);
            Verifies(HeaderLanes(r)) <==> Header(p) % 0x1_0000 + Header(p) / 0x1_0000 <= 0xFFFF
    ensures var r := Reply(p);
            var correct := Checksum(BeforeField(r) + AfterField(r));
            r[3].h0 == if Header(p) % 0x1_0000 + Header(p) / 0x1_0000 <= 0xFFFF then correct else correct + 1
  {
    hide Reply, Total, OnesSum, Reduce, SumField, FoldOnce, Verifies, Checksum;
    ReplyWord(p, 1); ReplyWord(p, 2); ReplyWord(p, 3); ReplyWord(p, 4);
    var r := Reply(p);
    TotalIs(r[1].h3, r[2].h0, r[2].h1, r[2].h2, r[2].h3, r[3].h1, r[3].h2, r[3].h3, r[4].h0);
    assert Total(BeforeField(r) + AfterField(r)) == Header(p);
    OneFold(Header(p));
    FoldOnceIs(BeforeField(r) + AfterField(r));
    FoldOnceVerifies(BeforeField(r), AfterField(r));
  }

  /** An ordinary echo request from 192.168.2.1 to 192.168.2.100, 74 bytes long with 32 bytes of data, and
      with identification 0xB50C. */
  function UnluckyRequest(): Packet {
    [Word(0x0600, 0, 0, 0x1122, 1, 0, 0),
     Word(0x3344, 0x5566, 0x0800, 0x4500, 0, 0, 0),
     Word(0x003C, 0xB50C, 0x4000, 0x4001, 0, 0, 0),
     Word(0xFFFE, 0xC0A8, 0x0201, 0xC0A8, 0, 0, 0),
     Word(0x0264, 0x0800, 0x4D5A, 0x0001, 0, 0, 0),
     Word(0x0001, 0x6162, 0x6364, 0x6566, 0, 0, 0),
     Word(0x6768, 0x696A, 0x6B6C, 0x6D6E, 0, 0, 0),
     Word(0x6F70, 0x7172, 0x7374, 0x7576, 0, 0, 0),
     Word(0x7761, 0x6263, 0x6465, 0x6667, 0, 0, 0),
     Word(0x6869, 0, 0, 0, 0, 1, 6)]
  }

  /** One fold is not always enough: this request carries a correct header checksum and a correct ICMP
      checksum, and the header of its reply is rejected. */
  lemma OneFoldFails(p: Packet)
    requires p == UnluckyRequest()
    ensures Sized(p) && Sized(Reply(p)) && p[1].h2 == 0x0800 && p[2].h3 % 0x100 == 0x01 && Byte(p, 34) == 8
    ensures 8 * |p| - p[|p| - 1].empty == 74
    ensures Verifies(HeaderLanes(p)) && Verifies(Message(p, 40))
    ensures !Verifies(HeaderLanes(Reply(p)))
  {
    hide Reply, HeaderLanes, Message, Verifies, OnesSum;
    HeaderChecksum(p);
    assert Header(p) == 0x2FFFE;
    HeaderVerifies(p);
    UnluckyMessage(p);
  }

  lemma UnluckyMessage(p: Packet)
    requires p == UnluckyRequest()
    ensures Verifies(Message(p, 40))
  {
    UnluckyLanes(p);
    hide Total, Message, OnesSum;
    TotalIs(0x0800, 0x4D5A, 0x0001, 0x0001, 0x6162, 0x6364, 0x6566, 0x6768, 0x696A);
    TotalIs(0x6B6C, 0x6D6E, 0x6F70, 0x7172, 0x7374, 0x7576, 0x7761, 0x6263, 0x6465);
    TotalTwo(0x6667, 0x6869, []);
    EmptyTotal();
    TotalAppend(FIRST_NINE, NEXT_NINE + ([0x6667, 0x6869] + []));
    TotalAppend(NEXT_NINE, [0x6667, 0x6869] + []);
    OnesSumIs(Message(p, 40));
  }

  const FIRST_NINE: seq<Half> :=
    [0x0800, 0x4D5A, 0x0001, 0x0001, 0x6162] + [0x6364, 0x6566, 0x6768, 0x696A]
  const NEXT_NINE: seq<Half> :=
    [0x6B6C, 0x6D6E, 0x6F70, 0x7172, 0x7374] + [0x7576, 0x7761, 0x6263, 0x6465]

  lemma UnluckyLanes(p: Packet)
    requires p == UnluckyRequest()
    ensures Message(p, 40) == FIRST_NINE + (NEXT_NINE + ([0x6667, 0x6869] + []))
  {
  }

  lemma HeaderVerifies(p: Packet)
    requires |p| >= 5
    ensures Verifies(HeaderLanes(p)) <==> Reduce(Header(p) + p[3].h0) == 0xFFFF
  {
    hide Total, OnesSum, Reduce;
    var b, f, a := BeforeField(p), p[3].h0, AfterField(p);
    TotalAppend(b, a);
    TotalAppend(b, [f] + a);
    TotalCons(f, a);
    TotalIs(b[0], b[1], b[2], b[3], b[4], a[0], a[1], a[2], a[3]);
    assert b == [b[0], b[1], b[2], b[3], b[4]] && a == [a[0], a[1], a[2], a[3]];
    assert b + [f] + a == b + ([f] + a);
    OnesSumIs(b + [f] + a);
  }

  // ---------- the ICMP checksum ----------

  /** The first `n` bytes of the ICMP message as lanes, an odd last byte padded with zero. */
  ghost function Message(p: Packet, n: nat): (m: seq<Half>)
    requires n + 34 <= 8 * |p|
    ensures |m| == (n + 1) / 2
  {
    seq((n + 1) / 2, i requires 0 <= i < (n + 1) / 2 =>
      if 2 * i + 1 == n then Byte(p, 34 + 2 * i) * 0x100 else Lane(p, 17 + i))
  }

  lemma LaneIs(p: Packet, i: nat)
    requires i < 4 * |p|
    ensures Lane(p, i) == Byte(p, 2 * i) * 0x100 + Byte(p, 2 * i + 1)
  {
    hide Lane;
    assert Lane(p, i) == Lane(p, i) / 0x100 * 0x100 + Lane(p, i) % 0x100;
  }

  /** The message is the bytes from byte 34 on, two to a lane, a missing last one taken as zero. */
  lemma MessageBytes(p: Packet, n: nat, i: nat)
    requires n + 34 <= 8 * |p| && i < (n + 1) / 2
    ensures Message(p, n)[i] == Byte(p, 34 + 2 * i) * 0x100 + (if 2 * i + 1 < n then Byte(p, 35 + 2 * i) else 0)
  {
    if 2 * i + 1 < n {
      LaneIs(p, 17 + i);
      assert 2 * (17 + i) == 34 + 2 * i;
    }
  }

  lemma ReplyMessage(p: Packet, n: nat)
    requires Sized(p) && 4 <= n && n + 34 <= 8 * |p|
    ensures |Reply(p)| == |p|
    ensures Message(Reply(p), n) == Answer(Message(p, n))
  {
    hide Reply;
    var m, r := Message(p, n), Reply(p);
    ReplyLane(p, 0);
    forall i | 0 <= i < (n + 1) / 2
      ensures Message(r, n)[i] == Answer(m)[i]
    {
      ReplyLane(p, 17 + i);
    }
    assert |Message(r, n)| == |Answer(m)|;
  }

  /** For a message of any length inside the packet that a receiver accepts, the reply's message is
      accepted if and only if the message was an echo request (type 8). */
  lemma IcmpChecksum(p: Packet, n: nat)
    requires Sized(p) && 4 <= n && n + 34 <= 8 * |p|
    requires Verifies(Message(p, n))
    ensures |Reply(p)| == |p|
    ensures Verifies(Message(Reply(p), n)) <==> Byte(p, 34) == 8
  {
    hide Reply, Verifies, Answer;
    ReplyMessage(p, n);
    AnswerVerifiesIff(Message(p, n));
    assert Message(p, n)[0] == Lane(p, 17);
  }

  /** An echo reply (type 0) sent to this device, in a minimal 60-byte frame. */
  function StrayReply(): Packet {
    [Word(0x0600, 0, 0, 0x1122, 1, 0, 0),
     Word(0x3344, 0x5566, 0x0800, 0x4500, 0, 0, 0),
     Word(0x001C, 0x0001, 0x4000, 0x4001, 0, 0, 0),
     Word(0xB52A, 0xC0A8, 0x0201, 0xC0A8, 0, 0, 0),
     Word(0x0264, 0x0000, 0xFFFD, 0x0001, 0, 0, 0),
     Word(0x0001, 0, 0, 0, 0, 0, 0),
     Word(0, 0, 0, 0, 0, 0, 0),
     Word(0, 0, 0, 0, 0, 1, 4)]
  }

  lemma StrayFacts(p: Packet)
    requires p == StrayReply()
    ensures Sized(p) && |p| == 8 && p[1].h2 == 0x0800 && p[2].h3 % 0x100 == 0x01 && Byte(p, 34) == 0
    ensures Message(p, 8) == [0, 0xFFFD] + ([1, 1] + [])
  {
  }

  /** It is answered all the same, with a message no receiver accepts. */
  lemma WrongTypeFails(p: Packet)
    requires p == StrayReply()
    ensures Sized(p) && |Reply(p)| == |p| && p[1].h2 == 0x0800 && p[2].h3 % 0x100 == 0x01 && Byte(p, 34) == 0
    ensures Verifies(Message(p, 8)) && !Verifies(Message(Reply(p), 8))
  {
    StrayFacts(p);
    hide StrayReply, Framed, Byte, Reply, Message, Verifies, Total;
    TotalTwo(1, 1, []);
    TotalTwo(0, 0xFFFD, [1, 1] + []);
    EmptyTotal();
    OnesSumIs(Message(p, 8));
    assert Verifies(Message(p, 8)) by { StrayVerifies(Message(p, 8)); }
    IcmpChecksum(p, 8);
  }

  lemma StrayVerifies(m: seq<Half>)
    requires OnesSum(m) == 0xFFFF
    ensures Verifies(m)
  {
  }

  /** An ICMP packet of 260 words, 2080 bytes. */
  function LongRequest(): Packet {
    seq(260, i => Word(0, 0, if i == 1 then 0x0800 else 0, if i == 2 then 0x4001 else 0,
                       if i == 0 then 1 else 0, if i == 259 then 1 else 0, 0))
  }

  /** Its last word never leaves. */
  lemma LengthFails(p: Packet)
    requires p == LongRequest()
    ensures Framed(p) && |p| == 260 && p[1].h2 == 0x0800 && p[2].h3 % 0x100 == 0x01 && |Reply(p)| == 259
  {
    hide Reply;
    PipelinePassesIff(p);
  }

  // ---------- streams of packets ----------

  ghost predicate AllAnswerable(ps: seq<Packet>) { forall i :: 0 <= i < |ps| ==> Answerable(ps[i]) }

  ghost function Replies(ps: seq<Packet>): (r: seq<Packet>)
    ensures |r| == |ps| && forall i :: 0 <= i < |ps| ==> r[i] == Reply(ps[i])
  {
    seq(|ps|, i requires 0 <= i < |ps| => Reply(ps[i]))
  }

  lemma UnitOnAnswerable(u: Unit, ps: seq<Packet>)
    requires AllAnswerable(ps)
    ensures AllAnswerable(MapAll(u, ps)) && All(u, Flatten(ps)) == Flatten(MapAll(u, ps))
    ensures Passes(u, Flatten(ps)) && Boundary(Flatten(ps))
  {
    hide All;
    forall i | 0 <= i < |ps| ensures Framed(ps[i]) && !Stuck(u, |ps[i]|) && Answerable(MapAll(u, ps)[i]) {
      assert Answerable(ps[i]);
      AllFramedOut(u, ps[i]);
    }
    AllFlatten(u, ps);
    FlattenBoundary(ps);
  }

  /** What the last three components make of packets that get through and the part of one that does not. */
  lemma TailOnPart(ps: seq<Packet>, part: Packet)
    requires AllAnswerable(ps) && Part(part)
    ensures All(Chksum, All(Param, All(SwapIp, Flatten(ps) + part)))
         == All(Chksum, All(Param, All(SwapIp, Flatten(ps)))) + All(Chksum, All(Param, All(SwapIp, part)))
    ensures All(Chksum, All(Param, Flatten(ps) + part))
         == All(Chksum, All(Param, Flatten(ps))) + All(Chksum, All(Param, part))
  {
    hide All, Flatten, AllAnswerable, Part, Boundary, Passes;
    SumOnPart(ps, part);
    UnitOnAnswerable(SwapIp, ps);
    AllSnoc(SwapIp, Flatten(ps), part);
    AllFlags(SwapIp, part);
    SumOnPart(MapAll(SwapIp, ps), All(SwapIp, part));
  }

  lemma SumOnPart(ps: seq<Packet>, part: Packet)
    requires AllAnswerable(ps) && Part(part)
    ensures All(Chksum, All(Param, Flatten(ps) + part))
         == All(Chksum, All(Param, Flatten(ps))) + All(Chksum, All(Param, part))
  {
    hide All, Flatten, AllAnswerable, Part, Boundary, Passes;
    UnitOnAnswerable(Param, ps);
    AllSnoc(Param, Flatten(ps), part);
    AllFlags(Param, part);
    UnitOnAnswerable(Chksum, MapAll(Param, ps));
    AllSnoc(Chksum, Flatten(MapAll(Param, ps)), All(Param, part));
  }

  /** Chaining the four stream functions answers packets that get through one by one. */
  lemma PipelineOnAnswerable(ps: seq<Packet>)
    requires AllAnswerable(ps)
    ensures Pipeline(Flatten(ps)) == Flatten(Replies(ps)) && AllFramed(Replies(ps))
  {
    hide All, Answerable, Flatten;
    var a := MapAll(SwapMac, ps);
    UnitOnAnswerable(SwapMac, ps);
    var b := MapAll(SwapIp, a);
    UnitOnAnswerable(SwapIp, a);
    var c := MapAll(Param, b);
    UnitOnAnswerable(Param, b);
    UnitOnAnswerable(Chksum, c);
    assert MapAll(Chksum, c) == Replies(ps);
    AllFramedIf(Replies(ps));
  }

  lemma AllFramedIf(ps: seq<Packet>)
    requires AllAnswerable(ps)
    ensures AllFramed(ps)
  {
    forall i | 0 <= i < |ps| ensures Framed(ps[i]) { assert Answerable(ps[i]); }
  }

  /** A packet that does not get through jams the pipeline: all but its last word are sent, and nothing of
      what follows it is. */
  lemma PipelineJams(ps: seq<Packet>, p: Packet, rest: seq<Word>)
    requires AllAnswerable(ps) && Framed(p) && !Answerable(p)
    ensures Pipeline(Flatten(ps) + p + rest) == Flatten(Replies(ps)) + Reply(p)
  {
    hide All, Flatten, AllAnswerable, Part, Boundary, Passes, Framed;
    var s := Flatten(ps);
    PipelineOnAnswerable(ps);
    Whole(p);
    UnitOnAnswerable(SwapMac, ps);
    var qs, q := MapAll(SwapMac, ps), All(SwapMac, p);
    Through(SwapMac, p);
    if |p| % 0x100 == 1 {
      Jam(SwapMac, s, p, rest);
      TailOnPart(qs, q);
    } else {
      AllSnoc(SwapMac, s, p);
      AllMonotone(SwapMac, s + p, s + p + rest);
      var more := All(SwapMac, s + p + rest)[|Flatten(qs) + q|..];
      assert All(SwapMac, s + p + rest) == Flatten(qs) + q + more;
      AllFramedOut(SwapMac, p);
      UnitOnAnswerable(SwapIp, qs);
      Jam(SwapIp, Flatten(qs), q, more);
      Through(SwapIp, q);
      SumOnPart(MapAll(SwapIp, qs), All(SwapIp, q));
    }
  }

  lemma FlattenAround(ps: seq<Packet>, k: nat)
    requires k < |ps|
    ensures Flatten(ps) == Flatten(ps[..k]) + ps[k] + Flatten(ps[k + 1..])
  {
    hide *;
    Around(ps, k);
    FlattenSnoc(ps[..k], ps[k]);
    FlattenAppend(ps[..k] + [ps[k]], ps[k + 1..]);
  }

  lemma Around(ps: seq<Packet>, k: nat)
    requires k < |ps|
    ensures (ps[..k] + [ps[k]]) + ps[k + 1..] == ps
  {
    hide *;
  }

  /** How many packets are answered before the first that jams the pipeline. */
  ghost function Answered(ps: seq<Packet>): (k: nat)
    requires AllFramed(ps)
    ensures k <= |ps| && AllAnswerable(ps[..k]) && (k < |ps| ==> !Answerable(ps[k]))
  {
    if ps == [] then 0
    else
      var n := |ps| - 1;
      var k := Answered(ps[..n]);
      assert ps[..n][..k] == ps[..k];
      if k == n && Answerable(ps[n]) then n + 1 else k
  }

  /** All that is sent in answer to packets of any length: the replies up to the first packet that gets
      stuck, and that packet without its last word. */
  ghost function Echoes(ps: seq<Packet>): seq<Word>
    requires AllFramed(ps)
  {
    var k := Answered(ps);
    Flatten(Replies(ps[..k])) + (if k < |ps| then Reply(ps[k]) else [])
  }

  /** Chaining the four stream functions, for packets of every length. */
  lemma PipelineOnPackets(ps: seq<Packet>)
    requires AllFramed(ps)
    ensures Pipeline(Flatten(ps)) == Echoes(ps)
  {
    var k := Answered(ps);
    hide Pipeline, Reply, Flatten, Answerable, Answered;
    PipelineOnAnswerable(ps[..k]);
    if k == |ps| {
      assert ps[..k] == ps;
    } else {
      assert Framed(ps[k]);
      hide Framed;
      FlattenAround(ps, k);
      PipelineJams(ps[..k], ps[k], Flatten(ps[k + 1..]));
    }
  }

  /** Cut at eop, that is the replies, and the truncated packet as an unfinished rest. */
  lemma EchoesCut(ps: seq<Packet>)
    requires AllFramed(ps)
    ensures Parse(Echoes(ps)).whole == Replies(ps[..Answered(ps)])
  {
    var k := Answered(ps);
    if k < |ps| {
      assert Framed(ps[k]);
      Truncated(ps[k]);
    }
    PipelineOnAnswerable(ps[..k]);
    hide Reply, Flatten, Parse, Answerable, Answered;
    ParseUnique(Framing(Replies(ps[..k]), if k < |ps| then Reply(ps[k]) else []));
  }

  lemma Truncated(p: Packet)
    requires Framed(p) && !Answerable(p)
    ensures forall j :: 0 <= j < |Reply(p)| ==> !Reply(p)[j].Last()
  {
    PipelinePassesIff(p);
    hide Reply;
  }

  /** Nothing is held back exactly when every packet gets through. */
  lemma AnsweredInFull(ps: seq<Packet>)
    requires AllFramed(ps)
    ensures |Echoes(ps)| == |Flatten(ps)| <==> AllAnswerable(ps)
  {
    var k := Answered(ps);
    SameLength(ps[..k]);
    if k == |ps| {
      assert ps[..k] == ps;
    } else {
      assert Framed(ps[k]);
      assert !AllAnswerable(ps);
      hide Reply, Flatten, AllFramed, AllAnswerable, Replies;
      FlattenAround(ps, k);
      PipelinePassesIff(ps[k]);
    }
  }

  lemma {:induction false} SameLength(ps: seq<Packet>)
    requires AllAnswerable(ps)
    ensures |Flatten(Replies(ps))| == |Flatten(ps)|
  {
    if ps != [] {
      var init, p := ps[..|ps| - 1], ps[|ps| - 1];
      SameLength(init);
      assert Answerable(p);
      hide Reply, Answerable;
      PipelinePassesIff(p);
      assert Replies(ps) == Replies(init) + [Reply(p)];
      FlattenSnoc(Replies(init), Reply(p));
    }
  }

  /** Histories of four chained components: each input is a prefix of the previous output.  Whatever
      has been read of the packets `ps`, what has left the last component is a prefix of what they
      are answered with. */
  lemma PipelineSafe(ps: seq<Packet>, in1: seq<Word>, in2: seq<Word>, in3: seq<Word>, in4: seq<Word>, out: seq<Word>)
    requires AllFramed(ps) && in1 <= Flatten(ps)
    requires in2 <= All(SwapMac, in1) && in3 <= All(SwapIp, in2) && in4 <= All(Param, in3) && out <= All(Chksum, in4)
    ensures out <= Echoes(ps)
  {
    hide All, AllFramed, Flatten, Echoes, Parse;
    AllMonotone(SwapMac, in1, Flatten(ps));
    var f1 := All(SwapMac, Flatten(ps));
    AllMonotone(SwapIp, in2, f1);
    var f2 := All(SwapIp, f1);
    AllMonotone(Param, in3, f2);
    var f3 := All(Param, f2);
    AllMonotone(Chksum, in4, f3);
    PipelineOnPackets(ps);
  }
}
