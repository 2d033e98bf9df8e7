/** What each ICMP component does to an unbounded word stream, as plain functions.

    `Out(u, s, k)` is the word component `u` sends in place of word `k` of its input `s`;
    `Blocked(u, s, k)` says that word `k` cannot leave yet: it waits for its successor, and if
    it carries eop the wait never ends.  `Stream(u, s, |s|)` is everything component `u` can ever
    send when its input is `s`. */
module IcmpSpec {
  import opened Basics
  import opened Words

  datatype Unit = SwapMac | SwapIp | Param | Chksum
  {
    /** The offset of the word that is held back until its successor is present. */
    function First(): Octet
      requires !Param?
    {
      if SwapMac? then 0 else 3
    }
  }

  // ---------- the rewriting of single words ----------

  function MacLead(w: Word, next: Word): Word { w.(h0 := w.h3, h1 := next.h0, h2 := next.h1, h3 := w.h0) }
  function MacTrail(prev: Word, w: Word): Word { w.(h0 := prev.h1, h1 := prev.h2) }
  function IpLead(w: Word, next: Word): Word { w.(h1 := w.h3, h2 := next.h0, h3 := w.h1) }
  function IpTrail(prev: Word, w: Word): Word { w.(h0 := prev.h2) }

  function Lead(u: Unit, w: Word, next: Word): Word
    requires u.SwapMac? || u.SwapIp?
  {
    if u.SwapMac? then MacLead(w, next) else IpLead(w, next)
  }

  function Trail(u: Unit, prev: Word, w: Word): Word
    requires u.SwapMac? || u.SwapIp?
  {
    if u.SwapMac? then MacTrail(prev, w) else IpTrail(prev, w)
  }

  /** UINT16 arithmetic of the ICMP checksum update, each assignment cut to 16 bits. */
  function UpdateSum(field: Half): Half {
    var c := 0xFFFF - field;
    var d := if c < 0x0800 then (c - 1) % 0x1_0000 else c;
    0xFFFF - (d - 0x0800) % 0x1_0000
  }

  function ParamWord(w: Word): Word { w.(h1 := w.h1 % 0x100, h2 := UpdateSum(w.h2)) }

  /** UINT24 addition. */
  function Add24(a: int, b: int): nat { (a + b) % 0x100_0000 }

  /** How the shared `checksum` register changes when a word with counter value `idx` enters stage 1. */
  function Accumulate(sum: nat, idx: Octet, w: Word): nat {
    match idx
    case 1 => w.h3
    case 2 => Add24(sum, w.h0 + w.h1 + w.h2 + w.h3)
    case 3 => Add24(sum, w.h1 + w.h2 + w.h3)
    case 4 => var c := Add24(sum, w.h0); Add24(c % 0x1_0000, c / 0x1_0000)
    case _ => sum
  }

  /** The register after the first `m` words of `s`. */
  function Register(s: seq<Word>, m: nat): nat
    requires m <= |s|
  {
    if m == 0 then 0 else Accumulate(Register(s, m - 1), Index(s, m - 1), s[m - 1])
  }

  /** The nine header lanes other than the checksum itself: bytes 14..23 and 26..33, as laid over
      packet words 1 to 4. */
  function HeaderSum(w1: Word, w2: Word, w3: Word, w4: Word): nat {
    w1.h3 + w2.h0 + w2.h1 + w2.h2 + w2.h3 + w3.h1 + w3.h2 + w3.h3 + w4.h0
  }

  /** Carries added back once, as the component does. */
  function FoldOnce(sum: nat): nat { sum % 0x1_0000 + sum / 0x1_0000 }

  /** The field written into lane 0 of word 3: the low half of the complement. */
  function SumField(folded: nat): Half { 0xFFFF - folded % 0x1_0000 }

  // ---------- streams ----------

  ghost predicate Blocked(u: Unit, s: seq<Word>, k: nat)
    requires k < |s|
  {
    !u.Param? && Index(s, k) == u.First() && (k + 1 == |s| || s[k].Last())
  }

  ghost function Out(u: Unit, s: seq<Word>, k: nat): Word
    requires k < |s|
  {
    var i := Index(s, k);
    match u
    case Param => if i == 4 then ParamWord(s[k]) else s[k]
    case Chksum =>
      if i == 3 && 2 <= k && k + 1 < |s| then
        s[k].(h0 := SumField(FoldOnce(HeaderSum(s[k - 2], s[k - 1], s[k], s[k + 1]))))
      else s[k]
    case _ =>
      if i == u.First() && k + 1 < |s| then Lead(u, s[k], s[k + 1])
      else if i == u.First() + 1 && k > 0 then Trail(u, s[k - 1], s[k])
      else s[k]
  }

  ghost function Stream(u: Unit, s: seq<Word>, n: nat): (r: seq<Word>)
    requires n <= |s|
    ensures |r| <= n
  {
    if n == 0 then []
    else
      var r := Stream(u, s, n - 1);
      if |r| < n - 1 || Blocked(u, s, n - 1) then r else r + [Out(u, s, n - 1)]
  }

  /** Everything the component can send for input `s`. */
  ghost function All(u: Unit, s: seq<Word>): (r: seq<Word>)
    ensures |r| <= |s|
  {
    Stream(u, s, |s|)
  }

  /** No word of `s` is held back. */
  ghost predicate Passes(u: Unit, s: seq<Word>) { |All(u, s)| == |s| }

  lemma OutPrefix(u: Unit, s: seq<Word>, t: seq<Word>, k: nat)
    requires s <= t && k < |s|
    requires k + 1 < |s| || !Blocked(u, s, k)
    ensures Blocked(u, s, k) == Blocked(u, t, k) && Out(u, s, k) == Out(u, t, k)
  {
    IndexPrefix(s, t, k);
  }

  /** More input never changes what has been determined. */
  lemma {:induction false} StreamPrefix(u: Unit, s: seq<Word>, t: seq<Word>, n: nat)
    requires s <= t && n <= |s|
    ensures Stream(u, s, n) <= Stream(u, t, n)
    ensures n < |s| || |Stream(u, s, n)| == n ==> Stream(u, s, n) == Stream(u, t, n)
  {
    if n > 0 {
      StreamPrefix(u, s, t, n - 1);
      if n < |s| || !Blocked(u, s, n - 1) { OutPrefix(u, s, t, n - 1); }
    }
  }

  lemma {:induction false} StreamGrows(u: Unit, s: seq<Word>, m: nat, n: nat)
    requires m <= n <= |s|
    ensures Stream(u, s, m) <= Stream(u, s, n)
    decreases n
  {
    if m < n { StreamGrows(u, s, m, n - 1); }
  }

  /** A component's transfer function is monotone: this is what lets components be chained. */
  lemma AllMonotone(u: Unit, s: seq<Word>, t: seq<Word>)
    requires s <= t
    ensures All(u, s) <= All(u, t)
  {
    StreamPrefix(u, s, t, |s|);
    StreamGrows(u, t, |s|, |t|);
  }

  // ---------- packets ----------

  /** A packet or the beginning of one. */
  ghost predicate Part(p: Packet) { forall i :: 0 <= i < |p| - 1 ==> !p[i].Last() }

  lemma OutInPacket(u: Unit, base: seq<Word>, p: Packet, j: nat)
    requires Boundary(base) && Part(p) && j < |p|
    ensures Out(u, base + p, |base| + j) == Out(u, p, j)
    ensures Blocked(u, base + p, |base| + j) == Blocked(u, p, j)
    ensures Index(p, j) == j % 0x100
  {
    IndexInPacket(base, p, j);
    IndexInPacket([], p, j);
    assert [] + p == p;
    var s := base + p;
    assert s[|base| + j] == p[j];
    if j + 1 < |p| { assert s[|base| + j + 1] == p[j + 1]; }
    if 1 <= j { assert s[|base| + j - 1] == p[j - 1]; }
    if 2 <= j { assert s[|base| + j - 2] == p[j - 2]; }
  }

  lemma {:induction false} StreamInPacket(u: Unit, base: seq<Word>, p: Packet, j: nat)
    requires Boundary(base) && Passes(u, base) && Part(p) && j <= |p|
    ensures Stream(u, base + p, |base| + j) == All(u, base) + Stream(u, p, j)
  {
    hide Out, Blocked, Boundary, Part;
    if j == 0 {
      StreamPrefix(u, base, base + p, |base|);
    } else {
      StreamInPacket(u, base, p, j - 1);
      OutInPacket(u, base, p, j - 1);
    }
  }

  /** A packet that follows passed packets is treated on its own. */
  lemma AllSnoc(u: Unit, base: seq<Word>, p: Packet)
    requires Boundary(base) && Passes(u, base) && Part(p)
    ensures All(u, base + p) == All(u, base) + All(u, p)
  {
    StreamInPacket(u, base, p, |p|);
  }

  /** The length at which a packet gets stuck, on the 8-bit counter. */
  predicate Stuck(u: Unit, n: nat) { !u.Param? && n % 0x100 == u.First() + 1 }

  /** Position `i` of the output is the rewriting of word `i` of the input. */
  lemma {:induction false} StreamAt(u: Unit, s: seq<Word>, n: nat, i: nat)
    requires n <= |s| && i < |Stream(u, s, n)|
    ensures Stream(u, s, n)[i] == Out(u, s, i)
  {
    if i < |Stream(u, s, n - 1)| { StreamAt(u, s, n - 1, i); }
  }

  lemma BlockedInPacket(u: Unit, p: Packet, j: nat)
    requires Part(p) && j < |p|
    ensures Blocked(u, p, j) <==> j == |p| - 1 && Stuck(u, |p|)
  {
    IndexInPacket([], p, j);
    assert [] + p == p;
    assert Index(p, j) == j % 0x100;
    if j == |p| - 1 { ModStep(j); }
  }

  lemma ModStep(j: nat)
    ensures j % 0x100 == 0 <==> (j + 1) % 0x100 == 1
    ensures j % 0x100 == 3 <==> (j + 1) % 0x100 == 4
  {
  }

  lemma {:induction false} PacketStream(u: Unit, p: Packet, j: nat)
    requires Part(p) && j <= |p|
    ensures |Stream(u, p, j)| == if j == |p| && Stuck(u, |p|) then |p| - 1 else j
  {
    if j > 0 {
      PacketStream(u, p, j - 1);
      BlockedInPacket(u, p, j - 1);
    }
  }

  /** Exactly which packets get through: for swapmac those whose length is not 1 modulo 256, for
      swapip and ipv4chksum those whose length is not 4 modulo 256, for param all. */
  lemma PassesIff(u: Unit, p: Packet)
    requires Part(p)
    ensures Passes(u, p) <==> !Stuck(u, |p|)
    ensures !Passes(u, p) ==> |All(u, p)| == |p| - 1
  {
    PacketStream(u, p, |p|);
  }

  /** A word that is held back holds back everything behind it. */
  lemma {:induction false} StreamStops(u: Unit, s: seq<Word>, k: nat, n: nat)
    requires k < n <= |s| && |Stream(u, s, k)| == k && Blocked(u, s, k)
    ensures Stream(u, s, n) == Stream(u, s, k)
    decreases n
  {
    if k < n - 1 { StreamStops(u, s, k, n - 1); }
  }

  lemma LastBlocked(u: Unit, base: seq<Word>, p: Packet)
    requires Boundary(base) && Passes(u, base) && Part(p) && p != [] && Stuck(u, |p|)
    ensures var s, k := base + p, |base| + |p| - 1; |Stream(u, s, k)| == k && Blocked(u, s, k)
  {
    hide Stream, Out, Blocked;
    OutInPacket(u, base, p, |p| - 1);
    BlockedInPacket(u, p, |p| - 1);
    StreamInPacket(u, base, p, |p| - 1);
    PacketStream(u, p, |p| - 1);
  }

  /** And the ones that do not get through jam the component for ever: all but the last word of the
      stuck packet leave, and nothing that comes after it does. */
  lemma Jam(u: Unit, base: seq<Word>, p: Packet, rest: seq<Word>)
    requires Boundary(base) && Passes(u, base) && Framed(p) && Stuck(u, |p|)
    ensures All(u, base + p + rest) == All(u, base) + All(u, p) && |All(u, p)| == |p| - 1
  {
    var s, t, k := base + p, base + p + rest, |base| + |p| - 1;
    AllSnoc(u, base, p);
    PassesIff(u, p);
    LastBlocked(u, base, p);
    StreamStops(u, s, k, |s|);
    StreamPrefix(u, s, t, k);
    IndexPrefix(s, t, k);
    StreamStops(u, t, k, |t|);
  }

  lemma OutFlags(u: Unit, p: Packet, j: nat)
    requires j < |p|
    ensures var o := Out(u, p, j); o.sop == p[j].sop && o.eop == p[j].eop && o.empty == p[j].empty
  {
  }

  /** The flags of every word that gets out are those it came in with. */
  lemma AllFlags(u: Unit, s: seq<Word>)
    ensures forall j :: 0 <= j < |All(u, s)| ==> All(u, s)[j].Last() == s[j].Last()
    ensures Part(s) ==> Part(All(u, s))
  {
    forall j | 0 <= j < |All(u, s)| ensures All(u, s)[j].Last() == s[j].Last() {
      StreamAt(u, s, |s|, j);
      OutFlags(u, s, j);
    }
  }

  lemma AllFramedOut(u: Unit, p: Packet)
    requires Framed(p) && !Stuck(u, |p|)
    ensures Framed(All(u, p)) && |All(u, p)| == |p|
    ensures forall j :: 0 <= j < |p| ==> All(u, p)[j] == Out(u, p, j)
  {
    PacketStream(u, p, |p|);
    var r := All(u, p);
    forall j | 0 <= j < |p| ensures r[j] == Out(u, p, j) { StreamAt(u, p, |p|, j); }
    forall j | 0 <= j < |p| ensures r[j].Last() == p[j].Last() { OutFlags(u, p, j); }
  }

  ghost function MapAll(u: Unit, ps: seq<Packet>): (r: seq<Packet>)
    ensures |r| == |ps|
    ensures forall i :: 0 <= i < |ps| ==> r[i] == All(u, ps[i])
  {
    seq(|ps|, i requires 0 <= i < |ps| => All(u, ps[i]))
  }

  ghost predicate Fits(u: Unit, ps: seq<Packet>) {
    AllFramed(ps) && forall i :: 0 <= i < |ps| ==> !Stuck(u, |ps[i]|)
  }

  /** On packets that fit, the stream transfer function is the packet transfer function. */
  lemma {:induction false} AllFlatten(u: Unit, ps: seq<Packet>)
    requires Fits(u, ps)
    ensures All(u, Flatten(ps)) == Flatten(MapAll(u, ps))
    ensures Passes(u, Flatten(ps)) && AllFramed(MapAll(u, ps))
  {
    if ps != [] {
      var init, p := ps[..|ps| - 1], ps[|ps| - 1];
      assert Framed(p) && !Stuck(u, |p|);
      assert Fits(u, init) && Part(p);
      hide All, Framed, Boundary, Part, Fits;
      AllFlatten(u, init);
      FlattenBoundary(init);
      PassesIff(u, p);
      AllSnoc(u, Flatten(init), p);
      MapAllSnoc(u, ps);
    }
  }

  lemma MapAllSnoc(u: Unit, ps: seq<Packet>)
    requires ps != [] && Fits(u, ps) && AllFramed(MapAll(u, ps[..|ps| - 1]))
    ensures var init, p := ps[..|ps| - 1], ps[|ps| - 1];
            Flatten(MapAll(u, ps)) == Flatten(MapAll(u, init)) + All(u, p)
    ensures AllFramed(MapAll(u, ps))
  {
    var init, p := ps[..|ps| - 1], ps[|ps| - 1];
    assert Framed(p) && !Stuck(u, |p|);
    AllFramedOut(u, p);
    hide All, Framed, Flatten;
    assert MapAll(u, ps) == MapAll(u, init) + [All(u, p)];
    FlattenSnoc(MapAll(u, init), All(u, p));
    FramedSnoc(MapAll(u, init), All(u, p));
  }

  // ---------- the checksum register ----------

  /** Three words after a first word, the counter has run 1, 2, 3 without a break. */
  lemma IndexRun(s: seq<Word>, k: nat)
    requires k <= |s| && Index(s, k) == 4
    ensures 4 <= k && Index(s, k - 1) == 3 && Index(s, k - 2) == 2 && Index(s, k - 3) == 1
  {
  }

  /** Once word 4 of a packet has entered stage 1 the register is that packet's own header sum with its
      upper half moved down once and only once: nothing of an earlier packet is left in it, and 24 bits
      are enough. */
  lemma RegisterIsHeader(s: seq<Word>, k: nat)
    requires k + 1 < |s| && Index(s, k) == 3 && !s[k].Last()
    ensures 2 <= k
    ensures var sum := HeaderSum(s[k - 2], s[k - 1], s[k], s[k + 1]);
            Register(s, k + 2) == FoldOnce(sum) == sum - 0xFFFF * (sum / 0x1_0000)
  {
    assert Index(s, k + 1) == 4;
    IndexRun(s, k + 1);
    RegisterStep(s, k - 1, 1);
    RegisterStep(s, k, 2);
    RegisterStep(s, k + 1, 3);
    RegisterStep(s, k + 2, 4);
    FourAdds(Register(s, k - 2), s[k - 2], s[k - 1], s[k], s[k + 1]);
  }

  lemma RegisterStep(s: seq<Word>, m: nat, idx: Octet)
    requires 0 < m <= |s| && Index(s, m - 1) == idx
    ensures Register(s, m) == Accumulate(Register(s, m - 1), idx, s[m - 1])
  {
  }

  lemma FourAdds(sum: nat, w1: Word, w2: Word, w3: Word, w4: Word)
    ensures Accumulate(Accumulate(Accumulate(Accumulate(sum, 1, w1), 2, w2), 3, w3), 4, w4)
         == FoldOnce(HeaderSum(w1, w2, w3, w4))
  {
    var a2 := Accumulate(Accumulate(sum, 1, w1), 2, w2);
    assert a2 == w1.h3 + (w2.h0 + w2.h1 + w2.h2 + w2.h3);
    var a3 := Accumulate(a2, 3, w3);
    assert a3 == a2 + (w3.h1 + w3.h2 + w3.h3);
    assert Add24(a3, w4.h0) == HeaderSum(w1, w2, w3, w4);
  }

  lemma {:induction false} RegisterPrefix(s: seq<Word>, t: seq<Word>, m: nat)
    requires s <= t && m <= |s|
    ensures Register(s, m) == Register(t, m)
  {
    if m > 0 {
      RegisterPrefix(s, t, m - 1);
      IndexPrefix(s, t, m - 1);
    }
  }
}
