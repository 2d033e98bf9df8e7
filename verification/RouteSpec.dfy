/** Packet routing as a function of the word stream: which port each word belongs to.

    A packet's first words decide for the whole packet.  `Decide` answers Hold while the words it
    needs have not arrived. */
module RouteSpec {
  import opened Basics
  import opened Words

  datatype Route = Hold | ToArp | ToIpv4 | ToIcmp | ToOther

  datatype Router = ByEtype | ByProto

  function EtypeRoute(w: Word): Route {
    if w.h2 == 0x0806 then ToArp else if w.h2 == 0x0800 then ToIpv4 else ToOther
  }

  function ProtoRoute(w: Word): Route {
    if w.h3 % 0x100 == 0x01 then ToIcmp else ToOther
  }

  /** The port of a packet that begins at word `b`. */
  function Decide(r: Router, s: seq<Word>, b: nat): Route {
    if b >= |s| then Hold
    else if s[b].Last() then ToOther
    else if b + 1 >= |s| then Hold
    else if r.ByEtype? then EtypeRoute(s[b + 1])
    else if s[b + 1].Last() then ToOther
    else if b + 2 >= |s| then Hold
    else ProtoRoute(s[b + 2])
  }

  /** The port of word `k`, or of the next word when `k` is the length of the stream. */
  function RouteOf(r: Router, s: seq<Word>, k: nat): Route
    requires k <= |s|
  {
    Decide(r, s, Start(s, k))
  }

  /** The words among the first `n` that belong to port `d`, in order. */
  function Routed(r: Router, s: seq<Word>, n: nat, d: Route): seq<Word>
    requires n <= |s|
  {
    if n == 0 then []
    else Routed(r, s, n - 1, d) + (if RouteOf(r, s, n - 1) == d then [s[n - 1]] else [])
  }

  ghost predicate AllDecided(r: Router, s: seq<Word>, n: nat)
    requires n <= |s|
  {
    forall k :: 0 <= k < n ==> RouteOf(r, s, k) != Hold
  }

  /** Every word that can be routed at all. */
  function Delivered(r: Router, s: seq<Word>, d: Route): seq<Word> {
    Routed(r, s, |s|, d)
  }

  // ---------- stability: a decision never changes as more words arrive ----------

  lemma DecidePrefix(r: Router, s: seq<Word>, t: seq<Word>, b: nat)
    requires s <= t && Decide(r, s, b) != Hold
    ensures Decide(r, t, b) == Decide(r, s, b)
  {
  }

  lemma RouteOfPrefix(r: Router, s: seq<Word>, t: seq<Word>, k: nat)
    requires s <= t && k <= |s| && RouteOf(r, s, k) != Hold
    ensures RouteOf(r, t, k) == RouteOf(r, s, k)
  {
    StartPrefix(s, t, k);
    DecidePrefix(r, s, t, Start(s, k));
  }

  lemma {:induction false} RoutedPrefix(r: Router, s: seq<Word>, t: seq<Word>, n: nat, d: Route)
    requires s <= t && n <= |s| && d != Hold && AllDecided(r, s, n)
    ensures Routed(r, s, n, d) == Routed(r, t, n, d)
  {
    hide RouteOf;
    if n > 0 {
      RoutedPrefix(r, s, t, n - 1, d);
      RouteOfPrefix(r, s, t, n - 1);
    }
  }

  lemma DecidedPrefix(r: Router, s: seq<Word>, t: seq<Word>, n: nat)
    requires s <= t && n <= |s| && AllDecided(r, s, n)
    ensures AllDecided(r, t, n)
  {
    forall k | 0 <= k < n ensures RouteOf(r, t, k) != Hold { RouteOfPrefix(r, s, t, k); }
  }

  lemma {:induction false} RoutedGrows(r: Router, s: seq<Word>, m: nat, n: nat, d: Route)
    requires m <= n <= |s|
    ensures Routed(r, s, m, d) <= Routed(r, s, n, d)
    decreases n
  {
    if m < n { RoutedGrows(r, s, m, n - 1, d); }
  }

  /** A later word of a packet goes where the packet goes. */
  lemma SamePacket(r: Router, s: seq<Word>, k: nat)
    requires k < |s|
    ensures Start(s, k + 1) == if s[k].Last() then k + 1 else Start(s, k)
  {
  }

  /** While a packet is undecided, so is every word after its start; the undecided words are the
      tail of the stream. */
  lemma {:induction false} UndecidedTail(r: Router, s: seq<Word>, k: nat, n: nat)
    requires k <= n <= |s| && RouteOf(r, s, k) == Hold
    ensures RouteOf(r, s, n) == Hold && Start(s, n) == Start(s, k)
    decreases n
  {
    if k < n {
      UndecidedTail(r, s, k, n - 1);
      SamePacket(r, s, n - 1);
    }
  }

  /** Chaining: what a longer input delivers extends what a shorter one delivered. */
  lemma DeliveredMonotone(r: Router, s: seq<Word>, t: seq<Word>, d: Route)
    requires s <= t && d != Hold
    ensures Delivered(r, s, d) <= Delivered(r, t, d)
  {
    var n := DecidedLength(r, s, |s|);
    DecidedLengthIs(r, s, |s|, d);
    RoutedPrefix(r, s, t, n, d);
    RoutedGrows(r, t, n, |t|, d);
  }

  function DecidedLength(r: Router, s: seq<Word>, n: nat): (m: nat)
    requires n <= |s|
    ensures m <= n
  {
    if n == 0 then 0 else if RouteOf(r, s, n - 1) == Hold then DecidedLength(r, s, n - 1) else n
  }

  lemma {:induction false} DecidedLengthIs(r: Router, s: seq<Word>, n: nat, d: Route)
    requires n <= |s| && d != Hold
    ensures var m := DecidedLength(r, s, n);
            AllDecided(r, s, m) && Routed(r, s, n, d) == Routed(r, s, m, d)
  {
    hide RouteOf;
    if n > 0 {
      if RouteOf(r, s, n - 1) == Hold {
        DecidedLengthIs(r, s, n - 1, d);
      } else {
        forall k | 0 <= k < n ensures RouteOf(r, s, k) != Hold {
          if RouteOf(r, s, k) == Hold { UndecidedTail(r, s, k, n - 1); }
        }
      }
    }
  }

  // ---------- packets ----------

  /** The class of a whole packet. */
  function Class(r: Router, p: Packet): Route { Decide(r, p, 0) }

  /** An independent reading of the classes: lengths and header bytes. */
  lemma ClassIs(r: Router, p: Packet)
    requires Framed(p)
    ensures r.ByEtype? ==> Class(r, p) == if |p| == 1 then ToOther else EtypeRoute(p[1])
    ensures r.ByProto? ==> Class(r, p) == if |p| <= 2 then ToOther else ProtoRoute(p[2])
    ensures Class(r, p) != Hold
  {
  }

  function Select(r: Router, ps: seq<Packet>, d: Route): seq<Packet> {
    if ps == [] then []
    else
      var q := ps[|ps| - 1];
      Select(r, ps[..|ps| - 1], d) + (if Class(r, q) == d then [q] else [])
  }

  lemma DecideShift(r: Router, base: seq<Word>, p: Packet)
    ensures Decide(r, base + p, |base|) == Decide(r, p, 0)
  {
    var s := base + p;
    if 0 < |p| { assert s[|base|] == p[0]; }
    if 1 < |p| { assert s[|base| + 1] == p[1]; }
    if 2 < |p| { assert s[|base| + 2] == p[2]; }
  }

  /** All words of a packet share its class. */
  lemma RouteInPacket(r: Router, base: seq<Word>, p: Packet, j: nat)
    requires Boundary(base) && j <= |p|
    requires forall i :: 0 <= i < j ==> !p[i].Last()
    ensures RouteOf(r, base + p, |base| + j) == Class(r, p)
  {
    StartInPacket(base, p, j);
    DecideShift(r, base, p);
  }

  lemma {:induction false} RoutedInPacket(r: Router, base: seq<Word>, p: Packet, j: nat, d: Route)
    requires Boundary(base) && AllDecided(r, base, |base|) && d != Hold
    requires j <= |p| && forall i :: 0 <= i < |p| - 1 ==> !p[i].Last()
    ensures Routed(r, base + p, |base| + j, d) == Delivered(r, base, d) + (if Class(r, p) == d then p[..j] else [])
  {
    hide RouteOf, Class, AllDecided, Boundary;
    var s := base + p;
    if j == 0 {
      RoutedPrefix(r, base, s, |base|, d);
      assert p[..0] == [];
    } else {
      RoutedInPacket(r, base, p, j - 1, d);
      RouteInPacket(r, base, p, j - 1);
      assert s[|base| + j - 1] == p[j - 1];
      assert p[..j] == p[..j - 1] + [p[j - 1]];
    }
  }

  lemma DecidedAppend(r: Router, base: seq<Word>, p: Packet)
    requires Boundary(base) && AllDecided(r, base, |base|) && Framed(p)
    ensures AllDecided(r, base + p, |base + p|)
  {
    DecidedPrefix(r, base, base + p, |base|);
    DecideShift(r, base, p);
    ClassIs(r, p);
    forall k | |base| <= k < |base + p| ensures RouteOf(r, base + p, k) != Hold {
      StartInPacket(base, p, k - |base|);
    }
  }

  lemma Whole(r: Router, base: seq<Word>, p: Packet, d: Route)
    requires Boundary(base) && AllDecided(r, base, |base|) && d != Hold && Framed(p)
    ensures Delivered(r, base + p, d) == Delivered(r, base, d) + (if Class(r, p) == d then p else [])
    ensures AllDecided(r, base + p, |base + p|)
  {
    RoutedInPacket(r, base, p, |p|, d);
    assert p[..|p|] == p;
    DecidedAppend(r, base, p);
  }

  /** On whole packets routing is a filter: every packet goes complete and in order to the port of
      its class, and to no other. */
  lemma {:induction false} DeliveredPackets(r: Router, ps: seq<Packet>, d: Route)
    requires AllFramed(ps) && d != Hold
    ensures Delivered(r, Flatten(ps), d) == Flatten(Select(r, ps, d))
    ensures AllDecided(r, Flatten(ps), |Flatten(ps)|)
    ensures AllFramed(Select(r, ps, d))
  {
    if ps != [] {
      var init, p := ps[..|ps| - 1], ps[|ps| - 1];
      assert Framed(p);
      hide Routed, AllDecided, Class;
      DeliveredPackets(r, init, d);
      FlattenBoundary(init);
      hide Delivered, AllFramed, Framed;
      Whole(r, Flatten(init), p, d);
      if Class(r, p) == d {
        FlattenSnoc(Select(r, init, d), p);
        FramedSnoc(Select(r, init, d), p);
      } else {
        assert Select(r, init, d) + [] == Select(r, init, d);
      }
    }
  }

  /** The same with an unfinished packet at the end: as soon as its class is known, the part that
      has arrived belongs to that port alone. */
  lemma DeliveredPartial(r: Router, ps: seq<Packet>, part: Packet, d: Route)
    requires AllFramed(ps) && d != Hold
    requires forall i :: 0 <= i < |part| ==> !part[i].Last()
    ensures Delivered(r, Flatten(ps) + part, d) ==
      Flatten(Select(r, ps, d)) + (if Class(r, part) == d then part else [])
  {
    DeliveredPackets(r, ps, d);
    FlattenBoundary(ps);
    RoutedInPacket(r, Flatten(ps), part, |part|, d);
    assert part[..|part|] == part;
  }
}
