/** The 64-bit Avalon-ST word every component exchanges, and packets as runs of words.

    The `data` field (UINT64) is kept as its four 16-bit lanes in wire order: `h0` is bits
    63..48, the first two bytes on the wire, and `h3` is bits 15..0.  Module MaskFacts proves,
    on real 64-bit vectors, that each mask-and-shift expression of the components is the lane
    move used here.  A packet ends at the first word whose `eop` is not zero; `sop` plays no
    part in framing. */
module Words {
  import opened Basics

  datatype Word = Word(h0: Half, h1: Half, h2: Half, h3: Half,
                       sop: Octet, eop: Octet, empty: Octet)
  {
    predicate Last() { eop != 0 }
  }

  type Packet = seq<Word>

  const NO_WORD := Word(0, 0, 0, 0, 0, 0, 0)

  /** A stage register with its enable flag. */
  datatype Slot = Slot(en: bool, word: Word)
  {
    function Held(): seq<Word> { if en then [word] else [] }
    function Count(): nat { if en then 1 else 0 }
  }

  const EMPTY := Slot(false, NO_WORD)

  /** An output register in front of a stream, with the log of the words written to the stream. */
  datatype OutPort = OutPort(slot: Slot, sent: seq<Word>)
  {
    /** Everything that has been given to the port. */
    function All(): seq<Word> { sent + slot.Held() }

    function Accepts(ready: bool): bool { !slot.en || ready }

    /** The write attempted in this call. */
    function Put(ready: bool): Option<Word> { if slot.en && ready then Some(slot.word) else None }

    function Flush(ready: bool): (r: OutPort)
      ensures r.All() == All() && r.sent == sent + Seq(Put(ready))
      ensures r.slot.en == (slot.en && !ready)
    {
      if slot.en && ready then OutPort(slot.(en := false), sent + [slot.word]) else this
    }

    function Load(w: Word): (r: OutPort)
      requires !slot.en
      ensures r.All() == All() + [w] && r.sent == sent && r.slot == Slot(true, w)
    {
      OutPort(Slot(true, w), sent)
    }
  }

  const CLOSED := OutPort(EMPTY, [])

  /** What a successful read or write adds to a history. */
  function Seq<T>(o: Option<T>): seq<T> {
    if o.Some? then [o.value] else []
  }

  ghost predicate Framed(p: Packet) {
    |p| > 0 && p[|p| - 1].Last() && forall i :: 0 <= i < |p| - 1 ==> !p[i].Last()
  }

  ghost predicate AllFramed(ps: seq<Packet>) {
    forall i :: 0 <= i < |ps| ==> Framed(ps[i])
  }

  function Flatten(ps: seq<Packet>): seq<Word> {
    if ps == [] then [] else Flatten(ps[..|ps| - 1]) + ps[|ps| - 1]
  }

  /** The next word to arrive opens a packet. */
  predicate Boundary(s: seq<Word>) {
    s == [] || s[|s| - 1].Last()
  }

  /** The value an 8-bit word counter gives to word `k`: it restarts after eop and wraps. */
  function Index(s: seq<Word>, k: nat): Octet
    requires k <= |s|
  {
    if k == 0 || s[k - 1].Last() then 0 else (Index(s, k - 1) + 1) % 0x100
  }

  /** Where the packet of word `k` begins. */
  function Start(s: seq<Word>, k: nat): (b: nat)
    requires k <= |s|
    ensures b <= k
    ensures b == 0 || s[b - 1].Last()
    ensures forall i :: b <= i < k ==> !s[i].Last()
  {
    if k == 0 || s[k - 1].Last() then k else Start(s, k - 1)
  }

  lemma {:induction false} IndexPrefix(s: seq<Word>, t: seq<Word>, k: nat)
    requires s <= t && k <= |s|
    ensures Index(s, k) == Index(t, k)
  {
    if k > 0 { IndexPrefix(s, t, k - 1); }
  }

  lemma {:induction false} StartPrefix(s: seq<Word>, t: seq<Word>, k: nat)
    requires s <= t && k <= |s|
    ensures Start(s, k) == Start(t, k)
  {
    if k > 0 { StartPrefix(s, t, k - 1); }
  }

  /** Inside a packet that follows complete ones, the counter is the offset modulo 256. */
  lemma {:induction false} IndexInPacket(base: seq<Word>, p: Packet, j: nat)
    requires Boundary(base) && j <= |p|
    requires forall i :: 0 <= i < j ==> !p[i].Last()
    ensures Index(base + p, |base| + j) == j % 0x100
  {
    if j > 0 {
      IndexInPacket(base, p, j - 1);
      assert (base + p)[|base| + j - 1] == p[j - 1];
    } else if base != [] {
      assert (base + p)[|base| - 1] == base[|base| - 1];
    }
  }

  lemma {:induction false} StartInPacket(base: seq<Word>, p: Packet, j: nat)
    requires Boundary(base) && j <= |p|
    requires forall i :: 0 <= i < j ==> !p[i].Last()
    ensures Start(base + p, |base| + j) == |base|
  {
    if j > 0 {
      StartInPacket(base, p, j - 1);
      assert (base + p)[|base| + j - 1] == p[j - 1];
    } else if base != [] {
      assert (base + p)[|base| - 1] == base[|base| - 1];
    }
  }

  lemma {:induction false} FlattenBoundary(ps: seq<Packet>)
    requires AllFramed(ps)
    ensures Boundary(Flatten(ps))
  {
    if ps != [] {
      FlattenBoundary(ps[..|ps| - 1]);
      var p := ps[|ps| - 1];
      assert Framed(p);
      assert Flatten(ps)[|Flatten(ps)| - 1] == p[|p| - 1];
    }
  }

  lemma FramedSnoc(ps: seq<Packet>, p: Packet)
    requires AllFramed(ps) && Framed(p)
    ensures AllFramed(ps + [p])
  {
  }

  lemma FlattenSnoc(ps: seq<Packet>, p: Packet)
    ensures Flatten(ps + [p]) == Flatten(ps) + p
  {
    assert (ps + [p])[..|ps|] == ps;
  }

  lemma {:induction false} FlattenAppend(ps: seq<Packet>, qs: seq<Packet>)
    ensures Flatten(ps + qs) == Flatten(ps) + Flatten(qs)
    decreases |qs|
  {
    if qs == [] {
      assert ps + qs == ps;
    } else {
      hide Flatten;
      var q, init := qs[|qs| - 1], qs[..|qs| - 1];
      FlattenAppend(ps, init);
      FlattenSnoc(init, q);
      assert init + [q] == qs && ps + qs == (ps + init) + [q];
      FlattenSnoc(ps + init, q);
    }
  }

  /** A stream cut at its eop words: the complete packets and the unfinished rest. */
  datatype Framing = Framing(whole: seq<Packet>, part: Packet)
  {
    function Words(): seq<Word> { Flatten(whole) + part }

    ghost predicate Valid() {
      AllFramed(whole) && forall i :: 0 <= i < |part| ==> !part[i].Last()
    }

    function Push(w: Word): Framing {
      if w.Last() then Framing(whole + [part + [w]], []) else Framing(whole, part + [w])
    }
  }

  function Parse(s: seq<Word>): Framing {
    if s == [] then Framing([], []) else Parse(s[..|s| - 1]).Push(s[|s| - 1])
  }

  lemma PushValid(f: Framing, w: Word)
    requires f.Valid()
    ensures f.Push(w).Valid() && f.Push(w).Words() == f.Words() + [w]
  {
    if w.Last() {
      FlattenSnoc(f.whole, f.part + [w]);
      var g := f.Push(w);
      forall i | 0 <= i < |g.whole| ensures Framed(g.whole[i]) {
        if i < |f.whole| { assert g.whole[i] == f.whole[i]; }
      }
    }
  }

  lemma {:induction false} ParseSound(s: seq<Word>)
    ensures Parse(s).Valid() && Parse(s).Words() == s
  {
    if s != [] {
      var init, w := s[..|s| - 1], s[|s| - 1];
      ParseSound(init);
      hide Flatten, Framing.Valid, Framing.Push, Framing.Words;
      PushValid(Parse(init), w);
      assert init + [w] == s;
    }
  }

  /** There is one way to cut a stream at its eop words. */
  lemma {:induction false} ParseUnique(f: Framing)
    requires f.Valid()
    ensures Parse(f.Words()) == f
    decreases |f.whole|, |f.part|
  {
    var s := f.Words();
    if f.part != [] {
      var g := Framing(f.whole, f.part[..|f.part| - 1]);
      ParseUnique(g);
      assert s[..|s| - 1] == g.Words();
      assert g.part + [f.part[|f.part| - 1]] == f.part;
    } else if f.whole != [] {
      var p := f.whole[|f.whole| - 1];
      assert Framed(p);
      var g := Framing(f.whole[..|f.whole| - 1], p[..|p| - 1]);
      ParseUnique(g);
      assert s[..|s| - 1] == g.Words();
      assert g.part + [p[|p| - 1]] == p;
      assert g.whole + [p] == f.whole;
    }
  }
}
