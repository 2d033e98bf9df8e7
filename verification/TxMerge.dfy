/** tx_merge: two packet streams into one without ever interleaving packets. */
module TxMerge {
  import opened Basics
  import opened Words

  datatype Source = Arp | Ipv4
  datatype Select = Idle | Only(source: Source)

  /** The words that came from `src`, in order; `tags` names the source of each output word. */
  function Project(out: seq<Word>, tags: seq<Source>, src: Source): seq<Word>
    requires |tags| == |out|
  {
    if out == [] then []
    else
      var n := |out| - 1;
      Project(out[..n], tags[..n], src) + (if tags[n] == src then [out[n]] else [])
  }

  /** The source that owns the unfinished packet at the end of the output, if any. */
  function Owner(out: seq<Word>, tags: seq<Source>): Select
    requires |tags| == |out|
  {
    if Boundary(out) then Idle else Only(tags[|tags| - 1])
  }

  /** Every word continues its packet from the same source. */
  ghost predicate Atomic(out: seq<Word>, tags: seq<Source>)
    requires |tags| == |out|
  {
    forall k :: 0 < k < |out| && !out[k - 1].Last() ==> tags[k] == tags[k - 1]
  }

  lemma SelectCases(s: Select)
    ensures s == Idle || s == Only(Arp) || s == Only(Ipv4)
  {
    if s.Only? {
      match s.source
      case Arp =>
      case Ipv4 =>
    }
  }

  lemma ProjectSnoc(out: seq<Word>, tags: seq<Source>, w: Word, t: Source, src: Source)
    requires |tags| == |out|
    ensures Project(out + [w], tags + [t], src) == Project(out, tags, src) + (if t == src then [w] else [])
  {
    assert (out + [w])[..|out|] == out && (tags + [t])[..|tags|] == tags;
  }

  lemma AtomicSnoc(out: seq<Word>, tags: seq<Source>, w: Word, t: Source)
    requires |tags| == |out| && Atomic(out, tags)
    requires Owner(out, tags) == Idle || Owner(out, tags) == Only(t)
    ensures Atomic(out + [w], tags + [t])
    ensures Owner(out + [w], tags + [t]) == if w.Last() then Idle else Only(t)
  {
  }

  // ---------- packets ----------

  /** The source of each complete packet of the output. */
  function Origins(out: seq<Word>, tags: seq<Source>): (r: seq<Source>)
    requires |tags| == |out|
  {
    if out == [] then []
    else
      var n := |out| - 1;
      Origins(out[..n], tags[..n]) + (if out[n].Last() then [tags[n]] else [])
  }

  /** The sub-sequence of packets that came from `src`. */
  function Pick(ps: seq<Packet>, from: seq<Source>, src: Source): seq<Packet>
    requires |from| == |ps|
  {
    if ps == [] then []
    else
      var n := |ps| - 1;
      Pick(ps[..n], from[..n], src) + (if from[n] == src then [ps[n]] else [])
  }

  lemma PickSnoc(ps: seq<Packet>, from: seq<Source>, p: Packet, t: Source, src: Source)
    requires |from| == |ps|
    ensures Pick(ps + [p], from + [t], src) == Pick(ps, from, src) + (if t == src then [p] else [])
  {
    assert (ps + [p])[..|ps|] == ps && (from + [t])[..|from|] == from;
  }

  /** The packets `merged` restricted to `src` are the packets `g`; the unfinished one belongs to
      `own` as a whole. */
  ghost predicate Shuffled(merged: Framing, from: seq<Source>, own: Select, g: Framing, src: Source) {
    && |from| == |merged.whole|
    && g.whole == Pick(merged.whole, from, src)
    && g.part == (if own == Only(src) then merged.part else [])
    && (own == Idle <==> merged.part == [])
  }

  lemma ShuffledPush(merged: Framing, from: seq<Source>, own: Select, g: Framing, src: Source, w: Word, tag: Source)
    requires Shuffled(merged, from, own, g, src)
    requires own == Idle || own == Only(tag)
    ensures Shuffled(merged.Push(w), if w.Last() then from + [tag] else from, if w.Last() then Idle else Only(tag),
                     if tag == src then g.Push(w) else g, src)
  {
    hide Pick;
    PickSnoc(merged.whole, from, merged.part + [w], tag, src);
    var picked := Pick(merged.whole, from, src);
    assert picked + [] == picked;
    if tag == src { assert g.part == merged.part; } else { assert g.part == []; }
  }

  /** An atomic output is a shuffle of packets: taking the complete output packets of one source
      gives exactly the complete packets of that source's words, in order, and the unfinished output
      packet belongs to one source as a whole. */
  lemma {:induction false} AtomicShuffle(out: seq<Word>, tags: seq<Source>, src: Source)
    requires |tags| == |out| && Atomic(out, tags)
    ensures Shuffled(Parse(out), Origins(out, tags), Owner(out, tags), Parse(Project(out, tags, src)), src)
  {
    if out != [] {
      hide *;
      var n := |out| - 1;
      assert out[..n] + [out[n]] == out && tags[..n] + [tags[n]] == tags;
      OwnerSnoc(out[..n], tags[..n], out[n], tags[n]);
      AtomicShuffle(out[..n], tags[..n], src);
      ShuffleSnoc(out[..n], tags[..n], out[n], tags[n], src);
    } else {
      assert Shuffled(Parse([]), [], Idle, Parse([]), src);
    }
  }

  lemma ShuffleSnoc(o: seq<Word>, t: seq<Source>, w: Word, tag: Source, src: Source)
    requires |t| == |o| && Atomic(o + [w], t + [tag])
    requires Shuffled(Parse(o), Origins(o, t), Owner(o, t), Parse(Project(o, t, src)), src)
    ensures Shuffled(Parse(o + [w]), Origins(o + [w], t + [tag]), Owner(o + [w], t + [tag]),
                     Parse(Project(o + [w], t + [tag], src)), src)
  {
    hide *;
    OwnerSnoc(o, t, w, tag);
    ParseSnoc(o, w);
    ProjectStep(o, t, w, tag, src);
    OriginsSnoc(o, t, w, tag);
    ShuffledPush(Parse(o), Origins(o, t), Owner(o, t), Parse(Project(o, t, src)), src, w, tag);
    assert Origins(o, t) + [] == Origins(o, t);
  }

  lemma OwnerSnoc(o: seq<Word>, t: seq<Source>, w: Word, tag: Source)
    requires |t| == |o| && Atomic(o + [w], t + [tag])
    ensures Atomic(o, t) && (Owner(o, t) == Idle || Owner(o, t) == Only(tag))
    ensures Owner(o + [w], t + [tag]) == if w.Last() then Idle else Only(tag)
  {
    var out, tags := o + [w], t + [tag];
    forall k | 0 < k < |o| && !o[k - 1].Last() ensures t[k] == t[k - 1] {
      assert out[k - 1] == o[k - 1] && tags[k] == t[k] && tags[k - 1] == t[k - 1];
    }
    if o != [] {
      assert out[|o| - 1] == o[|o| - 1] && tags[|o| - 1] == t[|o| - 1] && tags[|o|] == tag;
    }
  }

  lemma OriginsSnoc(o: seq<Word>, t: seq<Source>, w: Word, tag: Source)
    requires |t| == |o|
    ensures Origins(o + [w], t + [tag]) == Origins(o, t) + (if w.Last() then [tag] else [])
  {
    assert (o + [w])[..|o|] == o && (t + [tag])[..|t|] == t;
  }

  lemma ProjectStep(o: seq<Word>, t: seq<Source>, w: Word, tag: Source, src: Source)
    requires |t| == |o|
    ensures var p := Project(o, t, src);
            Parse(Project(o + [w], t + [tag], src)) == if tag == src then Parse(p).Push(w) else Parse(p)
  {
    hide Parse;
    ProjectSnoc(o, t, w, tag, src);
    var p := Project(o, t, src);
    ParseSnoc(p, w);
    assert p + [] == p;
  }

  lemma ParseSnoc(p: seq<Word>, w: Word)
    ensures Parse(p + [w]) == Parse(p).Push(w)
  {
    assert (p + [w])[..|p|] == p;
  }

  class Merger {
    var out: OutPort
    var stage0Arp: Slot
    var stage0Ipv4: Slot
    var portSelect: Select

    ghost var consumedArp: seq<Word>
    ghost var consumedIpv4: seq<Word>
    ghost var tags: seq<Source>

    ghost predicate Valid() reads this {
      && |tags| == |out.All()|
      && Atomic(out.All(), tags)
      && portSelect == Owner(out.All(), tags)
      && consumedArp == Project(out.All(), tags, Arp) + stage0Arp.Held()
      && consumedIpv4 == Project(out.All(), tags, Ipv4) + stage0Ipv4.Held()
    }

    constructor ()
      ensures Valid() && consumedArp == [] && consumedIpv4 == [] && out == CLOSED && portSelect == Idle
      ensures stage0Arp == stage0Ipv4 == EMPTY
    {
      out, stage0Arp, stage0Ipv4 := CLOSED, EMPTY, EMPTY;
      portSelect := Idle;
      consumedArp, consumedIpv4, tags := [], [], [];
    }

    /** Stage 1: lane merging. */
    method Merge()
      requires Valid()
      modifies `out, `tags, `portSelect, `stage0Arp, `stage0Ipv4
      ensures Valid() && out.sent == old(out.sent)
      ensures var pickArp := !old(out.slot.en) && old(stage0Arp.en) && old(portSelect) != Only(Ipv4);
              var pickIpv4 := !old(out.slot.en) && !pickArp && old(stage0Ipv4.en) && old(portSelect) != Only(Arp);
              && out.slot.en == (old(out.slot.en) || pickArp || pickIpv4)
              && tags == old(tags) + (if pickArp then [Arp] else if pickIpv4 then [Ipv4] else [])
              && stage0Arp.en == (old(stage0Arp.en) && !pickArp)
              && stage0Ipv4.en == (old(stage0Ipv4.en) && !pickIpv4)
              && portSelect == (if pickArp then (if old(stage0Arp.word).Last() then Idle else Only(Arp))
                                else if pickIpv4 then (if old(stage0Ipv4.word).Last() then Idle else Only(Ipv4))
                                else old(portSelect))
    {
      hide Project, Owner, Atomic, OutPort.All;
      if !out.slot.en {
        if stage0Arp.en && portSelect != Only(Ipv4) {
          SelectCases(portSelect);
          Append(stage0Arp.word, Arp);
          out := out.Load(stage0Arp.word);
          tags := tags + [Arp];
          portSelect := if stage0Arp.word.Last() then Idle else Only(Arp);
          stage0Arp := stage0Arp.(en := false);
        } else if stage0Ipv4.en && portSelect != Only(Arp) {
          SelectCases(portSelect);
          Append(stage0Ipv4.word, Ipv4);
          out := out.Load(stage0Ipv4.word);
          tags := tags + [Ipv4];
          portSelect := if stage0Ipv4.word.Last() then Idle else Only(Ipv4);
          stage0Ipv4 := stage0Ipv4.(en := false);
        }
      }
    }

    /** Stage 0: read stage. */
    method Read(offerArp: Option<Word>, offerIpv4: Option<Word>) returns (tookArp: bool, tookIpv4: bool)
      requires Valid()
      modifies `stage0Arp, `stage0Ipv4, `consumedArp, `consumedIpv4
      ensures Valid()
      ensures tookArp == (offerArp.Some? && !old(stage0Arp.en)) && stage0Arp.en == (tookArp || old(stage0Arp.en))
      ensures tookIpv4 == (offerIpv4.Some? && !old(stage0Ipv4.en)) && stage0Ipv4.en == (tookIpv4 || old(stage0Ipv4.en))
      ensures consumedArp == old(consumedArp) + (if tookArp then [offerArp.value] else [])
      ensures consumedIpv4 == old(consumedIpv4) + (if tookIpv4 then [offerIpv4.value] else [])
    {
      hide Project, Owner, Atomic, OutPort.All;
      tookArp, tookIpv4 := false, false;
      if !stage0Arp.en && offerArp.Some? {
        tookArp := true;
        stage0Arp := Slot(true, offerArp.value);
        consumedArp := consumedArp + [offerArp.value];
      }
      if !stage0Ipv4.en && offerIpv4.Some? {
        tookIpv4 := true;
        stage0Ipv4 := Slot(true, offerIpv4.value);
        consumedIpv4 := consumedIpv4 + [offerIpv4.value];
      }
    }

    /** A word that is offered on the ARP side now is taken. */
    predicate TakesArp(ready: bool) reads `out, `stage0Arp, `portSelect {
      !stage0Arp.en || (out.Accepts(ready) && portSelect != Only(Ipv4))
    }

    /** A word that is offered on the IPv4 side now is taken; ARP goes first. */
    predicate TakesIpv4(ready: bool) reads `out, `stage0Arp, `stage0Ipv4, `portSelect {
      !stage0Ipv4.en || (out.Accepts(ready) && portSelect != Only(Arp) && (!stage0Arp.en || portSelect == Only(Ipv4)))
    }

    method Step(offerArp: Option<Word>, offerIpv4: Option<Word>, ready: bool)
      returns (tookArp: bool, tookIpv4: bool)
      requires Valid()
      modifies this
      ensures Valid()
      ensures out.sent == old(out.sent) + Seq(old(out).Put(ready))
      ensures var pickArp := old(out).Accepts(ready) && old(stage0Arp.en) && old(portSelect) != Only(Ipv4);
              var pickIpv4 := old(out).Accepts(ready) && !pickArp && old(stage0Ipv4.en) && old(portSelect) != Only(Arp);
              && out.slot.en == ((old(out.slot.en) && !ready) || pickArp || pickIpv4)
              && tags == old(tags) + (if pickArp then [Arp] else if pickIpv4 then [Ipv4] else [])
              && tookArp == (offerArp.Some? && (!old(stage0Arp.en) || pickArp))
              && tookIpv4 == (offerIpv4.Some? && (!old(stage0Ipv4.en) || pickIpv4))
              && stage0Arp.en == (tookArp || (old(stage0Arp.en) && !pickArp))
              && stage0Ipv4.en == (tookIpv4 || (old(stage0Ipv4.en) && !pickIpv4))
              && portSelect == (if pickArp then (if old(stage0Arp.word).Last() then Idle else Only(Arp))
                                else if pickIpv4 then (if old(stage0Ipv4.word).Last() then Idle else Only(Ipv4))
                                else old(portSelect))
      ensures tookArp == (offerArp.Some? && old(TakesArp(ready)))
      ensures tookIpv4 == (offerIpv4.Some? && old(TakesIpv4(ready)))
      ensures (tookArp ==> offerArp.Some?) && (tookIpv4 ==> offerIpv4.Some?)
      ensures consumedArp == old(consumedArp) + (if tookArp then [offerArp.value] else [])
      ensures consumedIpv4 == old(consumedIpv4) + (if tookIpv4 then [offerIpv4.value] else [])
    {
      hide Project, Owner, Atomic, OutPort.All;
      // output stage
      out := out.Flush(ready);
      Merge();
      tookArp, tookIpv4 := Read(offerArp, offerIpv4);
    }

    lemma Append(w: Word, t: Source)
      requires |tags| == |out.All()| && Atomic(out.All(), tags)
      requires Owner(out.All(), tags) == Idle || Owner(out.All(), tags) == Only(t)
      ensures var o, g := out.All() + [w], tags + [t];
              && Atomic(o, g) && Owner(o, g) == (if w.Last() then Idle else Only(t))
              && Project(o, g, t) == Project(out.All(), tags, t) + [w]
              && (forall s :: s != t ==> Project(o, g, s) == Project(out.All(), tags, s))
    {
      AtomicSnoc(out.All(), tags, w, t);
      forall s { ProjectSnoc(out.All(), tags, w, t, s); }
    }

    /** Something can move when the sink is ready. */
    predicate Busy() reads `out, `stage0Arp, `stage0Ipv4, `portSelect {
      out.slot.en || (stage0Arp.en && portSelect != Only(Ipv4)) || (stage0Ipv4.en && portSelect != Only(Arp))
    }

    function Distance(): nat reads `out, `stage0Arp, `stage0Ipv4 {
      out.slot.Count() + 2 * stage0Arp.Count() + 2 * stage0Ipv4.Count()
    }

    /** With a ready sink every call brings something nearer to the output while anything can move or
        be read. */
    method Forward(offerArp: Option<Word>, offerIpv4: Option<Word>) returns (tookArp: bool, tookIpv4: bool)
      requires Valid()
      modifies this
      ensures Valid() && out.sent == old(out.All())
      ensures (tookArp ==> offerArp.Some?) && (tookIpv4 ==> offerIpv4.Some?)
      ensures consumedArp == old(consumedArp) + (if tookArp then [offerArp.value] else [])
      ensures consumedIpv4 == old(consumedIpv4) + (if tookIpv4 then [offerIpv4.value] else [])
      ensures old(Busy()) || (offerArp.Some? && !old(stage0Arp.en)) || (offerIpv4.Some? && !old(stage0Ipv4.en)) ==>
                Distance() < old(Distance()) + (if tookArp then 3 else 0) + (if tookIpv4 then 3 else 0)
      ensures !(old(Busy()) || (offerArp.Some? && !old(stage0Arp.en)) || (offerIpv4.Some? && !old(stage0Ipv4.en))) ==>
                && !Busy() && Distance() == old(Distance()) && !tookArp && !tookIpv4
                && stage0Arp.en == old(stage0Arp.en) && stage0Ipv4.en == old(stage0Ipv4.en)
    {
      hide Valid;
      tookArp, tookIpv4 := Step(offerArp, offerIpv4, true);
    }

    /** With a ready sink and no further input, what stays behind waits for the rest of a packet from
        the other source and for nothing else. */
    method Settle()
      requires Valid()
      modifies this
      ensures Valid() && consumedArp == old(consumedArp) && consumedIpv4 == old(consumedIpv4)
      ensures !out.slot.en
      ensures stage0Arp.en ==> portSelect == Only(Ipv4)
      ensures stage0Ipv4.en ==> portSelect == Only(Arp)
    {
      hide Project, Owner, Atomic, OutPort.All;
      ghost var a, b := consumedArp, consumedIpv4;
      while Busy()
        invariant Valid() && consumedArp == a && consumedIpv4 == b
        decreases Distance()
      {
        var p, q := Forward(None, None);
        assert consumedArp == a && consumedIpv4 == b;
      }
    }
  }
}
