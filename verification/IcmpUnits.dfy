/** The four ICMP components as clocked machines: one `Step` is one call of the component.

    `offer` is what a `tryRead` of the input would return in this call and `ready` is whether a
    `tryWrite` would succeed.  `consumed` and `emitted` record every successful transfer since
    reset.  Each `Valid` ties all registers to these two histories, so that the histories, the
    enable flags and `Valid` together fix the whole state. */
module IcmpUnits {
  import opened Basics
  import opened Words
  import opened IcmpSpec

  /** What stage 1 of a swapping component holds for word `k`: the second word of a pair has been
      rewritten already. */
  ghost function Middle(u: Unit, s: seq<Word>, k: nat): Word
    requires (u.SwapMac? || u.SwapIp?) && k < |s|
  {
    if Index(s, k) == u.First() + 1 && k > 0 then Trail(u, s[k - 1], s[k]) else s[k]
  }

  lemma StreamStep(u: Unit, s: seq<Word>, k: nat)
    requires k < |s| && |Stream(u, s, k)| == k && !Blocked(u, s, k)
    ensures Stream(u, s, k + 1) == Stream(u, s, k) + [Out(u, s, k)]
  {
  }

  /** The register view of a pair of words and the stream view agree. */
  lemma PairFacts(u: Unit, s: seq<Word>, k: nat)
    requires (u.SwapMac? || u.SwapIp?) && k < |s|
    ensures Index(s, k) != u.First() ==> !Blocked(u, s, k) && Out(u, s, k) == Middle(u, s, k)
    ensures Index(s, k) != u.First() + 1 ==> Middle(u, s, k) == s[k]
    ensures Index(s, k) == u.First() && k + 1 == |s| ==> Blocked(u, s, k)
    ensures Index(s, k) == u.First() && k + 1 < |s| ==> Out(u, s, k) == Lead(u, s[k], s[k + 1])
    ensures Index(s, k) == u.First() && k + 1 < |s| ==> (Blocked(u, s, k) <==> Index(s, k + 1) != u.First() + 1)
    ensures k + 1 < |s| ==>
      Middle(u, s, k + 1) ==
        if Index(s, k) == u.First() && !Blocked(u, s, k) then Trail(u, s[k], s[k + 1]) else s[k + 1]
    ensures Index(s, k + 1) == u.First() + 1 ==> Index(s, k) == u.First()
  {
    assert Index(s, k + 1) == u.First() + 1 ==> !s[k].Last();
  }

  /** The checksum component's view of a word leaving stage 2. */
  lemma SumFacts(s: seq<Word>, k: nat)
    requires k < |s|
    ensures Index(s, k) != 3 ==> !Blocked(Chksum, s, k) && Out(Chksum, s, k) == s[k]
    ensures Index(s, k) == 3 && k + 1 == |s| ==> Blocked(Chksum, s, k)
    ensures Index(s, k) == 3 && k + 1 < |s| ==> (Blocked(Chksum, s, k) <==> Index(s, k + 1) != 4)
    ensures Index(s, k) == 3 && k + 1 < |s| && !Blocked(Chksum, s, k) ==>
      Out(Chksum, s, k) == s[k].(h0 := SumField(Register(s, k + 2)))
  {
    if Index(s, k) == 3 && k + 1 < |s| && !s[k].Last() { RegisterIsHeader(s, k); }
  }

  /** Reading one more word leaves every determined value alone. */
  lemma ReadKeeps(u: Unit, s: seq<Word>, w: Word, k: nat)
    requires k <= |s| && |Stream(u, s, k)| == k
    ensures Stream(u, s + [w], k) == Stream(u, s, k)
    ensures Index(s + [w], k) == Index(s, k)
    ensures k < |s| && (u.SwapMac? || u.SwapIp?) ==> Middle(u, s + [w], k) == Middle(u, s, k)
    ensures Index(s + [w], |s|) == Index(s, |s|)
    ensures Index(s + [w], |s| + 1) == if w.Last() then 0 else (Index(s, |s|) + 1) % 0x100
  {
    var t := s + [w];
    StreamPrefix(u, s, t, k);
    IndexPrefix(s, t, k);
    IndexPrefix(s, t, |s|);
  }

  /** icmp_proc_swapmac and icmp_proc_swapip: the same machine around different word pairs. */
  class SwapUnit {
    const kind: Unit
    var stage2: Word
    var stage1: Word
    var stage0: Word
    var stage1Idx: Octet
    var stage0Idx: Octet
    var stage2En: bool
    var stage1En: bool
    var stage0En: bool
    var idxCounter: Octet

    ghost var consumed: seq<Word>
    ghost var emitted: seq<Word>

    /** How many words have entered the output register. */
    ghost function Passed(): nat reads this {
      |emitted| + (if stage2En then 1 else 0)
    }

    ghost predicate Valid() reads this {
      && (kind.SwapMac? || kind.SwapIp?)
      && |consumed| == Passed() + (if stage1En then 1 else 0) + (if stage0En then 1 else 0)
      && Stream(kind, consumed, Passed()) == emitted + (if stage2En then [stage2] else [])
      && (stage1En ==> stage1 == Middle(kind, consumed, Passed()) && stage1Idx == Index(consumed, Passed()))
      && (!stage1En ==> Index(consumed, Passed()) != kind.First() + 1)
      && (stage0En ==> stage0 == consumed[|consumed| - 1] && stage0Idx == Index(consumed, |consumed| - 1))
      && idxCounter == Index(consumed, |consumed|)
    }

    /** The word in stage 1 may move on. */
    ghost predicate Leaves() reads this requires Valid() {
      stage1En && !Blocked(kind, consumed, Passed())
    }

    constructor (kind: Unit)
      requires kind.SwapMac? || kind.SwapIp?
      ensures Valid() && this.kind == kind && consumed == [] && emitted == []
      ensures !stage2En && !stage1En && !stage0En
    {
      this.kind := kind;
      stage2, stage1, stage0 := NO_WORD, NO_WORD, NO_WORD;
      stage1Idx, stage0Idx, idxCounter := 0, 0, 0;
      stage2En, stage1En, stage0En := false, false, false;
      consumed, emitted := [], [];
    }

    /** A word that is offered now is taken. */
    ghost predicate Takes(ready: bool) reads this requires Valid() {
      !stage0En || !stage1En || (Leaves() && (!stage2En || ready))
    }

    /** Output stage. */
    method Output(ready: bool) returns (put: Option<Word>)
      requires Valid()
      modifies `stage2En, `emitted
      ensures Valid() && Passed() == old(Passed())
      ensures put == if old(stage2En) && ready then Some(stage2) else None
      ensures emitted == old(emitted) + Seq(put)
      ensures stage2En == (old(stage2En) && !ready)
    {
      put := None;
      if stage2En && ready {
        put := Some(stage2);
        emitted := emitted + [stage2];
        stage2En := false;
      }
    }

    /** Stages 2 and 1. */
    method Shift()
      requires Valid()
      modifies `stage2, `stage1, `stage1Idx, `stage2En, `stage1En, `stage0En
      ensures Valid()
      ensures old(stage2En) ==> stage2 == old(stage2)
      ensures stage2En == (old(stage2En) || old(Leaves()))
      ensures stage1En == (old(stage0En) || (old(stage1En) && !(old(Leaves()) && !old(stage2En))))
      ensures stage0En == (old(stage0En) && old(stage1En) && !(old(Leaves()) && !old(stage2En)))
    {
      hide Out, Stream, Index, Middle, Blocked;
      ghost var k := Passed();
      if k < |consumed| {
        PairFacts(kind, consumed, k);
        if !Blocked(kind, consumed, k) { StreamStep(kind, consumed, k); }
      }
      var swapOpEn := false;
      if !stage2En && stage1En {
        if stage1Idx != kind.First() {
          stage2, stage2En, stage1En := stage1, true, false;
        } else if stage0En && stage0Idx == kind.First() + 1 {
          stage2, stage2En, stage1En := Lead(kind, stage1, stage0), true, false;
          swapOpEn := true;
        }
      }
      if !stage1En && stage0En {
        stage1 := if swapOpEn then Trail(kind, stage1, stage0) else stage0;
        stage1Idx, stage1En, stage0En := stage0Idx, true, false;
      }
    }

    /** Input stage. */
    method Input(offer: Option<Word>) returns (took: bool)
      requires Valid()
      modifies `stage0, `stage0Idx, `stage0En, `idxCounter, `consumed
      ensures Valid()
      ensures took == (offer.Some? && !old(stage0En))
      ensures stage0En == (old(stage0En) || took)
      ensures consumed == old(consumed) + (if took then [offer.value] else [])
    {
      hide Out, Stream, Index, Middle, Blocked;
      took := false;
      if !stage0En && offer.Some? {
        took := true;
        ReadKeeps(kind, consumed, offer.value, Passed());
        stage0, stage0En := offer.value, true;
        stage0Idx := idxCounter;
        idxCounter := if stage0.Last() then 0 else (idxCounter + 1) % 0x100;
        consumed := consumed + [stage0];
      }
    }

    method Step(offer: Option<Word>, ready: bool) returns (put: Option<Word>, took: bool)
      requires Valid()
      modifies this
      ensures Valid()
      ensures put == if old(stage2En) && ready then Some(old(stage2)) else None
      ensures emitted == old(emitted) + Seq(put)
      ensures var left := (!old(stage2En) || ready) && old(Leaves());
              took == (offer.Some? && (!old(stage0En) || !old(stage1En) || left))
      ensures took == (offer.Some? && old(Takes(ready)))
      ensures consumed == old(consumed) + (if took then [offer.value] else [])
      ensures stage2En == ((old(stage2En) && !ready) || old(Leaves()))
      ensures stage1En == (old(stage0En) || (old(stage1En) && !(old(Leaves()) && (!old(stage2En) || ready))))
      ensures stage0En == (took || (old(stage0En) && old(stage1En) && !(old(Leaves()) && (!old(stage2En) || ready))))
    {
      put := Output(ready);
      Shift();
      took := Input(offer);
    }

    /** `Leaves` as the registers show it. */
    predicate Moves() reads this {
      stage1En && !kind.Param? && (stage1Idx != kind.First() || (stage0En && stage0Idx == kind.First() + 1))
    }

    lemma MovesIsLeaves()
      requires Valid()
      ensures Moves() == Leaves()
    {
      if stage1En { PairFacts(kind, consumed, Passed()); }
    }

    /** Something can move when the sink is ready. */
    predicate Busy() reads this { stage2En || Moves() || (stage0En && !stage1En) }

    /** A full pipeline whose head waits for ever. */
    ghost predicate Jammed() reads this requires Valid() { stage1En && stage0En && !Leaves() }

    ghost function Distance(): nat reads `stage2En, `stage1En, `stage0En {
      (if stage2En then 1 else 0) + (if stage1En then 2 else 0) + (if stage0En then 3 else 0)
    }

    /** With a ready sink every call brings something nearer to the output unless the unit is jammed. */
    method Forward(offer: Option<Word>) returns (put: Option<Word>, took: bool)
      requires Valid() && !Jammed()
      modifies this
      ensures Valid() && emitted == old(emitted) + Seq(put)
      ensures took ==> offer.Some?
      ensures consumed == old(consumed) + (if took then [offer.value] else [])
      ensures old(Busy()) || offer.Some? ==> Distance() < old(Distance()) + (if took then 4 else 0)
      ensures !old(Busy()) && offer.None? ==> !Busy() && Distance() == old(Distance())
      ensures !old(Busy()) ==> put.None?
    {
      MovesIsLeaves();
      hide Valid, Out, Stream, Index, Middle, Blocked, Moves;
      put, took := Step(offer, true);
      if !old(Busy()) && offer.None? {
        assert consumed == old(consumed) && emitted == old(emitted);
        MovesIsLeaves();
      }
    }

    /** With a ready sink and no further input, three calls push out everything that can leave;
        the result depends on what was consumed and on nothing else. */
    method Settle()
      requires Valid()
      modifies this
      ensures Valid() && consumed == old(consumed)
      ensures emitted == All(kind, consumed)
      ensures Passes(kind, consumed) ==> !stage2En && !stage1En && !stage0En
    {
      hide Out, Stream, Index, Middle, Blocked;
      ghost var s := consumed;
      var p, t := Step(None, true);
      assert consumed == s;
      p, t := Step(None, true);
      assert consumed == s;
      p, t := Step(None, true);
      assert consumed == s;
      if Passed() < |consumed| {
        StreamStops(kind, consumed, Passed(), |consumed|);
      }
    }
  }

  /** icmp_proc_param: a register pair that rewrites the ICMP type and checksum. */
  class ParamUnit {
    var stage1: Word
    var stage0: Word
    var stage0Idx: Octet
    var stage1En: bool
    var stage0En: bool
    var idxCounter: Octet

    ghost var consumed: seq<Word>
    ghost var emitted: seq<Word>

    ghost function Passed(): nat reads this {
      |emitted| + (if stage1En then 1 else 0)
    }

    ghost predicate Valid() reads this {
      && |consumed| == Passed() + (if stage0En then 1 else 0)
      && Stream(Param, consumed, Passed()) == emitted + (if stage1En then [stage1] else [])
      && (stage0En ==> stage0 == consumed[Passed()] && stage0Idx == Index(consumed, Passed()))
      && idxCounter == Index(consumed, |consumed|)
    }

    constructor ()
      ensures Valid() && consumed == [] && emitted == []
      ensures !stage1En && !stage0En
    {
      stage1, stage0 := NO_WORD, NO_WORD;
      stage0Idx, idxCounter := 0, 0;
      stage1En, stage0En := false, false;
      consumed, emitted := [], [];
    }

    method Output(ready: bool) returns (put: Option<Word>)
      requires Valid()
      modifies `stage1En, `emitted
      ensures Valid() && Passed() == old(Passed())
      ensures put == if old(stage1En) && ready then Some(stage1) else None
      ensures emitted == old(emitted) + Seq(put)
      ensures stage1En == (old(stage1En) && !ready)
    {
      put := None;
      if stage1En && ready {
        put := Some(stage1);
        emitted := emitted + [stage1];
        stage1En := false;
      }
    }

    method Shift()
      requires Valid()
      modifies `stage1, `stage1En, `stage0En
      ensures Valid()
      ensures old(stage1En) ==> stage1 == old(stage1)
      ensures stage1En == (old(stage1En) || old(stage0En))
      ensures stage0En == (old(stage0En) && old(stage1En))
    {
      if !stage1En && stage0En {
        StreamStep(Param, consumed, Passed());
        stage1 := if stage0Idx == 4 then stage0.(h1 := stage0.h1 % 0x100, h2 := UpdateSum(stage0.h2)) else stage0;
        stage1En, stage0En := true, false;
      }
    }

    method Input(offer: Option<Word>) returns (took: bool)
      requires Valid()
      modifies `stage0, `stage0Idx, `stage0En, `idxCounter, `consumed
      ensures Valid()
      ensures took == (offer.Some? && !old(stage0En))
      ensures stage0En == (old(stage0En) || took)
      ensures consumed == old(consumed) + (if took then [offer.value] else [])
    {
      hide Out, Stream, Index, Blocked;
      took := false;
      if !stage0En && offer.Some? {
        took := true;
        ReadKeeps(Param, consumed, offer.value, Passed());
        stage0, stage0En := offer.value, true;
        stage0Idx := idxCounter;
        idxCounter := if stage0.Last() then 0 else (idxCounter + 1) % 0x100;
        consumed := consumed + [stage0];
      }
    }

    method Step(offer: Option<Word>, ready: bool) returns (put: Option<Word>, took: bool)
      requires Valid()
      modifies this
      ensures Valid()
      ensures put == if old(stage1En) && ready then Some(old(stage1)) else None
      ensures emitted == old(emitted) + Seq(put)
      ensures took == (offer.Some? && (!old(stage0En) || !old(stage1En) || ready))
      ensures consumed == old(consumed) + (if took then [offer.value] else [])
      ensures stage1En == ((old(stage1En) && !ready) || old(stage0En))
      ensures stage0En == (took || (old(stage0En) && old(stage1En) && !ready))
      ensures took == (offer.Some? && old(Takes(ready)))
    {
      put := Output(ready);
      Shift();
      took := Input(offer);
    }

    /** A word that is offered now is taken. */
    predicate Takes(ready: bool) reads `stage1En, `stage0En { !stage0En || !stage1En || ready }

    predicate Busy() reads `stage1En, `stage0En { stage1En || stage0En }

    function Distance(): nat reads `stage1En, `stage0En {
      (if stage1En then 1 else 0) + (if stage0En then 2 else 0)
    }

    method Forward(offer: Option<Word>) returns (put: Option<Word>, took: bool)
      requires Valid()
      modifies this
      ensures Valid() && emitted == old(emitted) + Seq(put)
      ensures took ==> offer.Some?
      ensures consumed == old(consumed) + (if took then [offer.value] else [])
      ensures old(Busy()) || offer.Some? ==> Distance() < old(Distance()) + (if took then 3 else 0)
      ensures !old(Busy()) && offer.None? ==> !Busy() && Distance() == old(Distance())
      ensures !old(Busy()) ==> put.None?
    {
      hide Valid;
      put, took := Step(offer, true);
    }

    method Settle()
      requires Valid()
      modifies this
      ensures Valid() && consumed == old(consumed)
      ensures emitted == All(Param, consumed) && Passes(Param, consumed)
      ensures !stage1En && !stage0En
    {
      var p, t := Step(None, true);
      p, t := Step(None, true);
    }
  }

  /** icmp_proc_ipv4chksum: one register accumulates the header sum of whichever packet is
      entering, and is read when word 3 of that packet leaves stage 2. */
  class ChksumUnit {
    var stage3: Word
    var stage2: Word
    var stage1: Word
    var stage0: Word
    var stage2Idx: Octet
    var stage1Idx: Octet
    var stage0Idx: Octet
    var stage3En: bool
    var stage2En: bool
    var stage1En: bool
    var stage0En: bool
    var idxCounter: Octet
    var checksum: nat

    ghost var consumed: seq<Word>
    ghost var emitted: seq<Word>

    ghost function Passed(): nat reads this {
      |emitted| + (if stage3En then 1 else 0)
    }

    /** How many words have entered stage 1, and so have been summed. */
    ghost function Summed(): nat reads this {
      Passed() + (if stage2En then 1 else 0) + (if stage1En then 1 else 0)
    }

    ghost predicate Valid() reads this {
      && |consumed| == Summed() + (if stage0En then 1 else 0)
      && Stream(Chksum, consumed, Passed()) == emitted + (if stage3En then [stage3] else [])
      && (stage2En ==> stage2 == consumed[Passed()] && stage2Idx == Index(consumed, Passed()))
      && (stage1En ==> stage1 == consumed[Summed() - 1] && stage1Idx == Index(consumed, Summed() - 1))
      && (stage0En ==> stage0 == consumed[Summed()] && stage0Idx == Index(consumed, Summed()))
      && idxCounter == Index(consumed, |consumed|)
      && checksum == Register(consumed, Summed())
    }

    /** The word in stage 2 may move on. */
    ghost predicate Leaves() reads this requires Valid() {
      stage2En && !Blocked(Chksum, consumed, Passed()) && (Index(consumed, Passed()) == 3 ==> stage1En)
    }

    constructor ()
      ensures Valid() && consumed == [] && emitted == []
      ensures !stage3En && !stage2En && !stage1En && !stage0En
    {
      stage3, stage2, stage1, stage0 := NO_WORD, NO_WORD, NO_WORD, NO_WORD;
      stage2Idx, stage1Idx, stage0Idx, idxCounter := 0, 0, 0, 0;
      stage3En, stage2En, stage1En, stage0En := false, false, false, false;
      checksum := 0;
      consumed, emitted := [], [];
    }

    method Output(ready: bool) returns (put: Option<Word>)
      requires Valid()
      modifies `stage3En, `emitted
      ensures Valid() && Passed() == old(Passed())
      ensures put == if old(stage3En) && ready then Some(stage3) else None
      ensures emitted == old(emitted) + Seq(put)
      ensures stage3En == (old(stage3En) && !ready)
    {
      put := None;
      if stage3En && ready {
        put := Some(stage3);
        emitted := emitted + [stage3];
        stage3En := false;
      }
    }

    /** Stage 3. */
    method Shift3()
      requires Valid()
      modifies `stage3, `stage3En, `stage2En
      ensures Valid() && Summed() == old(Summed())
      ensures old(stage3En) ==> stage3 == old(stage3)
      ensures stage3En == (old(stage3En) || old(Leaves()))
      ensures stage2En == (old(stage2En) && !(old(Leaves()) && !old(stage3En)))
    {
      hide Out, Stream, Index, Blocked, Register;
      if stage2En {
        SumFacts(consumed, Passed());
        if !Blocked(Chksum, consumed, Passed()) { StreamStep(Chksum, consumed, Passed()); }
      }
      if !stage3En && stage2En {
        if stage2Idx != 3 {
          stage3, stage3En, stage2En := stage2, true, false;
        } else if stage1En && stage1Idx == 4 {
          stage3, stage3En, stage2En := stage2.(h0 := 0xFFFF - checksum % 0x1_0000), true, false;
        }
      }
    }

    /** Stages 2 and 1. */
    method Shift21()
      requires Valid()
      modifies `stage2, `stage2Idx, `stage2En, `stage1, `stage1Idx, `stage1En, `stage0En, `checksum
      ensures Valid() && Passed() == old(Passed())
      ensures stage2En == (old(stage2En) || old(stage1En))
      ensures stage1En == ((old(stage1En) && old(stage2En)) || old(stage0En))
      ensures stage0En == (old(stage0En) && old(stage1En) && old(stage2En))
    {
      hide Out, Stream, Index, Blocked, Accumulate;
      if !stage2En && stage1En {
        stage2, stage2Idx, stage2En, stage1En := stage1, stage1Idx, true, false;
      }
      if !stage1En && stage0En {
        checksum := Accumulate(checksum, stage0Idx, stage0);
        stage1, stage1Idx, stage1En, stage0En := stage0, stage0Idx, true, false;
      }
    }

    method Input(offer: Option<Word>) returns (took: bool)
      requires Valid()
      modifies `stage0, `stage0Idx, `stage0En, `idxCounter, `consumed
      ensures Valid()
      ensures took == (offer.Some? && !old(stage0En))
      ensures stage0En == (old(stage0En) || took)
      ensures consumed == old(consumed) + (if took then [offer.value] else [])
    {
      hide Out, Stream, Index, Blocked, Register;
      took := false;
      if !stage0En && offer.Some? {
        took := true;
        ghost var t := consumed + [offer.value];
        ReadKeeps(Chksum, consumed, offer.value, Passed());
        RegisterPrefix(consumed, t, Summed());
        if stage1En { IndexPrefix(consumed, t, Summed() - 1); }
        stage0, stage0En := offer.value, true;
        stage0Idx := idxCounter;
        idxCounter := if stage0.Last() then 0 else (idxCounter + 1) % 0x100;
        consumed := t;
      }
    }

    method Step(offer: Option<Word>, ready: bool) returns (put: Option<Word>, took: bool)
      requires Valid()
      modifies this
      ensures Valid()
      ensures put == if old(stage3En) && ready then Some(old(stage3)) else None
      ensures emitted == old(emitted) + Seq(put)
      ensures took ==> offer.Some?
      ensures consumed == old(consumed) + (if took then [offer.value] else [])
      ensures stage3En == ((old(stage3En) && !ready) || old(Leaves()))
      ensures var left := old(Leaves()) && (!old(stage3En) || ready);
              stage2En == ((old(stage2En) && !left) || old(stage1En))
      ensures var left := old(Leaves()) && (!old(stage3En) || ready);
              stage1En == ((old(stage1En) && old(stage2En) && !left) || old(stage0En))
      ensures var left := old(Leaves()) && (!old(stage3En) || ready);
              var full := old(stage0En) && old(stage1En) && old(stage2En) && !left;
              took == (offer.Some? && !full) && stage0En == (took || full)
      ensures took == (offer.Some? && old(Takes(ready)))
    {
      hide Out, Stream, Index, Blocked, Register;
      put := Output(ready);
      Shift3();
      Shift21();
      took := Input(offer);
    }

    /** A word that is offered now is taken. */
    ghost predicate Takes(ready: bool) reads this requires Valid() {
      !stage0En || !stage1En || !stage2En || (Leaves() && (!stage3En || ready))
    }

    predicate Moves() reads this {
      stage2En && (stage2Idx != 3 || (stage1En && stage1Idx == 4))
    }

    lemma MovesIsLeaves()
      requires Valid()
      ensures Moves() == Leaves()
    {
      hide Register;
      if stage2En { SumFacts(consumed, Passed()); }
    }

    predicate Busy() reads this {
      stage3En || Moves() || (stage1En && !stage2En) || (stage0En && !stage1En)
    }

    ghost predicate Jammed() reads this requires Valid() { stage2En && stage1En && stage0En && !Leaves() }

    ghost function Distance(): nat reads `stage3En, `stage2En, `stage1En, `stage0En {
      (if stage3En then 1 else 0) + (if stage2En then 2 else 0)
      + (if stage1En then 3 else 0) + (if stage0En then 4 else 0)
    }

    method Forward(offer: Option<Word>) returns (put: Option<Word>, took: bool)
      requires Valid() && !Jammed()
      modifies this
      ensures Valid() && emitted == old(emitted) + Seq(put)
      ensures took ==> offer.Some?
      ensures consumed == old(consumed) + (if took then [offer.value] else [])
      ensures old(Busy()) || offer.Some? ==> Distance() < old(Distance()) + (if took then 5 else 0)
      ensures !old(Busy()) && offer.None? ==> !Busy() && Distance() == old(Distance())
      ensures !old(Busy()) ==> put.None?
    {
      MovesIsLeaves();
      hide Valid, Out, Stream, Index, Blocked, Register, Moves;
      put, took := Step(offer, true);
      if !old(Busy()) && offer.None? {
        assert consumed == old(consumed) && emitted == old(emitted);
        MovesIsLeaves();
      }
    }

    method Settle()
      requires Valid()
      modifies this
      ensures Valid() && consumed == old(consumed)
      ensures emitted == All(Chksum, consumed)
      ensures Passes(Chksum, consumed) ==> !stage3En && !stage2En && !stage1En && !stage0En
    {
      hide Out, Stream, Index, Blocked, Register;
      ghost var s := consumed;
      var p, t := Step(None, true);
      assert consumed == s;
      p, t := Step(None, true);
      assert consumed == s;
      p, t := Step(None, true);
      assert consumed == s;
      p, t := Step(None, true);
      assert consumed == s;
      if Passed() < |consumed| {
        SumFacts(consumed, Passed());
        StreamStops(Chksum, consumed, Passed(), |consumed|);
      }
    }
  }
}
