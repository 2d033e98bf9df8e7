/** The HAL alarm list: an intrusive circular doubly linked list, and the tick that walks it while its
    entries unlink themselves. */
module AlarmList {
  import opened Basics

  const TWO_64 := 0x1_0000_0000_0000_0000

  /** The ticks up to `now` at which a callback first due at `due` has to be made: the value each call
      returns is the distance to the next one, and zero ends it. */
  function Firings(due: nat, callback: nat -> U32, now: nat): seq<nat>
    decreases if due <= now then now - due + 1 else 0
  {
    if due > now then []
    else [due] + (if callback(due) == 0 then [] else Firings(due + callback(due), callback, now))
  }

  /** The next tick at which the callback is due after `now`, if there is one. */
  function NextDue(due: nat, callback: nat -> U32, now: nat): (d: nat)
    ensures d == 0 || d > now
    decreases if due <= now then now - due + 1 else 0
  {
    if due > now then due
    else if callback(due) == 0 then 0
    else NextDue(due + callback(due), callback, now)
  }

  /** `f` is a complete account of the firings up to `now`: the first is the due tick, each later one
      comes exactly the returned interval after the one before, only a zero return ends them, and none
      is missing. */
  ghost predicate Chain(f: seq<nat>, due: nat, callback: nat -> U32, now: nat) {
    && (f == [] <==> due > now)
    && (f != [] ==> f[0] == due)
    && (forall i, j :: 0 <= i < j == i + 1 < |f| ==> callback(f[i]) != 0 && f[j] == f[i] + callback(f[i]))
    && (f != [] ==> var l := f[|f| - 1]; l <= now && (callback(l) == 0 || l + callback(l) > now))
  }

  lemma ChainCons(rest: seq<nat>, due: nat, callback: nat -> U32, now: nat)
    requires due <= now && callback(due) != 0 && Chain(rest, due + callback(due), callback, now)
    ensures Chain([due] + rest, due, callback, now)
  {
    var f := [due] + rest;
    forall i, j | 0 <= i < j == i + 1 < |f| ensures callback(f[i]) != 0 && f[j] == f[i] + callback(f[i]) {
      assert f[j] == rest[j - 1];
      if i > 0 { assert f[i] == rest[i - 1]; }
    }
    if rest != [] { assert f[|f| - 1] == rest[|rest| - 1]; }
  }

  lemma ChainEnds(due: nat, callback: nat -> U32, now: nat)
    requires due > now || callback(due) == 0
    ensures Chain(Firings(due, callback, now), due, callback, now)
  {
    assert Firings(due, callback, now) == if due > now then [] else [due];
  }

  lemma {:induction false} FiringsChain(due: nat, callback: nat -> U32, now: nat)
    ensures Chain(Firings(due, callback, now), due, callback, now)
    decreases if due <= now then now - due + 1 else 0
  {
    hide Chain;
    if due <= now && callback(due) != 0 {
      FiringsChain(due + callback(due), callback, now);
      ChainCons(Firings(due + callback(due), callback, now), due, callback, now);
    } else {
      ChainEnds(due, callback, now);
    }
  }

  /** The firing ticks, clause by clause: the first, the step from any one to the next, the last. */
  lemma FiringsAre(f: seq<nat>, due: nat, callback: nat -> U32, now: nat, i: nat)
    requires f == Firings(due, callback, now)
    ensures (f == [] <==> due > now) && (f != [] ==> f[0] == due)
    ensures i + 1 < |f| ==> callback(f[i]) != 0 && f[i + 1] == f[i] + callback(f[i])
    ensures f != [] ==> f[|f| - 1] <= now
    ensures f != [] ==> callback(f[|f| - 1]) == 0 || f[|f| - 1] + callback(f[|f| - 1]) > now
  {
    FiringsChain(due, callback, now);
    hide Firings;
    if i + 1 < |f| { ChainLink(f, due, callback, now, i, i + 1); }
  }

  lemma ChainLink(f: seq<nat>, due: nat, callback: nat -> U32, now: nat, i: nat, j: nat)
    requires Chain(f, due, callback, now) && j == i + 1 < |f|
    ensures callback(f[i]) != 0 && f[j] == f[i] + callback(f[i])
  {
  }

  /** One tick later: at most one more call, at that very tick. */
  lemma {:induction false} FiringsTick(due: nat, callback: nat -> U32, now: nat)
    ensures var d := NextDue(due, callback, now);
            Firings(due, callback, now + 1) == Firings(due, callback, now) + (if d == now + 1 then [now + 1] else [])
    ensures var d := NextDue(due, callback, now);
            NextDue(due, callback, now + 1) ==
              if d == now + 1 then (if callback(now + 1) == 0 then 0 else now + 1 + callback(now + 1)) else d
    decreases if due <= now then now - due + 1 else 0
  {
    if due <= now {
      if callback(due) != 0 { FiringsTick(due + callback(due), callback, now); }
    } else if due == now + 1 {
      assert Firings(due, callback, now) == [];
      if callback(due) != 0 {
        assert Firings(due + callback(due), callback, now + 1) == [];
      }
    }
  }

  /** alt_alarm with its embedded alt_llist. */
  class Alarm {
    var next: Alarm?
    var previous: Alarm?
    var time: nat
    var callback: nat -> U32

    ghost var firstDue: nat     // the tick of the first call, fixed when the alarm is started
    ghost var fires: seq<nat>   // the ticks at which the callback has been made since then

    constructor ()
      ensures next == previous == null && fires == []
    {
      next, previous, time, callback := null, null, 0, _ => 0;
      firstDue, fires := 0, [];
    }
  }

  ghost function Nodes(s: seq<Alarm>): set<Alarm> { set a | a in s }

  ghost predicate Distinct(s: seq<Alarm>) {
    forall i, j :: 0 <= i < j < |s| ==> s[i] != s[j]
  }

  /** `ring`, head first, is linked in a circle both ways. */
  ghost predicate Linked(ring: seq<Alarm>)
    reads ring`next, ring`previous
  {
    && |ring| > 0 && Distinct(ring)
    && (forall i {:trigger ring[i].next} :: 0 <= i < |ring| - 1 ==> ring[i].next == ring[i + 1])
    && (forall i {:trigger ring[i].previous} :: 0 < i < |ring| ==> ring[i].previous == ring[i - 1])
    && ring[|ring| - 1].next == ring[0] && ring[0].previous == ring[|ring| - 1]
  }

  /** alt_llist_insert: `entry` becomes the first entry. */
  method Insert(list: Alarm, entry: Alarm, ghost ring: seq<Alarm>) returns (ghost after: seq<Alarm>)
    requires Linked(ring) && ring[0] == list && entry !in ring
    modifies Nodes(ring)`next, Nodes(ring)`previous, entry`next, entry`previous
    ensures after == [list, entry] + ring[1..]
    ensures Linked(after)
  {
    after := [list, entry] + ring[1..];
    entry.previous := list;
    entry.next := list.next;
    list.next.previous := entry;
    list.next := entry;
  }

  /** An entry that is in no list and points to itself. */
  predicate Idle(entry: Alarm) reads entry`next, entry`previous { entry.next == entry.previous == entry }

  /** alt_llist_remove: `entry`, at position `k`, is unlinked and left pointing to itself; for an idle
      entry (k is then the length) the call is harmless. */
  method Remove(entry: Alarm, ghost ring: seq<Alarm>, ghost k: nat) returns (ghost after: seq<Alarm>)
    requires Linked(ring) && 0 < k <= |ring|
    requires if k < |ring| then ring[k] == entry else entry !in ring && Idle(entry)
    modifies Nodes(ring)`next, Nodes(ring)`previous, entry`next, entry`previous
    ensures after == if k < |ring| then ring[..k] + ring[k + 1..] else ring
    ensures Linked(after) && Idle(entry)
  {
    after := if k < |ring| then ring[..k] + ring[k + 1..] else ring;
    ghost var n := |ring|;
    entry.next.previous := entry.previous;
    entry.previous.next := entry.next;
    entry.previous := entry;
    entry.next := entry;
    if k < n {
      DistinctWithout(ring, k);
      hide Distinct;
      forall i | 0 <= i < n - 2 ensures after[i].next == after[i + 1] {
        ghost var o := if i < k then i else i + 1;
        assert after[i] == ring[o] && after[i] != entry && (i != k - 1 ==> after[i] != ring[k - 1]);
      }
      forall i | 0 < i < n - 1 ensures after[i].previous == after[i - 1] {
        ghost var o := if i < k then i else i + 1;
        assert after[i] == ring[o] && after[i] != entry && (i != k && k + 1 < n ==> after[i] != ring[k + 1]);
      }
    }
  }

  lemma DistinctWithout(ring: seq<Alarm>, k: nat)
    requires Distinct(ring) && 0 < k < |ring|
    ensures var after := ring[..k] + ring[k + 1..];
            && Distinct(after)
            && (forall i {:trigger after[i]} :: 0 <= i < |after| ==> after[i] != ring[k])
            && (forall i {:trigger after[i]} :: 0 <= i < |after| && i != k - 1 ==> after[i] != ring[k - 1])
            && (k + 1 < |ring| ==>
                  forall i {:trigger after[i]} :: 0 <= i < |after| && i != k ==> after[i] != ring[k + 1])
            && (forall i {:trigger after[i]} :: 0 < i < |after| ==> after[i] != ring[0])
            && (forall i {:trigger after[i]} :: 0 <= i < |after| - 1 ==> after[i] != after[|after| - 1])
  {
  }

  /** The alarms of `s` that have another call to come after `now`. */
  ghost function Alive(s: seq<Alarm>, now: nat): seq<Alarm>
    reads s`firstDue, s`callback
  {
    if s == [] then []
    else
      var a := s[|s| - 1];
      Alive(s[..|s| - 1], now) + (if NextDue(a.firstDue, a.callback, now) != 0 then [a] else [])
  }

  /** `time` is the next due tick and all calls due so far have been made, at their ticks. */
  ghost predicate OnTime(a: Alarm, now: nat)
    reads a`time, a`firstDue, a`callback, a`fires
  {
    && a.time == NextDue(a.firstDue, a.callback, now) && now < a.time <= now + TWO_32
    && a.fires == Firings(a.firstDue, a.callback, now)
  }

  /** All calls due up to `now` have been made, and the next deadline is set if there is one. */
  ghost predicate Served(a: Alarm, now: nat)
    reads a`time, a`firstDue, a`callback, a`fires
  {
    && a.fires == Firings(a.firstDue, a.callback, now)
    && (NextDue(a.firstDue, a.callback, now) != 0 ==> OnTime(a, now))
  }

  /** The alarms before position `i` have been served in this tick, the others not yet. */
  ghost predicate Progress(was: seq<Alarm>, i: nat, now: nat)
    requires now > 0
    reads was`time, was`firstDue, was`callback, was`fires
  {
    && (forall j :: 1 <= j < i && j < |was| ==> Served(was[j], now))
    && (forall j :: i <= j < |was| ==> OnTime(was[j], now - 1))
  }

  lemma {:induction false} AliveMember(s: seq<Alarm>, now: nat, a: Alarm)
    requires a in Alive(s, now)
    ensures a in s && NextDue(a.firstDue, a.callback, now) != 0
  {
    if a in Alive(s[..|s| - 1], now) { AliveMember(s[..|s| - 1], now, a); }
  }

  /** 0, -EINVAL and -ENOTSUP. */
  datatype Status = Ok | Invalid | Unsupported

  class Scheduler {
    const head: Alarm
    var nticks: nat
    var tickRate: nat

    ghost var ring: seq<Alarm>   // the head and the registered alarms in list order

    /** Every registered alarm lies in the future and has fired exactly when it should. */
    ghost predicate Valid()
      reads this, ring
    {
      && Linked(ring) && ring[0] == head
      && forall i :: 0 < i < |ring| ==> OnTime(ring[i], nticks)
    }

    /** No 64-bit wrap of the tick counter or of a deadline in the next tick. */
    predicate Early() reads this { nticks + 1 + 0x1_0000_0000 < 0x1_0000_0000_0000_0000 }

    constructor (tickRate: nat)
      ensures Valid() && nticks == 0 && this.tickRate == tickRate && ring == [head]
      ensures fresh(head)
    {
      var h := new Alarm();
      head := h;
      nticks, this.tickRate := 0, tickRate;
      ring := [h];
      new;
      head.next, head.previous := head, head;
    }

    /** alt_alarm_start. */
    method Start(alarm: Alarm?, n: U32, callback: nat -> U32) returns (status: Status)
      requires Valid() && Early()
      requires alarm != null ==> alarm !in ring
      modifies this`ring, Nodes(ring)`next, Nodes(ring)`previous, alarm
      ensures Valid()
      ensures status == if tickRate == 0 then Unsupported else if alarm == null then Invalid else Ok
      ensures status != Ok ==> ring == old(ring)
      ensures status == Ok ==>
                && ring == [head, alarm] + old(ring)[1..]
                && alarm.firstDue == nticks + n + 1 && alarm.callback == callback && alarm.fires == []
    {
      if tickRate != 0 {
        if alarm != null {
          hide Linked, OnTime, Firings, NextDue, Nodes, Distinct;
          ghost var before := ring;
          Arm(alarm, n, callback);
          ring := Insert(head, alarm, ring);
          forall i | 0 < i < |ring| ensures OnTime(ring[i], nticks) {
            Prepended(before, ring, alarm, i);
          }
          return Ok;
        } else {
          return Invalid;
        }
      } else {
        return Unsupported;
      }
    }

    /** Fill in the alarm structure; the caller has interrupts disabled. */
    method Arm(alarm: Alarm, n: U32, callback: nat -> U32)
      requires Early()
      modifies alarm`callback, alarm`time, alarm`firstDue, alarm`fires
      ensures OnTime(alarm, nticks)
      ensures alarm.firstDue == nticks + n + 1 && alarm.callback == callback && alarm.fires == []
    {
      alarm.callback := callback;
      var current := nticks;
      alarm.time := (n + current + 1) % TWO_64;
      alarm.firstDue, alarm.fires := n + current + 1, [];
    }

    /** alt_alarm_stop. */
    method Stop(alarm: Alarm, ghost k: nat)
      requires Valid() && 0 < k <= |ring|
      requires if k < |ring| then ring[k] == alarm else alarm !in ring && Idle(alarm)
      modifies this`ring, Nodes(ring)`next, Nodes(ring)`previous, alarm`next, alarm`previous
      ensures Valid() && Idle(alarm)
      ensures ring == if k < |old(ring)| then old(ring)[..k] + old(ring)[k + 1..] else old(ring)
    {
      hide Linked, OnTime;
      ghost var before := ring;
      ring := Remove(alarm, ring, k);
      forall i | 0 < i < |ring| ensures OnTime(ring[i], nticks) {
        assert ring[i] == before[if i < k then i else i + 1];
      }
    }

    lemma Entry()
      requires Valid()
      ensures Linked(ring) && Distinct(ring) && ring[0] == head
      ensures head.next == if |ring| > 1 then ring[1] else head
      ensures Progress(ring, 1, nticks + 1)
      ensures Alive(ring[1..1], nticks + 1) == []
      ensures ring == [head] + ring[1..]
    {
    }

    /** alt_tick.  Every alarm registered at entry has its callback made in this tick exactly if this is
        one of its firing ticks; those whose callback returned zero leave the list and the others keep
        their order. */
    method Tick()
      requires Valid() && Early()
      modifies this`nticks, this`ring, Nodes(ring)`next, Nodes(ring)`previous, Nodes(ring)`time, Nodes(ring)`fires
      ensures Valid() && nticks == old(nticks) + 1
      ensures ring == [head] + Alive(old(ring)[1..], nticks) && Nodes(ring) <= old(Nodes(ring))
      ensures forall a :: a in old(ring)[1..] ==> a.fires == Firings(a.firstDue, a.callback, nticks)
      ensures forall a :: a in old(ring)[1..] && a !in ring ==> Idle(a)
    {
      hide Valid, Linked, Progress, Served, OnTime, Firings, NextDue, Alive, Distinct;
      ghost var was := ring;
      Entry();
      var alarm := head.next;
      nticks := (nticks + 1) % TWO_64;
      Walk(alarm, was);
      AllReleased(was);
      AllServed(was);
    }

    /** The alarms before position `i` that have left the list point to themselves. */
    ghost predicate Released(was: seq<Alarm>, i: nat)
      reads this`ring, was`next, was`previous
    {
      forall j :: 1 <= j < i && j < |was| && was[j] !in ring ==> Idle(was[j])
    }

    lemma AllReleased(was: seq<Alarm>)
      requires |was| > 0 && Released(was, |was|)
      ensures forall a :: a in was[1..] && a !in ring ==> Idle(a)
    {
      forall a | a in was[1..] && a !in ring ensures Idle(a) {
        var j :| 0 <= j < |was| - 1 && was[1..][j] == a;
        assert was[j + 1] == a;
      }
    }

    /** The loop of alt_tick over the list as it was at entry. */
    method Walk(first: Alarm, ghost was: seq<Alarm>)
      requires |was| > 0 && ring == was && Linked(ring) && Distinct(was) && was[0] == head
      requires first == if |was| > 1 then was[1] else head
      requires 0 < nticks < TWO_64 - TWO_32 && Progress(was, 1, nticks)
      modifies this`ring, Nodes(ring)`next, Nodes(ring)`previous, Nodes(ring)`time, Nodes(ring)`fires
      ensures Linked(ring) && Nodes(ring) <= Nodes(was) && Progress(was, |was|, nticks)
      ensures ring == [head] + Alive(was[1..|was|], nticks) + was[|was|..] && Released(was, |was|)
    {
      hide Linked, Progress, Served, OnTime, Firings, NextDue, Distinct;
      var alarm := first;
      ghost var i := 1;
      NoneYet(was);
      assert Released(was, 1);
      hide Alive, Released;
      while alarm != head
        invariant 1 <= i <= |was|
        invariant Linked(ring)
        invariant ring == [head] + Alive(was[1..i], nticks) + was[i..]
        invariant Nodes(ring) <= Nodes(was)
        invariant alarm == if i < |was| then was[i] else head
        invariant Progress(was, i, nticks) && Released(was, i)
        decreases |was| - i
      {
        assert alarm in Nodes(was);
        alarm := Turn(alarm, was, i);
        i := i + 1;
      }
    }

    lemma NoneYet(was: seq<Alarm>)
      requires |was| > 0 && Distinct(was)
      ensures was == [was[0]] + Alive(was[1..1], nticks) + was[1..]
      ensures forall i :: 0 < i < |was| ==> was[i] != was[0]
    {
    }

    /** Any number of ticks: every alarm registered at the beginning fires at exactly the ticks that
        `Firings` lists, no earlier, no later and not once more, and is still registered exactly as long
        as it has another call to come. */
    method Ticks(m: nat)
      requires Valid() && nticks + m + TWO_32 < TWO_64
      modifies this`nticks, this`ring, Nodes(ring)`next, Nodes(ring)`previous, Nodes(ring)`time, Nodes(ring)`fires
      ensures Valid() && nticks == old(nticks) + m
      ensures ring == [head] + Alive(old(ring)[1..], nticks)
      ensures forall a :: a in old(ring)[1..] ==> a.fires == Firings(a.firstDue, a.callback, nticks)
    {
      hide Valid, OnTime, Firings, NextDue, Alive;
      ghost var was := ring;
      AtRest();
      for t := 0 to m
        invariant Valid() && nticks == old(nticks) + t
        invariant was[0] == head && head !in was[1..]
        invariant ring == [head] + Alive(was[1..], nticks) && Nodes(ring) <= Nodes(was)
        invariant AllFired(was[1..], nticks)
      {
        AliveTick(was[1..], nticks);
        assert ring[1..] == Alive(was[1..], nticks);
        StillFired(was[1..], nticks);
        ghost var before := ring;
        Tick();
        forall a | a in was[1..] ensures a.fires == Firings(a.firstDue, a.callback, nticks) {
          if a !in before[1..] { assert a !in Nodes(before); }
        }
      }
    }

    lemma AtRest()
      requires Valid()
      ensures |ring| > 0 && ring[0] == head && head !in ring[1..] && ring == [head] + Alive(ring[1..], nticks)
      ensures AllFired(ring[1..], nticks)
    {
      AllAlive(ring[1..], nticks);
    }

    lemma AllServed(was: seq<Alarm>)
      requires |was| > 0 && Linked(ring) && ring == [head] + Alive(was[1..|was|], nticks) + was[|was|..]
      requires nticks > 0 && Progress(was, |was|, nticks)
      ensures Valid() && ring == [head] + Alive(was[1..], nticks)
      ensures forall a :: a in was[1..] ==> a.fires == Firings(a.firstDue, a.callback, nticks)
    {
      hide Linked, OnTime, Firings, NextDue, Alive;
      assert was[1..|was|] == was[1..];
      forall j | 0 < j < |ring| ensures OnTime(ring[j], nticks) {
        AliveMember(was[1..], nticks, ring[j]);
      }
    }

    /** One turn of the loop for the alarm at position `i` of the list as it was at entry. */
    method Turn(alarm: Alarm, ghost was: seq<Alarm>, ghost i: nat) returns (next: Alarm)
      requires 0 < i < |was| && was[i] == alarm && was[0] == head && Distinct(was)
      requires Linked(ring) && ring == [head] + Alive(was[1..i], nticks) + was[i..]
      requires 0 < nticks < TWO_64 - TWO_32 && Progress(was, i, nticks) && Released(was, i)
      modifies this`ring, Nodes(ring)`next, Nodes(ring)`previous, alarm`time, alarm`fires
      ensures next == if i + 1 < |was| then was[i + 1] else head
      ensures Linked(ring) && ring == [head] + Alive(was[1..i + 1], nticks) + was[i + 1..]
      ensures Nodes(ring) <= old(Nodes(ring))
      ensures Progress(was, i + 1, nticks) && Released(was, i + 1)
    {
      hide Linked, OnTime, Served, Firings, NextDue, Alive;
      next := Visit(alarm, was, i);
    }

    method Visit(alarm: Alarm, ghost was: seq<Alarm>, ghost i: nat) returns (next: Alarm)
      requires 0 < i < |was| && was[i] == alarm && was[0] == head
      requires Linked(ring) && ring == [head] + Alive(was[1..i], nticks) + was[i..]
      requires 0 < nticks < TWO_64 - TWO_32 && OnTime(alarm, nticks - 1)
      modifies this`ring, Nodes(ring)`next, Nodes(ring)`previous, alarm`time, alarm`fires
      ensures next == if i + 1 < |was| then was[i + 1] else head
      ensures Linked(ring) && ring == [head] + Alive(was[1..i + 1], nticks) + was[i + 1..]
      ensures Nodes(ring) <= old(Nodes(ring))
      ensures Served(alarm, nticks)
      ensures alarm !in ring ==> Idle(alarm)
      ensures forall a :: a in old(ring) && a !in ring ==> a == alarm
    {
      hide Linked, OnTime, Firings, NextDue, Alive, Nodes;
      ghost var kept := Alive(was[1..i], nticks);
      ghost var k := 1 + |kept|;
      AliveSnoc(was[1..i], alarm, nticks);
      Position(ring, was, i, kept);
      NextIs(ring, k);
      next := alarm.next;
      var again := Call(alarm);
      if !again {
        NodesShrink(ring, k);
        ring := Remove(alarm, ring, k);
      }
    }

    /** Make the callback if its time has come; `again` is false when it returned zero. */
    method Call(alarm: Alarm) returns (again: bool)
      requires 0 < nticks < TWO_64 - TWO_32 && OnTime(alarm, nticks - 1)
      modifies alarm`time, alarm`fires
      ensures again == (NextDue(alarm.firstDue, alarm.callback, nticks) != 0)
      ensures alarm.fires == Firings(alarm.firstDue, alarm.callback, nticks)
      ensures again ==> OnTime(alarm, nticks)
    {
      hide Firings, NextDue;
      FiringsTick(alarm.firstDue, alarm.callback, nticks - 1);
      again := true;
      if alarm.time <= nticks {
        var nextCallback := alarm.callback(nticks);
        alarm.fires := alarm.fires + [nticks];
        if nextCallback == 0 {
          again := false;
        } else {
          alarm.time := (alarm.time + nextCallback) % TWO_64;
        }
      }
    }
  }

  lemma Prepended(before: seq<Alarm>, after: seq<Alarm>, a: Alarm, i: nat)
    requires |before| > 0 && after == [before[0], a] + before[1..] && 0 < i < |after|
    ensures if i == 1 then after[i] == a else i - 1 < |before| && after[i] == before[i - 1]
  {
  }

  /** Where the alarm that was at position `i` at entry is now. */
  lemma Position(ring: seq<Alarm>, was: seq<Alarm>, i: nat, kept: seq<Alarm>)
    requires 0 < i < |was| && |ring| > 0 && ring == [ring[0]] + kept + was[i..]
    ensures var k := 1 + |kept|;
            && k < |ring| && ring[k] == was[i]
            && ring[..k] + ring[k + 1..] == [ring[0]] + kept + was[i + 1..]
            && ring == [ring[0]] + (kept + [was[i]]) + was[i + 1..]
            && (k + 1 < |ring| <==> i + 1 < |was|) && (i + 1 < |was| ==> ring[k + 1] == was[i + 1])
    ensures was[1..i + 1] == was[1..i] + [was[i]]
  {
  }

  lemma NodesShrink(ring: seq<Alarm>, k: nat)
    requires k < |ring|
    ensures Nodes(ring[..k] + ring[k + 1..]) <= Nodes(ring) && ring[k] in Nodes(ring)
  {
  }

  lemma NextIs(ring: seq<Alarm>, k: nat)
    requires Linked(ring) && k < |ring|
    ensures ring[k].next == if k + 1 < |ring| then ring[k + 1] else ring[0]
  {
  }

  ghost predicate AllFired(s: seq<Alarm>, now: nat)
    reads s`firstDue, s`callback, s`fires
  {
    forall a :: a in s ==> a.fires == Firings(a.firstDue, a.callback, now)
  }

  lemma {:induction false} AllAlive(s: seq<Alarm>, now: nat)
    requires forall i :: 0 <= i < |s| ==> OnTime(s[i], now)
    ensures Alive(s, now) == s
  {
    if s != [] {
      hide Alive, Firings;
      var init, a := s[..|s| - 1], s[|s| - 1];
      assert s == init + [a];
      AllAlive(init, now);
      AliveSnoc(init, a, now);
      assert OnTime(a, now);
    } else {
      assert Alive(s, now) == [];
    }
  }

  /** An alarm that has ended stays ended. */
  lemma {:induction false} AliveTick(s: seq<Alarm>, now: nat)
    ensures Alive(Alive(s, now), now + 1) == Alive(s, now + 1)
  {
    if s != [] {
      hide NextDue, Firings;
      var init, a := s[..|s| - 1], s[|s| - 1];
      AliveTick(init, now);
      FiringsTick(a.firstDue, a.callback, now);
      AliveSnoc(Alive(init, now), a, now + 1);
      assert Alive(init, now) + [] == Alive(init, now) && Alive(init, now + 1) + [] == Alive(init, now + 1);
    }
  }

  lemma StillFired(s: seq<Alarm>, now: nat)
    requires AllFired(s, now)
    ensures forall a :: a in s && a !in Alive(s, now) ==> a.fires == Firings(a.firstDue, a.callback, now + 1)
  {
    forall a | a in s && a !in Alive(s, now) ensures a.fires == Firings(a.firstDue, a.callback, now + 1) {
      FiringsTick(a.firstDue, a.callback, now);
      NotAlive(s, now, a);
    }
  }

  lemma {:induction false} NotAlive(s: seq<Alarm>, now: nat, a: Alarm)
    requires a in s && a !in Alive(s, now)
    ensures NextDue(a.firstDue, a.callback, now) == 0
  {
    if a in s[..|s| - 1] { NotAlive(s[..|s| - 1], now, a); }
  }

  lemma AliveSnoc(s: seq<Alarm>, a: Alarm, now: nat)
    ensures Alive(s + [a], now) == Alive(s, now) + (if NextDue(a.firstDue, a.callback, now) != 0 then [a] else [])
  {
    assert (s + [a])[..|s|] == s;
  }
}
