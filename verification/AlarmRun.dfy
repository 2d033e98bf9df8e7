/** Runs of the alarm scheduler: any sequence of starts, stops and ticks over any alarms. */
module AlarmRun {
  import opened Basics
  import opened AlarmList

  datatype Command =
    | Start(alarm: Alarm, n: U32, callback: nat -> U32)
    | Stop(alarm: Alarm)
    | Tick

  /** What a caller sees of an alarm: the tick of its next call, zero if it is not registered, and the
      ticks of its calls since it was last started. */
  datatype Life = Life(next: nat, callback: nat -> U32, fires: seq<nat>)

  // ---------- specification ----------

  /** Tick number `now`: an alarm that is due is called, and the value returned is the distance to its
      next call, zero for none. */
  function Ticked(l: Life, now: nat): Life {
    if l.next == 0 || l.next != now then l
    else Life(if l.callback(now) == 0 then 0 else now + l.callback(now), l.callback, l.fires + [now])
  }

  /** A registered alarm is not started again; a stop unregisters. */
  ghost function Effect(lives: map<Alarm, Life>, now: nat, c: Command): map<Alarm, Life> {
    match c
    case Start(a, n, callback) =>
      if a in lives && lives[a].next != 0 then lives else lives[a := Life(now + n + 1, callback, [])]
    case Stop(a) => if a in lives then lives[a := lives[a].(next := 0)] else lives
    case Tick => map a | a in lives :: Ticked(lives[a], now + 1)
  }

  function Clock(start: nat, commands: seq<Command>): nat {
    if commands == [] then start
    else Clock(start, commands[..|commands| - 1]) + (if commands[|commands| - 1].Tick? then 1 else 0)
  }

  ghost function Lives(start: nat, commands: seq<Command>): map<Alarm, Life> {
    if commands == [] then map[]
    else
      var n := |commands| - 1;
      Effect(Lives(start, commands[..n]), Clock(start, commands[..n]), commands[n])
  }

  lemma {:induction false} ClockBound(start: nat, commands: seq<Command>)
    ensures start <= Clock(start, commands) <= start + |commands|
  {
    if commands != [] { ClockBound(start, commands[..|commands| - 1]); }
  }

  lemma RunSnoc(start: nat, commands: seq<Command>, c: Command)
    ensures Clock(start, commands + [c]) == Clock(start, commands) + (if c.Tick? then 1 else 0)
    ensures Lives(start, commands + [c]) == Effect(Lives(start, commands), Clock(start, commands), c)
  {
    assert (commands + [c])[..|commands|] == commands;
  }

  /** From its start until the next command that names it, whatever happens to other alarms, an alarm is
      called at exactly the ticks of `Firings`. */
  lemma {:induction false} LifeIs(start: nat, before: seq<Command>, s: Command, after: seq<Command>)
    requires s.Start? && var l := Lives(start, before); s.alarm in l ==> l[s.alarm].next == 0
    requires forall c :: c in after ==> c.Tick? || c.alarm != s.alarm
    ensures var commands := before + [s] + after;
            var due, now := Clock(start, before) + s.n + 1, Clock(start, commands);
            && now >= Clock(start, before) && s.alarm in Lives(start, commands)
            && Lives(start, commands)[s.alarm] ==
                 Life(NextDue(due, s.callback, now), s.callback, Firings(due, s.callback, now))
  {
    hide Lives, Clock, Firings, NextDue;
    if after == [] {
      assert before + [s] + after == before + [s];
      RunSnoc(start, before, s);
      NotYet(Clock(start, before) + s.n + 1, s.callback, Clock(start, before));
    } else {
      var n := |after| - 1;
      LifeIs(start, before, s, after[..n]);
      assert before + [s] + after == (before + [s] + after[..n]) + [after[n]];
      RunSnoc(start, before + [s] + after[..n], after[n]);
      var due, now := Clock(start, before) + s.n + 1, Clock(start, before + [s] + after[..n]);
      FiringsTick(due, s.callback, now);
    }
  }

  lemma NotYet(due: nat, callback: nat -> U32, now: nat)
    requires due > now
    ensures NextDue(due, callback, now) == due && Firings(due, callback, now) == []
  {
  }

  // ---------- the scheduler against it ----------

  /** An alarm that is in no list can be told by its links: null, or pointing to itself. */
  ghost predicate Loose(a: Alarm) reads a`next, a`previous { a.next == a.previous == null || Idle(a) }

  /** The alarm is as the specification says: registered if another call is to come, with that deadline. */
  ghost predicate Follows(list: seq<Alarm>, a: Alarm, l: Life)
    reads a`time, a`callback, a`fires
  {
    && a.fires == l.fires
    && (l.next != 0 <==> a in list)
    && (l.next != 0 ==> a.time == l.next && a.callback == l.callback)
  }

  ghost predicate AllFollow(list: seq<Alarm>, all: set<Alarm>, lives: map<Alarm, Life>)
    reads all`time, all`callback, all`fires
  {
    && (forall a :: a in list ==> a in lives)
    && (forall a :: a in lives ==> a in all && Follows(list, a, lives[a]))
  }

  ghost predicate OthersLoose(list: seq<Alarm>, all: set<Alarm>)
    reads all`next, all`previous
  {
    forall a :: a in all && a !in list ==> Loose(a)
  }

  /** The list and the alarms are as the specification says. */
  ghost predicate Mirrors(s: Scheduler, all: set<Alarm>, lives: map<Alarm, Life>)
    reads s, all
  {
    && |s.ring| > 0 && s.head !in all
    && AllFollow(s.ring[1..], all, lives) && OthersLoose(s.ring[1..], all)
  }

  lemma Registered(s: Scheduler, a: Alarm)
    requires s.Valid() && a != s.head
    ensures a in s.ring <==> a in s.ring[1..]
    ensures a in s.ring ==> a.next != null && a.next != a && OnTime(a, s.nticks)
  {
    if a in s.ring {
      var k :| 0 <= k < |s.ring| && s.ring[k] == a;
      NextIs(s.ring, k);
      assert s.ring[1..][k - 1] == a;
    }
  }

  /** A caller starts an alarm only while its links show that it is not registered. */
  method StartOne(s: Scheduler, a: Alarm, n: U32, callback: nat -> U32, ghost all: set<Alarm>,
                  ghost lives: map<Alarm, Life>)
    requires s.Valid() && s.Early() && s.tickRate > 0 && a in all && Mirrors(s, all, lives)
    modifies s, s.head, all
    ensures s.Valid() && s.nticks == old(s.nticks) && s.tickRate == old(s.tickRate)
    ensures Mirrors(s, all, Effect(lives, s.nticks, Start(a, n, callback)))
  {
    hide Scheduler.Valid, OnTime, Firings, NextDue, Linked, Distinct, Nodes, AllFollow, Effect;
    Registered(s, a);
    if a.next == null || a.next == a {
      ghost var was := s.ring;
      RingNodes(s, all, lives);
      Others(was[1..], a, all, lives);
      var _ := s.Start(a, n, callback);
      Started(s, a);
      Joined(was[1..], s.ring[1..], a, s.nticks, n, all, lives);
    } else {
      Busy(s, a, n, callback, all, lives);
    }
  }

  lemma Others(was: seq<Alarm>, a: Alarm, all: set<Alarm>, lives: map<Alarm, Life>)
    requires AllFollow(was, all, lives) && a !in was
    ensures AllFollow(was, all - {a}, lives - {a}) && (a in lives ==> lives[a].next == 0)
  {
  }

  lemma Joined(was: seq<Alarm>, list: seq<Alarm>, a: Alarm, now: nat, n: U32, all: set<Alarm>, lives: map<Alarm, Life>)
    requires AllFollow(was, all - {a}, lives - {a}) && a in all && a !in was && list == [a] + was
    requires a in lives ==> lives[a].next == 0
    requires a.time == now + n + 1 && a.fires == []
    ensures AllFollow(list, all, Effect(lives, now, Start(a, n, a.callback)))
  {
    var after := Effect(lives, now, Start(a, n, a.callback));
    forall x | x in after ensures x in all && Follows(list, x, after[x]) {
      if x != a { assert x in lives - {a} && Follows(was, x, (lives - {a})[x]); }
    }
  }

  lemma Busy(s: Scheduler, a: Alarm, n: U32, callback: nat -> U32, all: set<Alarm>, lives: map<Alarm, Life>)
    requires s.Valid() && a in all && Mirrors(s, all, lives) && !(a.next == null || a.next == a)
    ensures Effect(lives, s.nticks, Start(a, n, callback)) == lives
  {
  }

  /** The nodes of the list are the head and alarms of the run. */
  lemma RingNodes(s: Scheduler, all: set<Alarm>, lives: map<Alarm, Life>)
    requires s.Valid() && Mirrors(s, all, lives)
    ensures Nodes(s.ring) <= all + {s.head} && s.ring == [s.head] + s.ring[1..]
    ensures s.head !in s.ring[1..] && Distinct(s.ring)
    ensures forall a :: a in Nodes(s.ring) <==> a in s.ring
  {
    forall a | a in Nodes(s.ring) ensures a in all + {s.head} {
      if a != s.head { Registered(s, a); }
    }
  }

  lemma Started(s: Scheduler, a: Alarm)
    requires s.Valid() && |s.ring| > 1 && s.ring[1] == a && a.firstDue > s.nticks
    ensures a.time == a.firstDue
  {
    assert OnTime(s.ring[1], s.nticks);
  }

  /** One case of a tick: an alarm on file that is registered. */
  lemma TickedIs(l: Life, due: nat, callback: nat -> U32, now: nat)
    requires l.next != 0 && l.next == NextDue(due, callback, now) && l.callback == callback
    requires l.fires == Firings(due, callback, now)
    ensures Ticked(l, now + 1).fires == Firings(due, callback, now + 1)
    ensures Ticked(l, now + 1).next == NextDue(due, callback, now + 1)
    ensures Ticked(l, now + 1).callback == callback
  {
    hide Firings, NextDue;
    FiringsTick(due, callback, now);
  }

  /** The specification has the same next call and the same calls so far as the started callback. */
  ghost predicate Due(was: seq<Alarm>, lives: map<Alarm, Life>, now: nat)
    reads was`firstDue, was`callback
  {
    forall a :: a in was ==>
      && a in lives && lives[a].next != 0 && lives[a].callback == a.callback
      && lives[a].next == NextDue(a.firstDue, a.callback, now)
      && lives[a].fires == Firings(a.firstDue, a.callback, now)
  }

  /** The alarms that are not registered have no call to come. */
  ghost predicate Resting(was: seq<Alarm>, all: set<Alarm>, lives: map<Alarm, Life>)
    reads all`fires
  {
    forall a :: a in lives && a !in was ==> a in all && a.fires == lives[a].fires && lives[a].next == 0
  }

  lemma AllDue(s: Scheduler, all: set<Alarm>, lives: map<Alarm, Life>)
    requires s.Valid() && Mirrors(s, all, lives)
    ensures Due(s.ring[1..], lives, s.nticks) && Resting(s.ring[1..], all, lives)
    ensures lives.Keys <= all
  {
  }

  lemma Without(was: seq<Alarm>, ring: seq<Alarm>, k: nat, a: Alarm)
    requires Distinct(was) && 0 < k <= |was| && ring == if k < |was| then was[..k] + was[k + 1..] else was
    requires if k < |was| then was[k] == a else a !in was
    ensures forall x :: x in ring[1..] <==> x in was[1..] && x != a
  {
    if k < |was| {
      DistinctWithout(was, k);
      hide Distinct;
      forall x ensures x in ring[1..] <==> x in was[1..] && x != a {
        if x in ring[1..] {
          var i :| 0 <= i < |ring| - 1 && ring[1..][i] == x;
          assert x == ring[i + 1] && x == was[1..][if i + 1 < k then i else i + 1];
        }
        if x in was[1..] && x != a {
          var i :| 0 <= i < |was| - 1 && was[1..][i] == x;
          assert x == ring[1..][if i + 1 < k then i else i - 1];
        }
      }
    }
  }

  lemma Kept(s: Scheduler, was: seq<Alarm>)
    requires s.ring == [s.head] + Alive(was, s.nticks)
    ensures forall a :: a in s.ring[1..] ==> a in was
  {
    forall a | a in s.ring[1..] ensures a in was {
      assert s.ring[1..] == Alive(was, s.nticks);
      AliveMember(was, s.nticks, a);
    }
  }

  lemma Survives(s: Scheduler, was: seq<Alarm>, a: Alarm)
    requires s.Valid() && s.ring == [s.head] + Alive(was, s.nticks) && a in was
    ensures NextDue(a.firstDue, a.callback, s.nticks) != 0 <==> a in s.ring[1..]
    ensures a in s.ring[1..] ==> a.time == NextDue(a.firstDue, a.callback, s.nticks)
  {
    hide Alive, NextDue, Firings, Linked;
    assert s.ring[1..] == Alive(was, s.nticks);
    if a in s.ring[1..] {
      AliveMember(was, s.nticks, a);
      var k :| 0 <= k < |s.ring| - 1 && s.ring[1..][k] == a;
      assert OnTime(s.ring[k + 1], s.nticks);
    } else {
      NotAlive(was, s.nticks, a);
    }
  }

  lemma Stopped(was: seq<Alarm>, list: seq<Alarm>, a: Alarm, now: nat, all: set<Alarm>, lives: map<Alarm, Life>)
    requires AllFollow(was, all, lives) && forall x :: x in list <==> x in was && x != a
    ensures AllFollow(list, all, Effect(lives, now, Stop(a)))
  {
  }

  /** A caller stops an alarm only if it has been started before; stopping twice is harmless. */
  method StopOne(s: Scheduler, a: Alarm, ghost all: set<Alarm>, ghost lives: map<Alarm, Life>)
    requires s.Valid() && a in all && Mirrors(s, all, lives)
    modifies s, s.head, all
    ensures s.Valid() && s.nticks == old(s.nticks) && s.tickRate == old(s.tickRate)
    ensures Mirrors(s, all, Effect(lives, s.nticks, Stop(a)))
  {
    hide Scheduler.Valid, OnTime, Firings, NextDue, Linked, Distinct, Nodes, AllFollow, Effect;
    Registered(s, a);
    ghost var was := s.ring;
    RingNodes(s, all, lives);
    if a.next != null {
      ghost var k := PlaceOf(s, a);
      s.Stop(a, k);
      Without(was, s.ring, k, a);
    }
    Stopped(was[1..], s.ring[1..], a, s.nticks, all, lives);
  }

  /** The position of an alarm in the list, or the length of the list. */
  ghost function PlaceOf(s: Scheduler, a: Alarm): (k: nat)
    requires s.Valid() && a != s.head
    reads s, s.ring
    ensures 0 < k <= |s.ring| && if k < |s.ring| then s.ring[k] == a else a !in s.ring
  {
    if a in s.ring then var k :| 0 <= k < |s.ring| && s.ring[k] == a; k else |s.ring|
  }

  lemma Moved(s: Scheduler, was: seq<Alarm>, a: Alarm, l: Life)
    requires s.Valid() && s.nticks > 0 && s.ring == [s.head] + Alive(was, s.nticks) && a in was
    requires l.next != 0 && l.next == NextDue(a.firstDue, a.callback, s.nticks - 1) && l.callback == a.callback
    requires l.fires == Firings(a.firstDue, a.callback, s.nticks - 1)
    requires a.fires == Firings(a.firstDue, a.callback, s.nticks)
    ensures Follows(s.ring[1..], a, Ticked(l, s.nticks))
  {
    hide Scheduler.Valid, Firings, NextDue, Alive, Ticked;
    TickedIs(l, a.firstDue, a.callback, s.nticks - 1);
    Survives(s, was, a);
  }

  lemma AllMoved(s: Scheduler, was: seq<Alarm>, all: set<Alarm>, lives: map<Alarm, Life>)
    requires s.Valid() && s.nticks > 0 && s.ring == [s.head] + Alive(was, s.nticks)
    requires Due(was, lives, s.nticks - 1) && Resting(was, all, lives) && lives.Keys <= all
    requires forall a :: a in was ==> a.fires == Firings(a.firstDue, a.callback, s.nticks)
    ensures AllFollow(s.ring[1..], all, Effect(lives, s.nticks - 1, Tick))
    ensures forall a :: a in s.ring[1..] ==> a in was
  {
    hide Scheduler.Valid, Firings, NextDue, Alive, Ticked, Follows;
    Kept(s, was);
    forall a | a in lives ensures Follows(s.ring[1..], a, Ticked(lives[a], s.nticks)) {
      if a in was { Moved(s, was, a, lives[a]); } else { StillResting(s, was, a, lives[a]); }
    }
  }

  lemma StillResting(s: Scheduler, was: seq<Alarm>, a: Alarm, l: Life)
    requires |s.ring| > 0 && (forall x :: x in s.ring[1..] ==> x in was) && a !in was
    requires a.fires == l.fires && l.next == 0
    ensures Follows(s.ring[1..], a, Ticked(l, s.nticks))
  {
  }

  method TickOne(s: Scheduler, ghost all: set<Alarm>, ghost lives: map<Alarm, Life>)
    requires s.Valid() && s.Early() && Mirrors(s, all, lives)
    modifies s, s.head, all
    ensures s.Valid() && s.nticks == old(s.nticks) + 1 && s.tickRate == old(s.tickRate)
    ensures Mirrors(s, all, Effect(lives, old(s.nticks), Tick))
  {
    hide Scheduler.Valid, OnTime, Firings, NextDue, Linked, Alive, Distinct, Nodes, AllFollow, Effect, Due;
    ghost var was := s.ring[1..];
    RingNodes(s, all, lives);
    AllDue(s, all, lives);
    s.Tick();
    AllMoved(s, was, all, lives);
  }

  lemma Beginning(s: Scheduler, all: set<Alarm>)
    requires s.ring == [s.head] && s.head !in all && forall a :: a in all ==> a.next == a.previous == null
    ensures Mirrors(s, all, Lives(s.nticks, [])) && Clock(s.nticks, []) == s.nticks
  {
  }

  /** Any starts, stops and ticks of any alarms, in any order: the clock, the registered alarms, their
      deadlines and all calls made are those of the specification. */
  method Run(s: Scheduler, commands: seq<Command>, ghost all: set<Alarm>)
    requires s.Valid() && s.ring == [s.head] && s.tickRate > 0 && s.nticks + |commands| + TWO_32 < TWO_64
    requires s.head !in all && forall a :: a in all ==> a.next == a.previous == null
    requires forall c :: c in commands && !c.Tick? ==> c.alarm in all
    modifies s, s.head, all
    ensures s.Valid() && s.nticks == Clock(old(s.nticks), commands)
    ensures Mirrors(s, all, Lives(old(s.nticks), commands))
  {
    hide Scheduler.Valid, Mirrors, Effect, Lives, Clock;
    ghost var start := s.nticks;
    Beginning(s, all);
    for i := 0 to |commands|
      invariant s.Valid() && s.tickRate > 0 && s.nticks == Clock(start, commands[..i])
      invariant Mirrors(s, all, Lives(start, commands[..i]))
    {
      ghost var lives := Lives(start, commands[..i]);
      ClockBound(start, commands[..i]);
      RunSnoc(start, commands[..i], commands[i]);
      assert commands[..i + 1] == commands[..i] + [commands[i]];
      match commands[i] {
        case Start(a, n, callback) => StartOne(s, a, n, callback, all, lives);
        case Stop(a) => StopOne(s, a, all, lives);
        case Tick => TickOne(s, all, lives);
      }
    }
    assert commands[..|commands|] == commands;
  }
}
