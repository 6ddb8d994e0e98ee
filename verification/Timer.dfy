/** kernel/timer.c on the cyclic list of includes/awa/ds/llist.h: periodic timers over runs of ticks. */
module Timers {
  import opened Words

  /** How many ticks a countdown from d takes. The counter is decremented before it is tested, and so 0 wraps around. */
  function Period(d: Word): (p: nat)
    ensures p >= 1
  {
    if d == 0 then 0x1_0000_0000 else d
  }

  /** Counter and number of firings of a timer after `visits` ticks. */
  predicate Scheduled(deadline: Word, counter: Word, visits: nat, fired: nat) {
    var d := Period(deadline);
    fired == visits / d && counter == Wrap(d - visits % d)
  }

  lemma NextScheduled(deadline: Word, counter: Word, visits: nat, fired: nat)
    ensures Wrap(counter - 1) == 0 <==> counter == 1
    ensures Scheduled(deadline, counter, visits, fired) ==>
      if counter == 1 then Scheduled(deadline, deadline, visits + 1, fired + 1)
      else Scheduled(deadline, Wrap(counter - 1), visits + 1, fired)
  {
    var d := Period(deadline);
    NextTick(visits, d);
    Remainder(visits, d);
  }

  lemma Remainder(v: nat, d: nat)
    requires 1 <= d
    ensures v % d < d
  {
  }

  /** struct lx_timer with its llist_header. The ghost fields count what happened to it since it was registered. */
  class Timer {
    var prev: Timer
    var next: Timer
    var deadline: Word
    var counter: Word
    var periodic: bool
    ghost var visits: nat
    ghost var fired: nat

    /** A list head, linked to itself: llist_init_head. */
    constructor ()
      ensures prev == this && next == this && visits == 0 && fired == 0
    {
      prev, next := this, this;
      deadline, counter, periodic := 0, 0, false;
      visits, fired := 0, 0;
    }

    /** A periodic timer after `visits` ticks. */
    ghost predicate OnSchedule()
      reads this`periodic, this`deadline, this`counter, this`visits, this`fired
    {
      periodic && Scheduled(deadline, counter, visits, fired)
    }

    /** The fields that timer_run sets. */
    method Start(ticks: Word)
      requires visits == 0 && fired == 0
      modifies this`counter, this`deadline, this`periodic
      ensures OnSchedule() && deadline == ticks
    {
      StartOfSchedule(Period(ticks));
      counter, deadline, periodic := ticks, ticks, true;
    }

    /** The body of the loop in timer_update: counts down, and at zero fires and starts over. */
    method Tick()
      requires OnSchedule()
      modifies this`counter, this`visits, this`fired
      ensures OnSchedule() && visits == old(visits) + 1
      ensures fired == old(fired) + (if old(counter) == 1 then 1 else 0)
      ensures counter == if old(counter) == 1 then deadline else Wrap(old(counter) - 1)
    {
      hide Scheduled, Wrap;
      NextScheduled(deadline, counter, visits, fired);
      visits := visits + 1;
      counter := Wrap(counter - 1);
      if counter != 0 {
        return;
      }
      fired := fired + 1;
      if periodic {
        counter := deadline;
      }
    }
  }

  lemma StartOfSchedule(d: nat)
    requires 1 <= d
    ensures 0 / d == 0 && 0 % d == 0
  {
  }

  /** One more tick: the quotient grows exactly when the remainder wraps. */
  lemma NextTick(v: nat, d: nat)
    requires 1 <= d
    ensures if v % d == d - 1 then (v + 1) / d == v / d + 1 && (v + 1) % d == 0
            else (v + 1) / d == v / d && (v + 1) % d == v % d + 1
  {
    var q, r := v / d, v % d;
    assert v == q * d + r;
    if r == d - 1 {
      assert v + 1 == (q + 1) * d;
      Quotient(v + 1, d, q + 1, 0);
    } else {
      Quotient(v + 1, d, q, r + 1);
    }
  }

  // ---------------------------------------------------------------- the list

  function Succ(i: nat, n: nat): nat {
    if i + 1 < n then i + 1 else 0
  }

  /** The nodes of `ring`, in this order, form one doubly linked cycle. */
  ghost predicate Cycle(ring: seq<Timer>)
    reads ring`next, ring`prev
  {
    (forall i, j | 0 <= i < j < |ring| :: ring[i] != ring[j]) &&
    (forall i: nat | i < |ring| :: ring[i].next == ring[Succ(i, |ring|)]) &&
    (forall i: nat | i < |ring| :: ring[Succ(i, |ring|)].prev == ring[i])
  }

  /** llist_append: __llist_add(elem, head, head->next). */
  method Append(head: Timer, elem: Timer, ghost ring: seq<Timer>)
    requires ring != [] && ring[0] == head && Cycle(ring) && elem !in ring
    modifies ring`next, ring`prev, elem`prev, elem`next
    ensures Cycle([head, elem] + ring[1..])
  {
    assert ring[0].next == ring[Succ(0, |ring|)];
    var next := head.next;
    next.prev := elem;
    elem.next := next;
    elem.prev := head;
    head.next := elem;
    ghost var ring' := [head, elem] + ring[1..];
    assert |ring'| == |ring| + 1;
    assert forall i: nat | 2 <= i < |ring'| :: ring'[i] == ring[i - 1];
    forall i: nat | i < |ring'|
      ensures ring'[i].next == ring'[Succ(i, |ring'|)] && ring'[Succ(i, |ring'|)].prev == ring'[i]
    {
      if i >= 2 {
        assert ring[i - 1].next == ring[Succ(i - 1, |ring|)];
      }
    }
  }

  /** llist_delete writes elem->next, not elem->prev, into the successor. The rest stays a well-formed cycle
      exactly when the two coincide, that is, when elem was alone behind the head. */
  method Delete(elem: Timer, ghost ring: seq<Timer>, ghost k: nat)
    requires Cycle(ring) && 1 <= k < |ring| && ring[k] == elem
    modifies elem.prev`next, elem.next`prev, elem`prev, elem`next
    ensures elem.prev == elem && elem.next == elem
    ensures Cycle(ring[..k] + ring[k + 1..]) <==> |ring| == 2
  {
    ghost var n, rest, p, s := |ring|, ring[..k] + ring[k + 1..], elem.prev, elem.next;
    assert ring[Succ(k - 1, n)].prev == ring[k - 1];
    assert s == ring[Succ(k, n)] && p == ring[k - 1];
    elem.prev.next := elem.next;
    elem.next.prev := elem.next;
    elem.prev := elem;
    elem.next := elem;
    assert rest[k - 1] == p && rest[Succ(k - 1, n - 1)] == s;
    if n == 2 {
      assert rest == [ring[0]];
    } else {
      assert p != s && rest[Succ(k - 1, n - 1)].prev != rest[k - 1];
    }
  }

  lemma Neighbours(ring: seq<Timer>, k: nat)
    requires Cycle(ring) && 1 <= k < |ring|
    ensures ring[k].prev == ring[k - 1] && ring[k].next == ring[if k + 1 < |ring| then k + 1 else 0]
  {
    assert ring[Succ(k - 1, |ring|)].prev == ring[k - 1];
  }

  /** Two timers, and the one behind the head deleted: what is left is no cycle. */
  method DeleteOfTwo() returns (head: Timer, a: Timer)
    ensures a != head && !Cycle([head, a])
  {
    head := new Timer();
    a := new Timer();
    var b := new Timer();
    assert Cycle([head]);
    hide Cycle, Succ;
    Append(head, a, [head]);
    assert [head, a] + [head][1..] == [head, a];
    Append(head, b, [head, a]);
    ghost var ring := [head, b, a];
    assert [head, b] + [head, a][1..] == ring && ring[..1] + ring[2..] == [head, a];
    Neighbours(ring, 1);
    Delete(b, ring, 1);
  }

  /** A call of timer_run, with whether lxmalloc finds room, or a tick. */
  datatype Event = Register(ticks: Word, room: bool) | Interrupt

  function TicksIn(events: seq<Event>): nat {
    if events == [] then 0
    else TicksIn(events[..|events| - 1]) + if events[|events| - 1].Interrupt? then 1 else 0
  }

  /** How many registrations found room. */
  function Granted(events: seq<Event>): nat {
    if events == [] then 0
    else
      var e := events[|events| - 1];
      Granted(events[..|events| - 1]) + if e.Register? && e.room then 1 else 0
  }

  /** A timer registered by event k, with all the ticks that came after it. */
  predicate RegisteredAt(events: seq<Event>, k: nat, deadline: Word, visits: nat) {
    k < |events| && events[k].Register? && events[k].room && events[k].ticks == deadline &&
    visits == TicksIn(events[k..])
  }

  lemma NoEvents(events: seq<Event>)
    ensures TicksIn(events[..0]) == 0 && Granted(events[..0]) == 0
  {
  }

  lemma WholeRun(events: seq<Event>)
    ensures events[..|events|] == events
  {
  }

  lemma OneMoreEvent(events: seq<Event>, i: nat)
    requires i < |events|
    ensures TicksIn(events[..i + 1]) == TicksIn(events[..i]) + if events[i].Interrupt? then 1 else 0
    ensures var e := events[i];
      Granted(events[..i + 1]) == Granted(events[..i]) + if e.Register? && e.room then 1 else 0
    ensures events[i].Register? && events[i].room ==> RegisteredAt(events[..i + 1], i, events[i].ticks, 0)
    ensures forall k: nat, d: Word, v: nat | RegisteredAt(events[..i], k, d, v) ::
      RegisteredAt(events[..i + 1], k, d, v + if events[i].Interrupt? then 1 else 0)
  {
    assert events[..i + 1][..i] == events[..i];
    assert events[..i + 1][i..] == [events[i]];
    assert TicksIn([events[i]]) == TicksIn([]) + if events[i].Interrupt? then 1 else 0;
    forall k: nat, d: Word, v: nat | RegisteredAt(events[..i], k, d, v)
      ensures RegisteredAt(events[..i + 1], k, d, v + if events[i].Interrupt? then 1 else 0)
    {
      var tail := events[..i + 1][k..];
      assert tail[..|tail| - 1] == events[..i][k..];
    }
  }

  class TimerContext {
    const head: Timer
    /** The registered timers, in list order. */
    ghost var timers: seq<Timer>

    ghost predicate Valid()
      reads this, head, timers
    {
      Cycle([head] + timers) && forall t | t in timers :: t.OnSchedule()
    }

    /** timer_init_context. */
    constructor ()
      ensures Valid() && fresh(head) && timers == []
    {
      head := new Timer();
      timers := [];
    }

    /** timer_run, given whether lxmalloc finds room: registers a periodic timer behind the head. */
    method TimerRun(ticks: Word, room: bool) returns (ok: bool, ghost timer: Timer?)
      requires Valid()
      modifies this, head, timers
      ensures Valid() && ok == room
      ensures !ok ==> timers == old(timers)
      ensures ok ==> timer != null && fresh(timer) && timers == [timer] + old(timers)
      ensures ok ==> timer.visits == 0 && timer.fired == 0 && timer.deadline == ticks
      ensures forall t | t in old(timers) ::
        t.visits == old(t.visits) && t.fired == old(t.fired) && t.deadline == old(t.deadline)
    {
      hide Cycle, Succ, Timer.OnSchedule;
      ok, timer := room, null;
      if room {
        var t := new Timer();
        t.Start(ticks);
        ghost var ring := [head] + timers;
        assert ring[1..] == timers;
        Append(head, t, ring);
        assert [head, t] + timers == [head] + ([t] + timers);
        timers := [t] + timers;
        timer := t;
      }
    }

    /** timer_update: one pass over the list; a timer fires when its counter reaches zero, and starts over. */
    method TimerUpdate()
      requires Valid()
      modifies timers
      ensures Valid()
      ensures forall t | t in timers :: t.visits == old(t.visits) + 1 && t.deadline == old(t.deadline)
    {
      hide Timer.OnSchedule;
      ghost var ring := [head] + timers;
      ghost var i: nat := 1;
      assert ring[0].next == ring[Succ(0, |ring|)];
      var pos := head.next;
      var n := pos.next;
      while pos != head
        invariant 1 <= i <= |ring| && pos == ring[if i < |ring| then i else 0] && n == pos.next
        invariant Cycle(ring)
        invariant forall j | 1 <= j < i :: ring[j].OnSchedule() && ring[j].visits == old(ring[j].visits) + 1
        invariant forall j | i <= j < |ring| :: ring[j].OnSchedule() && ring[j].visits == old(ring[j].visits)
        invariant forall t | t in timers :: t.deadline == old(t.deadline)
        decreases |ring| - i
      {
        assert ring[i] == timers[i - 1] && n == ring[if i + 1 < |ring| then i + 1 else 0] by {
          assert ring[i].next == ring[Succ(i, |ring|)];
        }
        pos.Tick();
        pos := n;
        n := n.next;
        i := i + 1;
      }
      assert i == |ring|;
      forall t | t in timers
        ensures t.OnSchedule() && t.visits == old(t.visits) + 1
      {
        var j :| 0 <= j < |timers| && timers[j] == t;
        assert ring[j + 1] == t;
      }
    }

    /** A run of ticks: after n of them every timer has been visited n times more, and so has fired exactly
        floor(visits / period) times since it was registered. */
    method Ticks(n: nat)
      requires Valid()
      modifies timers
      ensures Valid()
      ensures forall t | t in timers :: t.deadline == old(t.deadline) && t.visits == old(t.visits) + n
      ensures forall t | t in timers :: t.fired == (old(t.visits) + n) / Period(t.deadline)
    {
      for i := 0 to n
        invariant Valid() && forall t | t in timers :: t.deadline == old(t.deadline) && t.visits == old(t.visits) + i
      {
        TimerUpdate();
      }
    }

    lemma Fired()
      requires Valid()
      ensures forall t | t in timers :: t.fired == t.visits / Period(t.deadline)
    {
    }

    /** One event: a timer may come in front, and a tick visits all the others. */
    method Handle(e: Event) returns (ghost added: seq<Timer>)
      requires Valid()
      modifies this, head, timers
      ensures Valid() && timers == added + old(timers) && |added| == if e.Register? && e.room then 1 else 0
      ensures forall t | t in added :: fresh(t) && t.visits == 0 && e.Register? && t.deadline == e.ticks
      ensures forall t | t in old(timers) ::
        t.visits == old(t.visits) + (if e.Interrupt? then 1 else 0) && t.deadline == old(t.deadline)
    {
      hide Cycle, Timer.OnSchedule;
      added := [];
      match e {
        case Register(ticks, room) =>
          ghost var timer;
          var ok;
          ok, timer := TimerRun(ticks, room);
          if ok {
            added := [timer];
          }
        case Interrupt =>
          TimerUpdate();
      }
    }

    /** What is known of the timers after some events: those from before have been visited once for each tick, the
        others once for each tick since they were registered. */
    ghost predicate Book(events: seq<Event>, olds: map<Timer, nat>, due: map<Timer, Word>, added: seq<Timer>,
                         at: map<Timer, nat>)
      reads olds.Keys, added
    {
      (forall t | t in olds :: t in due && t.visits == olds[t] + TicksIn(events) && t.deadline == due[t]) &&
      (forall t | t in added :: t in at && RegisteredAt(events, at[t], t.deadline, t.visits))
    }

    /** One more event. */
    method Advance(events: seq<Event>, i: nat, ghost olds: map<Timer, nat>, ghost due: map<Timer, Word>,
                   ghost added: seq<Timer>, ghost at: map<Timer, nat>)
      returns (ghost more: seq<Timer>, ghost at': map<Timer, nat>)
      requires Valid() && i < |events| && Book(events[..i], olds, due, added, at)
      requires (forall t | t in olds :: t in timers) && forall t | t in added :: t in timers
      modifies this, head, timers
      ensures Valid() && timers == more + old(timers) && Book(events[..i + 1], olds, due, more + added, at')
      ensures (forall t | t in more :: fresh(t)) && Granted(events[..i + 1]) == Granted(events[..i]) + |more|
    {
      hide Cycle, TicksIn, Granted, RegisteredAt, Timer.OnSchedule, TimerContext.Valid;
      ghost var tick := if events[i].Interrupt? then 1 else 0;
      OneMoreEvent(events, i);
      more := Handle(events[i]);
      InBoth(more, added);
      at' := at + map t | t in more :: i;
      forall t | t in added
        ensures RegisteredAt(events[..i + 1], at'[t], t.deadline, t.visits)
      {
        assert RegisteredAt(events[..i], at[t], t.deadline, t.visits - tick);
      }
    }

    /** Any mix of registrations and ticks. Every timer, old or new, has been visited once for each tick since it was
        registered, and has fired floor(visits / period) times. `at` says which event has registered a new timer. */
    method Run(events: seq<Event>) returns (ghost added: seq<Timer>, ghost at: map<Timer, nat>)
      requires Valid()
      modifies this, head, timers
      ensures Valid() && timers == added + old(timers) && |added| == Granted(events)
      ensures forall t | t in old(timers) ::
        t.visits == old(t.visits) + TicksIn(events) && t.deadline == old(t.deadline)
      ensures forall t | t in added ::
        t in at && at[t] < |events| && events[at[t]] == Register(t.deadline, true) &&
        t.visits == TicksIn(events[at[t]..])
      ensures forall t | t in timers :: t.fired == t.visits / if t.deadline == 0 then 0x1_0000_0000 else t.deadline
    {
      hide Cycle, TicksIn, Granted, Timer.OnSchedule, TimerContext.Valid;
      added, at := [], map[];
      NoEvents(events);
      ghost var olds := map t | t in timers :: t.visits;
      ghost var due := map t | t in timers :: t.deadline;
      for i := 0 to |events|
        invariant Valid() && timers == added + old(timers) && |added| == Granted(events[..i])
        invariant forall t | t in added :: fresh(t)
        invariant Book(events[..i], olds, due, added, at)
      {
        InBoth(added, old(timers));
        forall k | 0 <= k < |timers|
          ensures fresh(timers[k]) || timers[k] in old(timers)
        {
          assert timers[k] in added + old(timers);
        }
        ghost var more;
        more, at := Advance(events, i, olds, due, added, at);
        InBoth(more, added);
        added := more + added;
      }
      WholeRun(events);
      Fired();
    }
  }

  lemma InBoth(a: seq<Timer>, b: seq<Timer>)
    ensures forall t :: t in a + b <==> t in a || t in b
  {
  }
}
