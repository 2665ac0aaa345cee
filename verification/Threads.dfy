/** Threads, waiting lists and the scheduler (lib/Core/ExecutionState.cpp,
    `Executor::schedule` and the thread handlers). */
module Threads {
  /** A waiting list number of 0 means the thread waits on none. */
  datatype Thread = Thread(enabled: bool, waitingList: nat)

  // ----- the cyclic order of thread ids -----

  lemma {:induction false} LeastOf(s: set<nat>) returns (m: nat)
    requires s != {}
    ensures m in s && forall x :: x in s ==> m <= x
    decreases |s|
  {
    var x :| x in s;
    var rest := s - {x};
    assert forall y :: y in s <==> y in rest || y == x;
    if rest == {} {
      m := x;
    } else {
      m := LeastOf(rest);
      if x < m {
        m := x;
      }
    }
  }

  ghost predicate IsLeast(s: set<nat>, m: nat) { m in s && forall x :: x in s ==> m <= x }

  lemma LeastExists(s: set<nat>)
    requires s != {}
    ensures exists m :: IsLeast(s, m)
  {
    var m := LeastOf(s);
    assert IsLeast(s, m);
  }

  function Least(s: set<nat>): (m: nat)
    requires s != {}
    ensures m in s && forall x :: x in s ==> m <= x
  {
    LeastExists(s);
    var m :| m in s && forall x :: x in s ==> m <= x;
    m
  }

  /** `nextThread`: the next id in order, the first after the last. */
  function Next(ids: set<nat>, t: nat): (n: nat)
    requires ids != {}
    ensures n in ids
  {
    var above := set x | x in ids && x > t;
    if above != {} then Least(above) else Least(ids)
  }

  lemma NextIsNext(ids: set<nat>, t: nat)
    requires ids != {}
    ensures Between(ids, t, Next(ids, t)) == {}
  {
    var above := set x | x in ids && x > t;
    var n := Next(ids, t);
    forall x | x in ids ensures x !in Between(ids, t, n) {
      assert x > t <==> x in above;
    }
  }

  /** The ids met on the way from `a` to `b`, both excluded. */
  function Between(ids: set<nat>, a: nat, b: nat): set<nat> {
    set x | x in ids && if a < b then a < x < b else x > a || x < b
  }

  /** Going on from a thread met on the way leaves less of the way. */
  lemma BetweenShrinks(ids: set<nat>, a: nat, m: nat, b: nat)
    requires m in Between(ids, a, b)
    ensures Between(ids, m, b) <= Between(ids, a, b) - {m}
    ensures |Between(ids, m, b)| < |Between(ids, a, b)|
    ensures Between(ids, a, b) == Between(ids, a, m) + {m} + Between(ids, m, b)
  {
    var rest := Between(ids, a, b) - {m};
    SubsetSize(Between(ids, m, b), rest);
    assert |Between(ids, a, b)| == |rest| + 1;
  }

  lemma {:induction false} SubsetSize(s: set<nat>, t: set<nat>)
    requires s <= t
    ensures |s| <= |t|
    decreases |s|
  {
    if s != {} {
      var x :| x in s;
      SubsetSize(s - {x}, t - {x});
    }
  }

  // ----- the machine -----

  /** Between steps: the current thread is enabled; a thread is disabled exactly
      when it waits; it is in the list it waits on and in no other; no list is
      empty. */
  ghost predicate Steady(threads: map<nat, Thread>, current: nat, lists: map<nat, set<nat>>) {
    && current in threads && threads[current].enabled
    && Listed(threads, lists)
    && forall t :: t in threads ==> (threads[t].enabled <==> threads[t].waitingList == 0)
  }

  ghost predicate Listed(threads: map<nat, Thread>, lists: map<nat, set<nat>>) {
    && (forall t :: t in threads && threads[t].waitingList > 0 ==>
          threads[t].waitingList in lists && t in lists[threads[t].waitingList])
    && (forall w :: w in lists ==> w > 0 && lists[w] != {})
    && (forall w, t :: w in lists && t in lists[w] ==> t in threads && threads[t].waitingList == w)
  }

  predicate Enabled(threads: map<nat, Thread>, t: nat) { t in threads && threads[t].enabled }

  datatype Outcome =
    | Going
    | Hang          // no thread is enabled
    | Finished      // the last thread exits
    | Failed        // an assertion of the source fails

  class Machine {
    var threads: map<nat, Thread>
    var current: nat
    var waitingLists: map<nat, set<nat>>

    ghost predicate Valid()
      reads this
    {
      Steady(threads, current, waitingLists)
    }

    constructor (main: nat)
      ensures Valid() && threads == map[main := Thread(true, 0)] && current == main && waitingLists == map[]
    {
      threads, current, waitingLists := map[main := Thread(true, 0)], main, map[];
    }

    /** The next enabled thread in cyclic order, none skipped; or a hang. */
    method Schedule() returns (ok: bool)
      requires current in threads
      modifies this`current
      ensures ok <==> exists t :: Enabled(threads, t)
      ensures !ok ==> current == old(current)
      ensures ok ==> current in threads && threads[current].enabled
      ensures ok ==> forall t :: t in Between(threads.Keys, old(current), current) ==> !threads[t].enabled
    {
      var enabledCount := CountEnabled();
      if enabledCount == 0 {
        return false;
      }
      ghost var goal :| goal in threads && threads[goal].enabled;
      NextIsNext(threads.Keys, current);
      var it := Next(threads.Keys, current);
      while !threads[it].enabled
        invariant it in threads && current == old(current)
        invariant forall t :: t in Between(threads.Keys, current, it) ==> !threads[t].enabled
        decreases if it == goal then 0 else 1 + |Between(threads.Keys, it, goal)|
      {
        NotAround(threads.Keys, current, it, goal);
        var next := Next(threads.Keys, it);
        NextIsNext(threads.Keys, it);
        NextNearer(threads.Keys, it, next, goal);
        Extend(threads.Keys, current, it, next);
        it := next;
      }
      current := it;
      assert Enabled(threads, it);
      ok := true;
    }

    method CountEnabled() returns (n: nat)
      ensures n == 0 <==> forall t :: t in threads ==> !threads[t].enabled
    {
      n := 0;
      var todo := threads.Keys;
      while todo != {}
        invariant todo <= threads.Keys
        invariant n == 0 <==> forall t :: t in threads && t !in todo ==> !threads[t].enabled
        decreases |todo|
      {
        var t :| t in todo;
        if threads[t].enabled {
          n := n + 1;
        }
        todo := todo - {t};
      }
    }

    /** `createThread`; a thread id can be created once. */
    method Create(t: nat) returns (r: Outcome)
      requires Valid()
      modifies this
      ensures Valid() && current == old(current) && waitingLists == old(waitingLists)
      ensures r == if t in old(threads) then Failed else Going
      ensures threads == if t in old(threads) then old(threads) else old(threads)[t := Thread(true, 0)]
    {
      if t in threads {
        return Failed;
      }
      threads := threads[t := Thread(true, 0)];
      r := Going;
    }

    /** `handleThreadPreempt`. */
    method Preempt() returns (r: Outcome)
      requires Valid()
      modifies this
      ensures r == Going && Valid() && threads == old(threads) && waitingLists == old(waitingLists)
      ensures NoneSkipped(threads, old(current), current)
    {
      assert Enabled(threads, current);
      var ok := Schedule();
      r := Going;
    }

    /** `handleThreadSleep`: the current thread waits on a list, and another is
        scheduled unless none is enabled. */
    method Sleep(w: nat) returns (r: Outcome)
      requires Valid()
      modifies this
      ensures w == 0 ==> r == Failed
      ensures w > 0 ==> threads == old(threads)[old(current) := Thread(false, w)]
      ensures w > 0 ==> r == if exists t :: Enabled(threads, t) then Going else Hang
      ensures w > 0 ==> waitingLists == Joining(old(waitingLists), w, old(current)) && Listed(threads, waitingLists)
      ensures r == Going ==> Valid() && NoneSkipped(threads, old(current), current)
    {
      if w == 0 {
        return Failed;
      }
      threads := threads[current := Thread(false, w)];
      waitingLists := Joining(waitingLists, w, current);
      var ok := Schedule();
      r := if ok then Going else Hang;
    }

    /** `handleThreadNotify` for one thread: the first in the list, if any. */
    method NotifyOne(w: nat) returns (r: Outcome)
      requires Valid()
      modifies this
      ensures r == Going && Valid() && current == old(current)
      ensures w !in old(waitingLists) ==> threads == old(threads) && waitingLists == old(waitingLists)
      ensures w in old(waitingLists) ==> old(waitingLists)[w] != {}
      ensures w in old(waitingLists) ==>
                var t := Least(old(waitingLists)[w]);
                threads == old(threads)[t := Thread(true, 0)] && waitingLists == Leaving(old(waitingLists), w, t)
    {
      r := Going;
      if w in waitingLists {
        var t := Least(waitingLists[w]);
        LeaveSteady(threads, current, waitingLists, w, t);
        threads := threads[t := Thread(true, 0)];
        waitingLists := Leaving(waitingLists, w, t);
      }
    }

    /** `notifyAll`: every thread of the list. */
    method NotifyAll(w: nat) returns (r: Outcome)
      requires Valid()
      modifies this
      ensures w == 0 ==> r == Failed
      ensures w > 0 ==> r == Going && Valid() && current == old(current) && waitingLists == old(waitingLists) - {w}
      ensures w > 0 ==> threads == Woken(old(threads), if w in old(waitingLists) then old(waitingLists)[w] else {})
    {
      if w == 0 {
        return Failed;
      }
      r := Going;
      if w in waitingLists {
        WakeSteady(threads, current, waitingLists, w);
        WakeAll(waitingLists[w]);
        waitingLists := waitingLists - {w};
      } else {
        assert waitingLists - {w} == waitingLists && Woken(threads, {}) == threads;
      }
    }

    method WakeAll(ts: set<nat>)
      modifies this`threads
      ensures threads == Woken(old(threads), ts)
    {
      hide Woken;
      var todo := ts;
      ghost var done: set<nat> := {};
      WokenMore(threads, {}, 0);
      while todo != {}
        invariant todo <= ts && done == ts - todo && threads == Woken(old(threads), done)
        decreases |todo|
      {
        var t :| t in todo;
        WokenMore(old(threads), done, t);
        todo, done := todo - {t}, done + {t};
        threads := threads[t := Thread(true, 0)];
      }
      assert done == ts;
    }

    /** `executeThreadExit`. */
    method Exit() returns (r: Outcome)
      requires Valid()
      modifies this
      ensures |old(threads)| == 1 ==> r == Finished
      ensures |old(threads)| != 1 ==> r == if exists t :: t != old(current) && Enabled(old(threads), t) then Going else Hang
      ensures r == Going ==> Valid() && threads == old(threads) - {old(current)} && waitingLists == old(waitingLists)
      ensures r == Going ==> NoneSkipped(old(threads)[old(current) := Thread(false, 0)], old(current), current)
    {
      if |threads| == 1 {
        return Finished;
      }
      var leaving := current;
      ghost var before := threads;
      threads := threads[current := Thread(false, 0)];
      assert forall t :: t != leaving ==> (Enabled(before, t) <==> Enabled(threads, t));
      var ok := Schedule();
      if !ok {
        forall t | t != leaving ensures !Enabled(before, t) {
          assert !Enabled(threads, t);
        }
        return Hang;
      }
      LeaveMachine(before, leaving, current, waitingLists);
      threads := threads - {leaving};
      assert threads == before - {leaving};
      r := Going;
    }

    ghost function Now(): Moment
      reads this
    {
      Moment(threads, current, waitingLists)
    }

    /** One step of the program. */
    method Step(c: Command) returns (r: Outcome)
      requires Valid()
      modifies this
      ensures r == OutcomeOf(c, old(Now()))
      ensures r == Going ==> Valid() && Moved(c, old(Now()), Now())
    {
      hide Listed;
      match c
      case Create(t) => r := Create(t);
      case Preempt => r := Preempt();
      case Sleep(w) =>
        SleepEnabled(threads, current, w, threads[current := Thread(false, w)]);
        r := Sleep(w);
      case NotifyOne(w) => r := NotifyOne(w);
      case NotifyAll(w) => r := NotifyAll(w);
      case Exit => r := Exit();
    }

    /** A run, with every moment of it, up to its end or the step that ends it. */
    method Run(cs: seq<Command>) returns (r: Outcome, ghost history: seq<Moment>)
      requires Valid()
      modifies this
      ensures |history| > 0 && history[0] == old(Now()) && |history| <= |cs| + 1
      ensures forall k :: 0 <= k < |history| ==> history[k].Valid()
      ensures forall k :: 0 <= k < |history| - 1 ==> Moved(cs[k], history[k], history[k + 1])
      ensures r == Going <==> |history| == |cs| + 1
      ensures r == Going ==> Valid() && history[|cs|] == Now()
      ensures r != Going ==> r == OutcomeOf(cs[|history| - 1], history[|history| - 1])
    {
      hide Steady, Moved, OutcomeOf;
      history, r := [Now()], Going;
      for n := 0 to |cs|
        invariant Valid() && |history| == n + 1 && history[0] == old(Now()) && history[n] == Now() && r == Going
        invariant forall k :: 0 <= k <= n ==> history[k].Valid()
        invariant forall k :: 0 <= k < n ==> Moved(cs[k], history[k], history[k + 1])
      {
        r := Step(cs[n]);
        if r != Going {
          return;
        }
        history := history + [Now()];
      }
    }
  }

  // ----- runs as values -----

  datatype Moment = Moment(threads: map<nat, Thread>, current: nat, lists: map<nat, set<nat>>) {
    ghost predicate Valid() { Steady(threads, current, lists) }
  }

  datatype Command = Create(t: nat) | Preempt | Sleep(w: nat) | NotifyOne(w: nat) | NotifyAll(w: nat) | Exit {
    predicate Schedules() { Preempt? || Sleep? || Exit? }
  }

  ghost predicate OtherEnabled(s: Moment) {
    exists t :: t != s.current && Enabled(s.threads, t)
  }

  /** How a step ends. */
  ghost function OutcomeOf(c: Command, s: Moment): Outcome {
    match c
    case Create(t) => if t in s.threads then Failed else Going
    case Preempt => Going
    case Sleep(w) => if w == 0 then Failed else if OtherEnabled(s) then Going else Hang
    case NotifyOne(_) => Going
    case NotifyAll(w) => if w == 0 then Failed else Going
    case Exit => if |s.threads| == 1 then Finished else if OtherEnabled(s) then Going else Hang
  }

  /** What the scheduler does: an enabled thread, none passed over. */
  ghost predicate Picked(threads: map<nat, Thread>, a: nat, b: nat) {
    Enabled(threads, b) && NoneSkipped(threads, a, b)
  }

  /** What a step that goes on does. */
  ghost predicate Moved(c: Command, s: Moment, n: Moment) {
    match c
    case Create(t) => n == s.(threads := s.threads[t := Thread(true, 0)])
    case Preempt => n.threads == s.threads && n.lists == s.lists && Picked(s.threads, s.current, n.current)
    case Sleep(w) =>
      && n.threads == s.threads[s.current := Thread(false, w)] && n.lists == Joining(s.lists, w, s.current)
      && Picked(n.threads, s.current, n.current)
    case NotifyOne(w) =>
      n == if w !in s.lists || s.lists[w] == {} then s
           else Moment(s.threads[Least(s.lists[w]) := Thread(true, 0)], s.current, Leaving(s.lists, w, Least(s.lists[w])))
    case NotifyAll(w) =>
      n == Moment(Woken(s.threads, if w in s.lists then s.lists[w] else {}), s.current, s.lists - {w})
    case Exit =>
      && n.threads == s.threads - {s.current} && n.lists == s.lists
      && Picked(s.threads[s.current := Thread(false, 0)], s.current, n.current)
  }

  lemma SleepEnabled(threads: map<nat, Thread>, current: nat, w: nat, after: map<nat, Thread>)
    requires after == threads[current := Thread(false, w)]
    ensures (exists t :: Enabled(after, t)) <==> exists t :: t != current && Enabled(threads, t)
  {
    if t :| Enabled(after, t) {
      assert Enabled(threads, t);
    }
    if t :| t != current && Enabled(threads, t) {
      assert Enabled(after, t);
    }
  }

  /** How often a run calls the scheduler. */
  function Calls(cs: seq<Command>): nat {
    if cs == [] then 0 else Calls(cs[..|cs| - 1]) + if cs[|cs| - 1].Schedules() then 1 else 0
  }

  /** One step, seen from an enabled thread that does not get its turn. */
  lemma StepNearer(c: Command, s: Moment, n: Moment, t: nat)
    requires s.Valid() && n.Valid() && Moved(c, s, n) && !c.Create?
    requires Enabled(s.threads, t) && Enabled(n.threads, t) && s.current != t && n.current != t
    ensures !c.Schedules() ==> n.current == s.current && n.threads.Keys == s.threads.Keys
    ensures c.Schedules() ==> |Between(n.threads.Keys, n.current, t)| < |Between(s.threads.Keys, s.current, t)|
  {
    if c.Schedules() {
      var seen := if c.Preempt? then s.threads else if c.Sleep? then n.threads else s.threads[s.current := Thread(false, 0)];
      assert seen.Keys == s.threads.Keys && seen[t].enabled;
      Nearer(s.threads.Keys, n.threads.Keys, s.current, n.current, t);
    } else if c.NotifyAll? {
      ListMembers(s.threads, s.current, s.lists, c.w);
    }
  }

  /** No starvation: a thread that stays enabled while no thread is created gets
      its turn before the scheduler has been called as often as there are threads. */
  lemma {:induction false} Fair(cs: seq<Command>, history: seq<Moment>, t: nat)
    requires |history| == |cs| + 1 && forall k :: 0 <= k < |history| ==> history[k].Valid()
    requires forall k :: 0 <= k < |cs| ==> Moved(cs[k], history[k], history[k + 1]) && !cs[k].Create?
    requires forall k :: 0 <= k < |history| ==> Enabled(history[k].threads, t) && history[k].current != t
    ensures Calls(cs) + |Between(history[|cs|].threads.Keys, history[|cs|].current, t)| < |history[0].threads|
    decreases |cs|
  {
    hide Moved, Steady;
    NearEnough(history[0].threads.Keys, history[0].current, t);
    if cs != [] {
      var n := |cs| - 1;
      Fair(cs[..n], history[..|cs|], t);
      StepNearer(cs[n], history[n], history[n + 1], t);
    }
  }

  lemma ListMembers(threads: map<nat, Thread>, current: nat, lists: map<nat, set<nat>>, w: nat)
    requires Steady(threads, current, lists)
    ensures w in lists ==> threads.Keys + lists[w] == threads.Keys
  {
  }

  lemma NearEnough(ids: set<nat>, a: nat, t: nat)
    requires t in ids
    ensures |Between(ids, a, t)| < |ids|
  {
    SubsetSize(Between(ids, a, t), ids - {t});
  }

  /** A scheduler call that does not pass an enabled thread comes nearer to it. */
  lemma Nearer(ids: set<nat>, now: set<nat>, a: nat, b: nat, t: nat)
    requires now <= ids && b in now && t in now && a != t && b != t && t !in Between(ids, a, b)
    ensures |Between(now, b, t)| < |Between(ids, a, t)|
  {
    assert b in Between(ids, a, t);
    BetweenShrinks(ids, a, b, t);
    SubsetSize(Between(now, b, t), Between(ids, b, t));
  }

  /** A notified thread leaves its list, which goes if that empties it. */
  lemma LeaveSteady(threads: map<nat, Thread>, current: nat, lists: map<nat, set<nat>>, w: nat, t: nat)
    requires Steady(threads, current, lists) && w in lists && t in lists[w]
    ensures Steady(threads[t := Thread(true, 0)], current, Leaving(lists, w, t))
  {
    var now, left := threads[t := Thread(true, 0)], Leaving(lists, w, t);
    forall u | u in now && now[u].waitingList > 0 ensures now[u].waitingList in left && u in left[now[u].waitingList] {
      assert threads[u].waitingList in lists && u in lists[threads[u].waitingList];
      if threads[u].waitingList == w {
        assert u in lists[w] - {t};
      }
    }
    assert threads[t].waitingList == w > 0 && t != current;
    forall v, u | v in left && u in left[v] ensures u in now && now[u].waitingList == v {
      assert v in lists && u in lists[v];
      assert v == w ==> u != t;
      assert threads[u].waitingList == v;
    }
    forall v | v in left ensures v > 0 && left[v] != {} {
      assert v in lists;
    }
    assert Listed(now, left);
  }

  lemma WakeSteady(threads: map<nat, Thread>, current: nat, lists: map<nat, set<nat>>, w: nat)
    requires Steady(threads, current, lists) && w in lists
    ensures Steady(Woken(threads, lists[w]), current, lists - {w})
  {
    var now := Woken(threads, lists[w]);
    assert now.Keys == threads.Keys;
  }

  lemma WokenMore(threads: map<nat, Thread>, done: set<nat>, t: nat)
    ensures Woken(threads, done + {t}) == Woken(threads, done)[t := Thread(true, 0)]
    ensures Woken(threads, {}) == threads
  {
  }

  lemma LeaveMachine(threads: map<nat, Thread>, leaving: nat, current: nat, lists: map<nat, set<nat>>)
    requires Steady(threads, leaving, lists) && current != leaving && current in threads && threads[current].enabled
    ensures Steady(threads - {leaving}, current, lists)
  {
  }

  /** No enabled thread is passed over on the way from `a` to `b`. */
  ghost predicate NoneSkipped(threads: map<nat, Thread>, a: nat, b: nat) {
    forall t :: t in Between(threads.Keys, a, b) ==> !threads[t].enabled
  }

  function Joining(lists: map<nat, set<nat>>, w: nat, t: nat): map<nat, set<nat>> {
    lists[w := (if w in lists then lists[w] else {}) + {t}]
  }

  /** A list that becomes empty is removed. */
  function Leaving(lists: map<nat, set<nat>>, w: nat, t: nat): map<nat, set<nat>>
    requires w in lists
  {
    if lists[w] - {t} == {} then lists - {w} else lists[w := lists[w] - {t}]
  }

  function Woken(threads: map<nat, Thread>, ts: set<nat>): map<nat, Thread> {
    map t | t in threads.Keys + ts :: if t in ts then Thread(true, 0) else threads[t]
  }

  /** A goal that is still ahead is not on the way behind. */
  lemma NotAround(ids: set<nat>, a: nat, it: nat, goal: nat)
    requires goal in ids && goal != it && goal !in Between(ids, a, it)
    ensures it != a
  {
  }

  lemma NextNearer(ids: set<nat>, it: nat, next: nat, goal: nat)
    requires it in ids && next in ids && goal in ids && goal != it && Between(ids, it, next) == {}
    ensures next == goal || next in Between(ids, it, goal)
    ensures |Between(ids, next, goal)| < |Between(ids, it, goal)| || next == goal
  {
    assert goal !in Between(ids, it, next);
    if next != goal {
      BetweenShrinks(ids, it, next, goal);
    }
  }

  lemma Extend(ids: set<nat>, a: nat, it: nat, next: nat)
    requires a in ids && it in ids && it != a && Between(ids, it, next) == {}
    ensures Between(ids, a, next) == Between(ids, a, it) + {it}
  {
    forall x | x in ids ensures x in Between(ids, a, next) <==> x in Between(ids, a, it) || x == it {
      assert x !in Between(ids, it, next) && a !in Between(ids, it, next);
    }
  }
}
