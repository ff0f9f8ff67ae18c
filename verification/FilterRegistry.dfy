/**
  Anvil's registered filters: each has a deadline that adding and polling push `keepalive` ahead, and
  a periodic eviction removes those past it. Time is a parameter; ids are whatever the caller got.
 */
module FilterRegistry {

  type Id = nat
  type Time = nat
  /** Active filters with their deadlines. */
  type Filters = map<Id, Time>

  function Touched(f: Filters, id: Id, now: Time, keepalive: nat): Filters {
    f[id := now + keepalive]
  }

  /** `retain`: what is not past its deadline. */
  function Retained(f: Filters, now: Time): Filters {
    map id | id in f && now <= f[id] :: f[id]
  }

  class Registry {
    var active: Filters
    const keepalive: nat

    constructor (keepalive: nat)
      ensures active == map[] && this.keepalive == keepalive
    {
      active, this.keepalive := map[], keepalive;
    }

    method AddFilter(id: Id, now: Time)
      modifies this
      ensures active == Touched(old(active), id, now, keepalive)
    {
      active := active[id := now + keepalive];
    }

    /** `get_filter_changes`; an unknown id answers with nothing and is not registered. */
    method GetFilterChanges(id: Id, now: Time) returns (found: bool)
      modifies this
      ensures found == (id in old(active))
      ensures active == if found then Touched(old(active), id, now, keepalive) else old(active)
    {
      found := id in active;
      if found {
        active := active[id := now + keepalive];
      }
    }

    method UninstallFilter(id: Id) returns (found: bool)
      modifies this
      ensures found == (id in old(active)) && active == old(active) - {id}
    {
      found := id in active;
      active := active - {id};
    }

    method Evict(now: Time)
      modifies this
      ensures active == Retained(old(active), now)
    {
      var ids := active.Keys;
      ghost var before := active;
      while ids != {}
        invariant ids <= before.Keys
        invariant forall id :: id in active <==> id in before && (id in ids || now <= before[id])
        invariant forall id :: id in active ==> active[id] == before[id]
        decreases |ids|
      {
        var id :| id in ids;
        ids := ids - {id};
        if now > active[id] {
          active := active - {id};
        }
      }
    }
  }

  // ---------------------------------------------------------------- runs

  datatype Action = Add(id: Id) | Poll(id: Id) | Uninstall(id: Id) | Evict
  datatype Event = Event(at: Time, action: Action)

  function Step(f: Filters, e: Event, keepalive: nat): Filters {
    match e.action
    case Add(id) => Touched(f, id, e.at, keepalive)
    case Poll(id) => if id in f then Touched(f, id, e.at, keepalive) else f
    case Uninstall(id) => f - {id}
    case Evict => Retained(f, e.at)
  }

  function Run(evs: seq<Event>, n: nat, keepalive: nat): Filters
    requires n <= |evs|
  {
    if n == 0 then map[] else Step(Run(evs, n - 1, keepalive), evs[n - 1], keepalive)
  }

  predicate Monotone(evs: seq<Event>) {
    forall i, j :: 0 <= i < j < |evs| ==> evs[i].at <= evs[j].at
  }

  predicate Touches(e: Event, id: Id) {
    e.action == Add(id) || e.action == Poll(id)
  }

  /** The last event before `n` that adds or polls the filter; `n` if there is none. */
  function LastTouch(evs: seq<Event>, n: nat, id: Id): (j: nat)
    requires n <= |evs|
    ensures j <= n
    ensures j < n ==> Touches(evs[j], id)
    ensures forall i :: (if j < n then j else -1) < i < n ==> !Touches(evs[i], id)
  {
    if n == 0 then 0
    else if Touches(evs[n - 1], id) then n - 1
    else
      var j := LastTouch(evs, n - 1, id);
      if j < n - 1 then j else n
  }

  /** Every active filter's deadline is its last add or poll plus the keepalive. */
  lemma {:induction false} DeadlineIsLastTouch(evs: seq<Event>, n: nat, keepalive: nat, id: Id)
    requires n <= |evs| && id in Run(evs, n, keepalive)
    ensures LastTouch(evs, n, id) < n
    ensures Run(evs, n, keepalive)[id] == evs[LastTouch(evs, n, id)].at + keepalive
  {
    if n > 0 && id in Run(evs, n - 1, keepalive) {
      DeadlineIsLastTouch(evs, n - 1, keepalive, id);
    }
  }

  /** The filter is active right after event `j`, which added or polled it. */
  predicate TouchedAt(evs: seq<Event>, j: nat, keepalive: nat, id: Id) {
    j < |evs| && Touches(evs[j], id) && id in Run(evs, j + 1, keepalive)
  }

  /** A filter that is not uninstalled stays at least `keepalive` after each touch. */
  lemma {:induction false} PresentUntilDeadline(evs: seq<Event>, j: nat, n: nat, keepalive: nat, id: Id)
    requires Monotone(evs) && TouchedAt(evs, j, keepalive, id)
    requires j < n <= |evs| && evs[n - 1].at <= evs[j].at + keepalive
    requires forall i :: j < i < n ==> evs[i].action != Uninstall(id)
    ensures id in Run(evs, n, keepalive) && Run(evs, n, keepalive)[id] >= evs[j].at + keepalive
    decreases n
  {
    if n > j + 1 {
      PresentUntilDeadline(evs, j, n - 1, keepalive, id);
    }
  }

  /** The event removes the filter: by uninstalling it, or by an eviction later than `keepalive` after the
      filter was last added or polled. */
  predicate Removes(evs: seq<Event>, i: nat, keepalive: nat, id: Id)
    requires i < |evs|
  {
    || evs[i].action == Uninstall(id)
    || (evs[i].action == Evict
        && var j := LastTouch(evs, i, id); j < i && evs[i].at > evs[j].at + keepalive)
  }

  /** Added at event `j` and not removed since. */
  predicate AliveSince(evs: seq<Event>, j: nat, n: nat, keepalive: nat, id: Id)
    requires n <= |evs|
  {
    j < n && evs[j].action == Add(id) && forall i :: j < i < n ==> !Removes(evs, i, keepalive, id)
  }

  /** In every run, whatever the clock does, the active filters are those added and not removed since. */
  lemma {:induction false} ActiveIff(evs: seq<Event>, n: nat, keepalive: nat, id: Id)
    requires n <= |evs|
    ensures id in Run(evs, n, keepalive) <==> exists j :: AliveSince(evs, j, n, keepalive, id)
  {
    if n > 0 {
      ActiveIff(evs, n - 1, keepalive, id);
      if evs[n - 1].action == Add(id) {
        assert AliveSince(evs, n - 1, n, keepalive, id);
      } else {
        ActiveStep(evs, n - 1, keepalive, id);
        forall j | AliveSince(evs, j, n, keepalive, id) ensures AliveSince(evs, j, n - 1, keepalive, id) {
        }
        if id in Run(evs, n, keepalive) {
          var j :| AliveSince(evs, j, n - 1, keepalive, id);
          assert AliveSince(evs, j, n, keepalive, id);
        }
      }
    }
  }

  lemma ActiveStep(evs: seq<Event>, n: nat, keepalive: nat, id: Id)
    requires n < |evs| && evs[n].action != Add(id)
    ensures id in Run(evs, n + 1, keepalive) <==> id in Run(evs, n, keepalive) && !Removes(evs, n, keepalive, id)
  {
    if id in Run(evs, n, keepalive) {
      DeadlineIsLastTouch(evs, n, keepalive, id);
    }
  }

  // ---------------------------------------------------------------- eviction

  /** Eviction ticks `start + keepalive`, `start + 2 * keepalive`, ... up to `until` are all on time. */
  ghost predicate OnTime(evs: seq<Event>, n: nat, start: Time, keepalive: nat, until: Time)
    requires n <= |evs|
  {
    forall m: nat :: m >= 1 && Tick(start, keepalive, m) <= until ==>
      exists i :: 0 <= i < n && evs[i] == Event(Tick(start, keepalive, m), Evict)
  }

  function Tick(start: Time, keepalive: nat, m: nat): Time {
    start + m * keepalive
  }

  /** Between any two moments a keepalive apart there is a tick: after the first, not after the second. */
  lemma TickBetween(start: Time, keepalive: nat, t: Time) returns (m: nat)
    requires keepalive > 0 && start <= t
    ensures m >= 1 && t + keepalive < Tick(start, keepalive, m) <= t + 2 * keepalive
  {
    var q := (t - start) / keepalive;
    var r := (t - start) % keepalive;
    assert t - start == q * keepalive + r;
    m := q + 2;
    assert m * keepalive == q * keepalive + 2 * keepalive;
  }

  lemma {:induction false} StaysGone(evs: seq<Event>, i: nat, n: nat, keepalive: nat, id: Id)
    requires i <= n <= |evs| && id !in Run(evs, i, keepalive)
    requires forall k :: i <= k < n ==> !Touches(evs[k], id)
    ensures id !in Run(evs, n, keepalive)
    decreases n
  {
    if i < n {
      StaysGone(evs, i, n - 1, keepalive, id);
    }
  }

  /** A filter that is not touched after `j` is gone once the tick after its deadline has run. */
  lemma GoneAfterTick(evs: seq<Event>, j: nat, i: nat, n: nat, keepalive: nat, id: Id)
    requires Monotone(evs) && j < i < n <= |evs| && Touches(evs[j], id)
    requires evs[i].action == Evict && evs[i].at > evs[j].at + keepalive
    requires forall k :: j < k < n ==> !Touches(evs[k], id)
    ensures id !in Run(evs, n, keepalive)
  {
    if id in Run(evs, i, keepalive) {
      DeadlineIsLastTouch(evs, i, keepalive, id);
      assert LastTouch(evs, i, id) == j;
    }
    StaysGone(evs, i + 1, n, keepalive, id);
  }

  /**
    The lifetime bound: with a monotone clock and on-time ticks, a filter last touched at time `t` is
    gone by `t + 2 * keepalive`.
   */
  lemma GoneByTwiceKeepalive(evs: seq<Event>, n: nat, start: Time, keepalive: nat, id: Id, j: nat)
    requires keepalive > 0 && Monotone(evs) && n <= |evs|
    requires j < n && Touches(evs[j], id) && start <= evs[j].at
    requires forall k :: j < k < n ==> !Touches(evs[k], id)
    requires OnTime(evs, n, start, keepalive, evs[j].at + 2 * keepalive)
    ensures id !in Run(evs, n, keepalive)
  {
    var m := TickBetween(start, keepalive, evs[j].at);
    var i :| 0 <= i < n && evs[i] == Event(Tick(start, keepalive, m), Evict);
    assert j < i;
    GoneAfterTick(evs, j, i, n, keepalive, id);
  }

  /** The bound is tight: a tick exactly at the deadline still keeps the filter, so one touched on a
      tick is evicted only two ticks later. */
  lemma TickAtDeadlineKeeps(id: Id, t: Time, keepalive: nat)
    requires keepalive > 0
    ensures var evs := [Event(t, Add(id)), Event(t + keepalive, Evict), Event(t + 2 * keepalive, Evict)];
      id in Run(evs, 2, keepalive) && id !in Run(evs, 3, keepalive)
  {
    var evs := [Event(t, Add(id)), Event(t + keepalive, Evict), Event(t + 2 * keepalive, Evict)];
    assert Run(evs, 0, keepalive) == map[];
    assert Run(evs, 1, keepalive) == map[id := t + keepalive];
    assert Run(evs, 2, keepalive) == Retained(Run(evs, 1, keepalive), t + keepalive);
    assert Run(evs, 3, keepalive) == Retained(Run(evs, 2, keepalive), t + 2 * keepalive);
  }
}
