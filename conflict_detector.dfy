/**
 * `RuntimeConflictDetector`: a lock per element selector, a count of timed-out
 * acquisitions, a fallback flag that the count switches on for good, and the
 * periodic removal of idle locks. The threads, the global lock and the polling
 * sleep are not modelled: `AcquireStep` is one pass of the polling loop, and every
 * reading of the clock is an argument.
 */
module Locks {
  import opened Wrappers

  /** More timeouts than this switch the executor to sequential mode. */
  const ConflictLimit: nat := 5

  /** The counter and the flag after one timed-out acquisition. */
  function TimeoutStep(count: nat, fallback: bool): (r: (nat, bool))
    ensures r.0 == count + 1
    ensures r.1 <==> fallback || r.0 > ConflictLimit
  {
    var c := count + 1;
    (c, if c > ConflictLimit then true else fallback)
  }

  /** The counter and the flag after `n` timed-out acquisitions in a row. */
  function Timeouts(count: nat, fallback: bool, n: nat): (nat, bool) {
    if n == 0 then (count, fallback)
    else var r := Timeouts(count, fallback, n - 1); TimeoutStep(r.0, r.1)
  }

  /**
   * Each timeout adds exactly one conflict, and the fallback flag is on exactly when
   * it was already on or some timeout took the count past the limit: once on, it stays on.
   */
  lemma {:induction false} TimeoutsCount(count: nat, fallback: bool, n: nat)
    ensures Timeouts(count, fallback, n).0 == count + n
    ensures Timeouts(count, fallback, n).1 <==> fallback || (n > 0 && count + n > ConflictLimit)
  {
    if n > 0 {
      TimeoutsCount(count, fallback, n - 1);
    }
  }

  /** A fresh detector falls back to sequential mode exactly from the sixth timeout on. */
  lemma FreshFallback(n: nat)
    ensures Timeouts(0, false, n).1 <==> n >= 6
  {
    TimeoutsCount(0, false, n);
  }

  /** `max_age_seconds or self.cleanup_interval`: a missing or zero age falls back to the interval. */
  function AgeLimit(maxAge: Option<int>, interval: int): (r: int)
    ensures maxAge.Some? && maxAge.value != 0 ==> r == maxAge.value
    ensures maxAge.None? || maxAge.value == 0 ==> r == interval
  {
    match maxAge
    case Some(a) => if a != 0 then a else interval
    case None => interval
  }

  /** The selectors whose last use is more than `ageLimit` seconds before `now`. */
  function Expired(stamps: map<string, real>, ageLimit: int, now: real): (r: set<string>)
    ensures r <= stamps.Keys
    ensures forall s :: s in stamps ==> (s in r <==> now - stamps[s] > ageLimit as real)
  {
    set s | s in stamps && now - stamps[s] > ageLimit as real
  }

  /** Of `expired`, the selectors whose lock exists and is free: the ones cleanup deletes. */
  function Reclaimable(locked: map<string, bool>, expired: set<string>): (r: set<string>)
    ensures r <= expired && r <= locked.Keys
    ensures forall s :: s in r ==> !locked[s]
    ensures forall s :: s in expired && s in locked && !locked[s] ==> s in r
  {
    set s | s in expired && s in locked && !locked[s]
  }

  /** What the detector keeps: timestamps only for known locks, and one for every held lock. */
  ghost predicate Consistent(locked: map<string, bool>, stamps: map<string, real>) {
    && stamps.Keys <= locked.Keys
    && forall s :: s in locked && locked[s] ==> s in stamps
  }

  /** Deleting the reclaimable locks keeps every held lock, and deletes locks and timestamps together. */
  lemma ReclaimKeepsHeld(locked: map<string, bool>, stamps: map<string, real>, expired: set<string>)
    requires Consistent(locked, stamps)
    ensures Consistent(locked - Reclaimable(locked, expired), stamps - Reclaimable(locked, expired))
    ensures forall s :: s in locked && locked[s] ==> s in locked - Reclaimable(locked, expired) && (locked - Reclaimable(locked, expired))[s]
    ensures forall s :: s in stamps - Reclaimable(locked, expired) ==> s in locked - Reclaimable(locked, expired)
  {
  }

  /** The deleting loop of `cleanup_old_locks`: every expired selector whose lock is free goes, lock and timestamp. */
  method Reclaim(locked: map<string, bool>, stamps: map<string, real>, expired: set<string>)
    returns (locked': map<string, bool>, stamps': map<string, real>)
    ensures locked' == locked - Reclaimable(locked, expired)
    ensures stamps' == stamps - Reclaimable(locked, expired)
  {
    locked', stamps' := locked, stamps;
    var todo := expired;
    assert Reclaimable(locked, expired - todo) == {};
    assert locked - {} == locked && stamps - {} == stamps;
    while todo != {}
      invariant todo <= expired
      invariant locked' == locked - Reclaimable(locked, expired - todo)
      invariant stamps' == stamps - Reclaimable(locked, expired - todo)
      decreases |todo|
    {
      var s :| s in todo;
      assert expired - (todo - {s}) == (expired - todo) + {s};
      ReclaimStep(locked, stamps, expired - todo, s, locked', stamps');
      if s in locked' && !locked'[s] {
        locked' := locked' - {s};
        stamps' := stamps' - {s};
      }
      todo := todo - {s};
    }
    assert expired - todo == expired;
  }

  /** One pass of the deleting loop removes `s` exactly when it is reclaimable. */
  lemma ReclaimStep(locked: map<string, bool>, stamps: map<string, real>, done: set<string>, s: string,
                    locked': map<string, bool>, stamps': map<string, real>)
    requires s !in done
    requires locked' == locked - Reclaimable(locked, done) && stamps' == stamps - Reclaimable(locked, done)
    ensures (if s in locked' && !locked'[s] then locked' - {s} else locked') == locked - Reclaimable(locked, done + {s})
    ensures (if s in locked' && !locked'[s] then stamps' - {s} else stamps') == stamps - Reclaimable(locked, done + {s})
  {
    ReclaimOneMore(locked, done, s);
    MinusMore(locked, Reclaimable(locked, done), s);
    MinusMore(stamps, Reclaimable(locked, done), s);
  }

  lemma MinusMore<V>(m: map<string, V>, gone: set<string>, s: string)
    ensures (m - gone) - {s} == m - (gone + {s})
  {
  }

  lemma ReclaimOneMore(locked: map<string, bool>, done: set<string>, s: string)
    requires s !in done
    ensures Reclaimable(locked, done + {s}) == Reclaimable(locked, done) + (if s in locked && !locked[s] then {s} else {})
  {
  }

  class LockTable {
    /** `active_locks`: for each known selector, whether its lock is held. */
    var locked: map<string, bool>
    /** `lock_timestamps`: when each lock was last taken or released. */
    var stamps: map<string, real>
    var conflictCount: nat
    var fallback: bool
    /** Seconds between cleanups; 0 switches cleanup off. */
    const cleanupInterval: int
    var lastCleanup: real

    ghost predicate Valid()
      reads this
    {
      Consistent(locked, stamps)
    }

    constructor(cleanupInterval: int, now: real)
      ensures Valid()
      ensures locked == map[] && stamps == map[]
      ensures conflictCount == 0 && !fallback
      ensures this.cleanupInterval == cleanupInterval && lastCleanup == now
    {
      locked := map[];
      stamps := map[];
      conflictCount := 0;
      fallback := false;
      this.cleanupInterval := cleanupInterval;
      lastCleanup := now;
    }

    /**
     * One pass of the polling loop of `acquire_lock`, `elapsed` seconds after it
     * started: past the timeout the attempt fails and counts a conflict; otherwise a
     * free (or new) lock is taken and stamped; a held one means poll again (`None`).
     */
    method AcquireStep(selector: string, elapsed: real, timeout: real, now: real) returns (outcome: Option<bool>)
      requires Valid()
      modifies this
      ensures Valid()
      ensures elapsed >= timeout ==>
        && outcome == Some(false)
        && (conflictCount, fallback) == TimeoutStep(old(conflictCount), old(fallback))
        && locked == old(locked) && stamps == old(stamps)
      ensures elapsed < timeout ==>
        && conflictCount == old(conflictCount) && fallback == old(fallback)
        && (outcome == Some(true) <==> !(selector in old(locked) && old(locked)[selector]))
        && (outcome == None <==> selector in old(locked) && old(locked)[selector])
        && (outcome == Some(true) ==> locked == old(locked)[selector := true] && stamps == old(stamps)[selector := now])
        && (outcome == None ==> locked == old(locked) && stamps == old(stamps))
      ensures lastCleanup == old(lastCleanup)
    {
      if elapsed >= timeout {
        conflictCount, fallback := TimeoutStep(conflictCount, fallback).0, TimeoutStep(conflictCount, fallback).1;
        return Some(false);
      }
      if selector !in locked {
        locked := locked[selector := false];
      }
      if !locked[selector] {
        locked := locked[selector := true];
        stamps := stamps[selector := now];
        outcome := Some(true);
      } else {
        outcome := None;
      }
    }

    /** `release_lock`: frees and stamps a held lock; an unknown or free one is left alone. */
    method Release(selector: string, now: real)
      requires Valid()
      modifies this
      ensures Valid()
      ensures selector in old(locked) && old(locked)[selector] ==>
        locked == old(locked)[selector := false] && stamps == old(stamps)[selector := now]
      ensures !(selector in old(locked) && old(locked)[selector]) ==>
        locked == old(locked) && stamps == old(stamps)
      ensures conflictCount == old(conflictCount) && fallback == old(fallback) && lastCleanup == old(lastCleanup)
    {
      if selector in locked && locked[selector] {
        locked := locked[selector := false];
        stamps := stamps[selector := now];
      }
    }

    /**
     * `cleanup_old_locks`: unless cleanup is off or ran less than an interval ago,
     * delete every free lock idle for longer than the age limit, lock and timestamp
     * together, and note the time.
     */
    method Cleanup(maxAge: Option<int>, now: real)
      requires Valid()
      modifies this
      ensures Valid()
      ensures cleanupInterval == 0 || now - old(lastCleanup) < cleanupInterval as real ==>
        locked == old(locked) && stamps == old(stamps) && lastCleanup == old(lastCleanup)
      ensures cleanupInterval != 0 && now - old(lastCleanup) >= cleanupInterval as real ==>
        var gone := Reclaimable(old(locked), Expired(old(stamps), AgeLimit(maxAge, cleanupInterval), now));
        locked == old(locked) - gone && stamps == old(stamps) - gone && lastCleanup == now
      ensures forall s :: s in old(locked) && old(locked)[s] ==> s in locked && locked[s]
      ensures conflictCount == old(conflictCount) && fallback == old(fallback)
    {
      if cleanupInterval == 0 {
        return;
      }
      var ageLimit := AgeLimit(maxAge, cleanupInterval);
      if now - lastCleanup < cleanupInterval as real {
        return;
      }
      var expired := Expired(stamps, ageLimit, now);
      ReclaimKeepsHeld(locked, stamps, expired);
      locked, stamps := Reclaim(locked, stamps, expired);
      lastCleanup := now;
    }

    /** `should_fallback_to_sequential`. */
    function ShouldFallback(): (r: bool)
      reads this
      ensures r <==> fallback
    {
      fallback
    }

    /** `get_stats`: the conflict count, the number of held locks and the fallback flag. */
    function Stats(): (r: (nat, nat, bool))
      reads this
      ensures r.0 == conflictCount && r.2 == fallback
      ensures r.1 == |HeldSelectors(locked)| <= |locked.Keys|
      ensures r.1 == 0 <==> forall s :: s in locked ==> !locked[s]
    {
      HeldBounded(locked);
      var held: nat := |HeldSelectors(locked)|;
      (conflictCount, held, fallback)
    }
  }

  /** The selectors whose lock is held. */
  function HeldSelectors(locked: map<string, bool>): (r: set<string>)
    ensures forall s :: s in r <==> s in locked && locked[s]
  {
    set s | s in locked && locked[s]
  }

  lemma HeldBounded(locked: map<string, bool>)
    ensures |HeldSelectors(locked)| <= |locked.Keys|
    ensures |HeldSelectors(locked)| == 0 <==> forall s :: s in locked ==> !locked[s]
  {
    assert HeldSelectors(locked) <= locked.Keys;
    SubsetSize(HeldSelectors(locked), locked.Keys);
    if |HeldSelectors(locked)| != 0 {
      var s :| s in HeldSelectors(locked);
    }
  }

  lemma {:induction false} SubsetSize<T>(a: set<T>, b: set<T>)
    requires a <= b
    ensures |a| <= |b|
    decreases |b|
  {
    if a != {} {
      var x :| x in a;
      SubsetSize(a - {x}, b - {x});
    }
  }
}
