/**
 * The per-filename lock table of a storage node: a lock is created the first
 * time a name is touched and then kept for the life of the process.  A lock
 * is identified by the order of its creation.
 */
module Locks {

  type LockId = nat

  /** The table, and how many locks have been created so far (the next fresh identity). */
  datatype Table = Table(locks: map<string, LockId>, created: nat)

  /** Every lock in the table was created, and no two names share one. */
  ghost predicate Valid(t: Table) {
    && (forall name | name in t.locks :: t.locks[name] < t.created)
    && (forall a, b | a in t.locks && b in t.locks && a != b :: t.locks[a] != t.locks[b])
  }

  const Empty: Table := Table(map[], 0)

  lemma EmptyValid()
    ensures Valid(Empty)
  {
  }

  /**
   * `get_lock(name)`: the lock already held for `name`, or a fresh one that
   * is recorded first.  The table only grows, and other names keep their locks.
   */
  function Acquire(t: Table, name: string): (r: (Table, LockId))
    ensures name in r.0.locks && r.1 == r.0.locks[name]
    ensures r.0.locks.Keys == t.locks.Keys + {name}
    ensures forall other | other in t.locks :: r.0.locks[other] == t.locks[other]
    ensures name in t.locks ==> r.0 == t
    ensures Valid(t) ==> Valid(r.0)
    ensures Valid(t) && name !in t.locks ==> r.1 !in t.locks.Values
  {
    if name in t.locks then (t, t.locks[name])
    else (Table(t.locks[name := t.created], t.created + 1), t.created)
  }

  /** Asking again for the same name hands back the same lock and changes nothing. */
  lemma AcquireIdempotent(t: Table, name: string)
    ensures var (t1, l1) := Acquire(t, name); Acquire(t1, name) == (t1, l1)
  {
  }

  /** Two names touched one after the other never end up with the same lock. */
  lemma DistinctNamesDistinctLocks(t: Table, a: string, b: string)
    requires Valid(t) && a != b
    ensures var (t1, la) := Acquire(t, a); var (t2, lb) := Acquire(t1, b); la != lb && t2.locks[a] == la
  {
  }
}
