/** The database pool: buckets with shared atomic counters. Counters are tested and then
    incremented in two steps under the pool mutex; finished handlers decrement them at
    any moment, without the mutex. */
module DatabasePools {

  /** `is_full`: the count at which a bucket takes no more users. */
  const CAPACITY := 3

  /** The program point of the task that holds the pool mutex. `Free` means nobody does;
      only one of the two accept loops can be past `Lock`. */
  datatype Point =
    | Free
    | Scanning(next: nat)
    | Chosen(index: nat)
    | Creating

  /** Buckets are numbered in the order of their creation.
      - `rc`: the counter of each bucket.
      - `order`: the pool's vector.
      - `live`: the buckets of the live handlers, with multiplicity.
      - `atLock`: the counters when the mutex was last taken.
      - `peak`: the largest number of live handlers so far. */
  datatype Pool = Pool(
    rc: seq<int>, order: seq<nat>, live: multiset<nat>, point: Point, atLock: seq<int>, peak: nat)

  /** The atomic steps. */
  datatype Step =
    | Lock
    | Load
    | Increment
    | Sort(order: seq<nat>)
    | Push
    | Drop(bucket: nat)

  /** A pool starts with one bucket whose count is one although no handler holds it. */
  const INITIAL := Pool([1], [0], multiset{}, Free, [1], 0)

  predicate WellFormed(p: Pool) {
    |p.order| == |p.rc| && forall i | 0 <= i < |p.order| :: p.order[i] < |p.rc|
  }

  predicate Enabled(p: Pool, step: Step)
    requires WellFormed(p)
  {
    match step
    case Lock => p.point == Free
    case Load => p.point.Scanning? && p.point.next < |p.order|
    case Increment => p.point.Chosen? && p.point.index < |p.order|
    case Sort(order) => p.point == Scanning(|p.order|) && multiset(order) == multiset(p.order)
    case Push => p.point == Creating
    case Drop(bucket) => bucket in p.live && bucket < |p.rc|
  }

  function Next(p: Pool, step: Step): Pool
    requires WellFormed(p) && Enabled(p, step)
  {
    match step
    case Lock => p.(point := Scanning(0), atLock := p.rc)
    case Load =>
      if p.rc[p.order[p.point.next]] >= CAPACITY then p.(point := Scanning(p.point.next + 1))
      else p.(point := Chosen(p.point.next))
    case Increment => Join(p.(rc := Bump(p.rc, p.order[p.point.index], 1)), p.order[p.point.index])
    case Sort(order) => p.(order := order, point := Creating)
    case Push => Join(p.(rc := p.rc + [1], order := p.order + [|p.rc|]), |p.rc|)
    case Drop(bucket) => p.(rc := Bump(p.rc, bucket, -1), live := p.live - multiset{bucket})
  }

  function Bump(rc: seq<int>, bucket: nat, change: int): seq<int>
    requires bucket < |rc|
  {
    rc[bucket := rc[bucket] + change]
  }

  /** The accept loop gets its bucket and releases the mutex. */
  function Join(p: Pool, bucket: nat): Pool {
    var live := p.live + multiset{bucket};
    p.(live := live, point := Free, peak := if |live| > p.peak then |live| else p.peak)
  }

  /** `t` is reached from `s` by these steps. */
  ghost predicate Runs(s: Pool, steps: seq<Step>, t: Pool)
    decreases |steps|
  {
    if steps == [] then s == t
    else WellFormed(s) && Enabled(s, steps[0]) && Runs(Next(s, steps[0]), steps[1..], t)
  }

  ghost predicate Reaches(s: Pool, t: Pool) {
    exists steps :: Runs(s, steps, t)
  }

  // ---------- sums ----------

  function Sum(s: seq<int>): int {
    if s == [] then 0 else Sum(s[..|s| - 1]) + s[|s| - 1]
  }

  lemma {:induction false} SumOfCounts(s: seq<int>)
    requires forall i | 0 <= i < |s| :: 0 <= s[i] <= CAPACITY
    ensures 0 <= Sum(s) <= CAPACITY * |s|
  {
    if s != [] {
      SumOfCounts(s[..|s| - 1]);
    }
  }

  lemma {:induction false} SumOfFull(s: seq<int>)
    requires forall i | 0 <= i < |s| :: s[i] == CAPACITY
    ensures Sum(s) == CAPACITY * |s|
  {
    if s != [] {
      SumOfFull(s[..|s| - 1]);
    }
  }

  /** The counter each bucket should show. */
  function Expected(live: multiset<nat>, n: nat): seq<int> {
    seq(n, b requires 0 <= b < n => live[b] + if b == 0 then 1 else 0)
  }

  lemma {:induction false} SumExpected(live: multiset<nat>, n: nat)
    requires forall b | b in live :: b < n
    requires n >= 1
    ensures Sum(Expected(live, n)) == |live| + 1
  {
    var last := n - 1;
    assert Expected(live, n)[..last] == Expected(live, last);
    var others := live[last := 0];
    assert |others| == |live| - live[last];
    if last == 0 {
      assert others == multiset{} by {
        assert forall b :: b !in others;
      }
    } else {
      SumExpected(others, last);
      assert Expected(others, last) == Expected(live, last);
    }
  }

  // ---------- the invariant ----------

  /** - conservation: every counter is the number of live handlers of its bucket, plus one
        for the first bucket, and never exceeds the capacity;
      - the vector holds every bucket;
      - `peak` bounds the live handlers and, with one spare bucket, the pool. */
  ghost predicate Inv(p: Pool) {
    var n := |p.rc|;
    && WellFormed(p) && n >= 1
    && (forall b :: 0 <= b < n ==> b in p.order)
    && (forall b | b in p.live :: b < n)
    && p.rc == Expected(p.live, n)
    && (forall b | 0 <= b < n :: 0 <= p.rc[b] <= CAPACITY)
    && |p.live| <= p.peak
    && CAPACITY * (n - 1) <= p.peak + 1
    && PointInv(p)
  }

  /** While the mutex is held counters only fall, so a bucket seen full was full when it
      was taken; when all were, the live handlers filled the whole pool. */
  ghost predicate PointInv(p: Pool)
    requires WellFormed(p)
  {
    match p.point
    case Free => true
    case Scanning(next) =>
      next <= |p.order| && |p.atLock| == |p.rc| && Sum(p.atLock) <= p.peak + 1 &&
      (forall b | 0 <= b < |p.rc| :: p.rc[b] <= p.atLock[b] <= CAPACITY) &&
      (forall i | 0 <= i < next :: p.atLock[p.order[i]] == CAPACITY)
    case Chosen(index) => index < |p.order| && p.rc[p.order[index]] < CAPACITY
    case Creating => CAPACITY * |p.rc| <= p.peak + 1
  }

  lemma {:induction false} Conservation(p: Pool)
    requires Inv(p)
    ensures Sum(p.rc) == |p.live| + 1
  {
    SumExpected(p.live, |p.rc|);
  }

  lemma {:induction false} LockKeepsInv(p: Pool)
    requires Inv(p) && Enabled(p, Lock)
    ensures Inv(Next(p, Lock))
  {
    Conservation(p);
  }

  lemma {:induction false} IncrementKeepsInv(p: Pool)
    requires Inv(p) && Enabled(p, Increment)
    ensures Inv(Next(p, Increment))
  {
    var next := Next(p, Increment);
    assert next.rc == Expected(next.live, |next.rc|);
  }

  lemma {:induction false} SortKeepsInv(p: Pool, order: seq<nat>)
    requires Inv(p) && Enabled(p, Sort(order))
    ensures Inv(Next(p, Sort(order)))
  {
    SameElements(p.order, order);
    forall i | 0 <= i < |order| ensures order[i] < |p.rc| {
      assert order[i] in p.order;
    }
    forall b | 0 <= b < |p.rc| ensures p.atLock[b] == CAPACITY {
      assert b in p.order;
    }
    SumOfFull(p.atLock);
  }

  lemma {:induction false} SameElements(a: seq<nat>, b: seq<nat>)
    requires multiset(a) == multiset(b)
    ensures |a| == |b|
    ensures forall x :: x in a <==> x in b
  {
    assert |a| == |multiset(a)| == |multiset(b)| == |b|;
    forall x ensures x in a <==> x in b {
      assert x in a <==> x in multiset(a);
      assert x in b <==> x in multiset(b);
    }
  }

  lemma {:induction false} PushKeepsInv(p: Pool)
    requires Inv(p) && Enabled(p, Push)
    ensures Inv(Next(p, Push))
  {
    var next := Next(p, Push);
    assert p.live[|p.rc|] == 0;
    assert next.rc == Expected(next.live, |next.rc|);
    forall b | 0 <= b < |next.rc| ensures b in next.order {
      if b < |p.rc| {
        assert b in p.order;
      } else {
        assert next.order[|p.order|] == b;
      }
    }
  }

  /** No counter underflows: a live handler's bucket counts at least that handler. */
  lemma {:induction false} DropKeepsInv(p: Pool, bucket: nat)
    requires Inv(p) && Enabled(p, Drop(bucket))
    ensures Inv(Next(p, Drop(bucket)))
    ensures p.rc[bucket] >= 1
  {
    var next := Next(p, Drop(bucket));
    assert p.live[bucket] >= 1;
    assert |next.live| == |p.live| - 1;
    assert next.rc == Expected(next.live, |next.rc|);
  }

  lemma {:induction false} StepKeepsInv(p: Pool, step: Step)
    requires Inv(p) && Enabled(p, step)
    ensures Inv(Next(p, step))
  {
    match step
    case Lock => LockKeepsInv(p);
    case Load =>
    case Increment => IncrementKeepsInv(p);
    case Sort(order) => SortKeepsInv(p, order);
    case Push => PushKeepsInv(p);
    case Drop(bucket) => DropKeepsInv(p, bucket);
  }

  lemma {:induction false} RunKeepsInv(s: Pool, steps: seq<Step>, t: Pool)
    requires Inv(s) && Runs(s, steps, t)
    ensures Inv(t)
    decreases |steps|
  {
    if steps != [] {
      StepKeepsInv(s, steps[0]);
      RunKeepsInv(Next(s, steps[0]), steps[1..], t);
    }
  }

  lemma {:induction false} InitialInv()
    ensures Inv(INITIAL)
  {
    assert INITIAL.rc == Expected(INITIAL.live, 1);
    assert 0 in [0];
  }

  /** Safety of the pool in every state of every interleaving: counters stay within
      0..3 and add up to the live handlers and one, and the number of buckets is bounded
      on both sides by the live handlers now and at their peak. */
  lemma {:induction false} EveryReachablePool(p: Pool)
    requires Reaches(INITIAL, p)
    ensures forall b | 0 <= b < |p.rc| :: 0 <= p.rc[b] <= CAPACITY
    ensures forall b | b in p.live :: b < |p.rc| && p.rc[b] >= p.live[b] >= 1
    ensures Sum(p.rc) == |p.live| + 1
    ensures |p.live| + 1 <= CAPACITY * |p.rc|
    ensures |p.rc| <= (p.peak + 1) / CAPACITY + 1
  {
    var steps :| Runs(INITIAL, steps, p);
    InitialInv();
    RunKeepsInv(INITIAL, steps, p);
    Conservation(p);
    SumOfCounts(p.rc);
  }

  /** A bucket is opened only when all were full at the moment the mutex was taken. */
  lemma {:induction false} OpensOnlyWhenAllWereFull(p: Pool, order: seq<nat>)
    requires Reaches(INITIAL, p) && WellFormed(p) && Enabled(p, Sort(order))
    ensures |p.atLock| == |p.rc| && forall b | 0 <= b < |p.rc| :: p.atLock[b] == CAPACITY
  {
    var steps :| Runs(INITIAL, steps, p);
    InitialInv();
    RunKeepsInv(INITIAL, steps, p);
    forall b | 0 <= b < |p.rc| ensures p.atLock[b] == CAPACITY {
      assert b in p.order;
    }
  }

  // ---------- composing runs ----------

  lemma {:induction false} RunsConcat(s: Pool, a: seq<Step>, t: Pool, b: seq<Step>, u: Pool)
    requires Runs(s, a, t) && Runs(t, b, u)
    ensures Runs(s, a + b, u)
    decreases |a|
  {
    if a == [] {
      assert a + b == b;
    } else {
      assert (a + b)[1..] == a[1..] + b;
      RunsConcat(Next(s, a[0]), a[1..], t, b, u);
    }
  }

  lemma {:induction false} ReachesStep(s: Pool, t: Pool, step: Step)
    requires Reaches(s, t) && Inv(t) && Enabled(t, step)
    ensures Reaches(s, Next(t, step)) && Inv(Next(t, step))
  {
    var steps :| Runs(s, steps, t);
    var u := Next(t, step);
    assert [step][1..] == [];
    assert Runs(u, [step][1..], u);
    assert Runs(t, [step], u);
    RunsConcat(s, steps, t, [step], u);
    StepKeepsInv(t, step);
  }

  lemma {:induction false} ReachesSelf(s: Pool)
    ensures Reaches(s, s)
  {
    assert Runs(s, [], s);
  }

  // ---------- the objects ----------

  /** The pool and the counters its buckets share with the handlers. Between any two
      atomic operations other tasks may run. */
  class DatabasePool {
    /** The counter behind each bucket, by creation number. */
    var counters: seq<int>
    var buckets: seq<nat>
    ghost var live: multiset<nat>
    ghost var point: Point
    ghost var atLock: seq<int>
    ghost var peak: nat

    ghost function View(): Pool
      reads this
    {
      Pool(counters, buckets, live, point, atLock, peak)
    }

    ghost predicate Valid()
      reads this
    {
      Inv(View())
    }

    constructor ()
      ensures View() == INITIAL && Valid()
    {
      counters, buckets := [1], [0];
      live, point, atLock, peak := multiset{}, Free, [1], 0;
      new;
      InitialInv();
    }

    ghost method Perform(step: Step)
      requires Valid() && Enabled(View(), step)
      modifies this`live, this`point, this`atLock, this`peak
      ensures var next := Next(old(View()), step);
              live == next.live && point == next.point && atLock == next.atLock && peak == next.peak
    {
      var next := Next(View(), step);
      live, point, atLock, peak := next.live, next.point, next.atLock, next.peak;
    }

    /** A handler goes away: `decrement_rc`. */
    method DecrementRc(bucket: nat)
      requires Valid() && bucket in live
      modifies this
      ensures Valid() && View() == Next(old(View()), Drop(bucket))
    {
      StepKeepsInv(View(), Drop(bucket));
      Perform(Drop(bucket));
      counters := counters[bucket := counters[bucket] - 1];
    }

    /** Any number of handlers may finish here. */
    method OtherTasks(ghost origin: Pool)
      requires Valid() && Reaches(origin, View())
      modifies this
      ensures Valid() && Reaches(origin, View())
      ensures point == old(point) && buckets == old(buckets) && peak == old(peak) && |counters| == |old(counters)|
    {
      while *
        invariant Valid() && Reaches(origin, View())
        invariant point == old(point) && buckets == old(buckets) && peak == old(peak) && |counters| == |old(counters)|
        decreases |live|
      {
        var bucket: nat :| true;
        if !(bucket < |counters| && counters[bucket] > if bucket == 0 then 1 else 0) {
          break;
        }
        assert bucket in live;
        ReachesStep(origin, View(), Drop(bucket));
        DecrementRc(bucket);
      }
    }

    /** The vector sorted by counters that other tasks change meanwhile: some permutation. */
    method SortByCount() returns (sorted: seq<nat>)
      requires Valid()
      ensures multiset(sorted) == multiset(buckets)
    {
      sorted := [];
      for i := 0 to |buckets|
        invariant multiset(sorted) == multiset(buckets[..i])
      {
        var bucket := buckets[i];
        var k: nat :| k <= |sorted|;
        assert buckets[..i + 1] == buckets[..i] + [bucket];
        assert sorted == sorted[..k] + sorted[k..];
        sorted := sorted[..k] + [bucket] + sorted[k..];
      }
      assert buckets[..|buckets|] == buckets;
    }

    /** The test: one atomic load. */
    method IsFull(i: nat, ghost origin: Pool) returns (full: bool)
      requires Valid() && Reaches(origin, View()) && point == Scanning(i) && i < |buckets|
      modifies this
      ensures Valid() && Reaches(origin, View())
      ensures buckets == old(buckets) && counters == old(counters)
      ensures full == (counters[buckets[i]] >= CAPACITY) && point == if full then Scanning(i + 1) else Chosen(i)
    {
      full := counters[buckets[i]] >= CAPACITY;
      ReachesStep(origin, View(), Load);
      Perform(Load);
    }

    /** The increment: one atomic addition. */
    method CloneIncrementRc(i: nat, ghost origin: Pool)
      requires Valid() && Reaches(origin, View()) && point == Chosen(i) && i < |buckets|
      modifies this
      ensures Valid() && Reaches(origin, View()) && point == Free && buckets == old(buckets)
      ensures counters == Bump(old(counters), buckets[i], 1) && live == old(live) + multiset{buckets[i]}
    {
      ReachesStep(origin, View(), Increment);
      ghost var next := Next(View(), Increment);
      Perform(Increment);
      counters := Bump(counters, buckets[i], 1);
      assert View() == next;
    }

    /** One bucket of the scan: handlers may finish before the test and before the
        increment. */
    method TryBucket(i: nat, ghost origin: Pool) returns (taken: bool)
      requires Valid() && Reaches(origin, View()) && point == Scanning(i) && i < |buckets|
      modifies this
      ensures Valid() && Reaches(origin, View()) && buckets == old(buckets) && |counters| == |old(counters)|
      ensures point == if taken then Free else Scanning(i + 1)
      ensures taken ==> buckets[i] in live
    {
      OtherTasks(origin);
      var isFull := IsFull(i, origin);
      if isFull {
        return false;
      }
      OtherTasks(origin);
      CloneIncrementRc(i, origin);
      return true;
    }

    method OpenBucket(ghost origin: Pool) returns (bucket: nat)
      requires Valid() && Reaches(origin, View()) && point == Scanning(|buckets|)
      modifies this
      ensures Valid() && Reaches(origin, View()) && point == Free
      ensures bucket == |old(counters)| == |counters| - 1 && bucket in live
    {
      OtherTasks(origin);
      var sorted := SortByCount();
      ReachesStep(origin, View(), Sort(sorted));
      Perform(Sort(sorted));
      buckets := sorted;
      OtherTasks(origin);
      bucket := |counters|;
      ReachesStep(origin, View(), Push);
      ghost var next := Next(View(), Push);
      Perform(Push);
      counters, buckets := counters + [1], buckets + [bucket];
      assert View() == next;
    }

    /** Every run of the scan, with handlers finishing at any point of it, is a sequence of
        atomic steps of the pool; the bucket handed out is one the caller now holds. */
    method GetAvailableBucket() returns (bucket: nat)
      requires Valid() && point == Free
      modifies this
      ensures Valid() && point == Free
      ensures Reaches(old(View()), View())
      ensures bucket in live && bucket < |counters| && 1 <= counters[bucket] <= CAPACITY
      ensures |counters| == |old(counters)| || (|counters| == |old(counters)| + 1 && bucket == |old(counters)|)
    {
      ghost var origin := View();
      ReachesSelf(origin);
      ReachesStep(origin, View(), Lock);
      Perform(Lock);
      for i := 0 to |buckets|
        invariant Valid() && Reaches(origin, View())
        invariant point == Scanning(i) && buckets == old(buckets) && |counters| == |old(counters)|
      {
        var taken := TryBucket(i, origin);
        if taken {
          return buckets[i];
        }
      }
      bucket := OpenBucket(origin);
    }
  }
}
