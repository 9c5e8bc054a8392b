/**
 One job queue: a binary heap of waiting jobs, the map of reserved jobs, and the capped dead-letter list.

 Jobs are shared, mutable objects that also remember their heap position. `Valid` says that every ID ever issued
 is in exactly one place and that the heap is ordered and indexed; every operation keeps it.
 */
module JobQueue {
  import opened Options

  class Job {
    const id: nat
    const priority: int
    const idempKey: string
    var attempts: nat
    var lastError: string
    var deadline: Option<int>
    var idx: int

    constructor (id: nat, priority: int, idempKey: string)
      ensures this.id == id && this.priority == priority && this.idempKey == idempKey
      ensures attempts == 0
    {
      this.id, this.priority, this.idempKey := id, priority, idempKey;
      attempts, lastError, deadline, idx := 0, "", None, 0;
    }
  }

  /** The generator of IDs, shared by all queues. */
  class IdGen {
    var last: nat

    method Add() returns (id: nat)
      modifies this
      ensures id == last == old(last) + 1
    {
      last := last + 1;
      id := last;
    }
  }

  // ----- heaps of jobs

  /** Higher priority first; ties go to the lower ID. */
  predicate Before(a: Job, b: Job) {
    a.priority > b.priority || (a.priority == b.priority && a.id < b.id)
  }

  lemma BeforeMeans()
    ensures forall a, b :: Before(a, b) <==> a.priority > b.priority || (a.priority == b.priority && a.id < b.id)
  {
  }

  function Parent(k: nat): (p: nat)
    requires k > 0
    ensures p < k
  {
    (k - 1) / 2
  }

  predicate InOrder(h: seq<Job>, k: nat)
    requires 0 < k < |h|
  {
    !Before(h[k], h[Parent(k)])
  }

  ghost predicate Ordered(h: seq<Job>) { forall k :: 0 < k < |h| ==> InOrder(h, k) }

  ghost predicate DistinctIds(h: seq<Job>) { forall i, j :: 0 <= i < j < |h| ==> h[i].id != h[j].id }

  ghost function Jobs(h: seq<Job>): set<Job> { set x | x in h }

  ghost function Ids(h: seq<Job>): set<nat> { set x | x in Jobs(h) :: x.id }

  function Swapped(h: seq<Job>, i: nat, j: nat): (r: seq<Job>)
    requires i < |h| && j < |h|
    ensures |r| == |h|
  {
    h[i := h[j]][j := h[i]]
  }

  lemma SwapKeepsJobs(h: seq<Job>, i: nat, j: nat)
    requires i < |h| && j < |h|
    ensures Jobs(Swapped(h, i, j)) == Jobs(h)
    ensures DistinctIds(h) ==> DistinctIds(Swapped(h, i, j))
  {
    var r := Swapped(h, i, j);
    forall x | x in h ensures x in r {
      var k :| 0 <= k < |h| && h[k] == x;
      assert r[if k == i then j else if k == j then i else k] == x;
    }
    forall x | x in r ensures x in h {
      var k :| 0 <= k < |r| && r[k] == x;
      assert h[if k == i then j else if k == j then i else k] == x;
    }
  }

  lemma SwapKeepsTail(h: seq<Job>, i: nat, j: nat, n: nat)
    requires i < n <= |h| && j < n
    ensures Swapped(h, i, j)[n..] == h[n..]
  {
  }

  /** The root of an ordered heap comes before every other job. */
  lemma {:induction false} RootIsFirst(h: seq<Job>, k: nat)
    requires Ordered(h) && DistinctIds(h) && 0 < k < |h|
    ensures Before(h[0], h[k])
    decreases k
  {
    assert InOrder(h, k);
    if Parent(k) == 0 {
    } else {
      RootIsFirst(h, Parent(k));
    }
  }

  /** Ordered except that the job at `hole` may have to move up. */
  ghost predicate OrderedUp(h: seq<Job>, hole: nat) {
    && (forall k :: 0 < k < |h| && k != hole ==> InOrder(h, k))
    && (forall k :: 0 < hole < k < |h| && Parent(k) == hole ==> !Before(h[k], h[Parent(hole)]))
  }

  lemma UpStep(h: seq<Job>, j: nat)
    requires 0 < j < |h| && OrderedUp(h, j) && Before(h[j], h[Parent(j)])
    ensures OrderedUp(Swapped(h, Parent(j), j), Parent(j))
  {
    var i, r := Parent(j), Swapped(h, Parent(j), j);
    forall k | 0 < k < |r| && k != i ensures InOrder(r, k) {
      if k != j {
        assert InOrder(h, k);
      }
    }
    forall k | 0 < i < k < |r| && Parent(k) == i ensures !Before(r[k], r[Parent(i)]) {
      assert InOrder(h, i);
      if k != j {
        assert InOrder(h, k);
      }
    }
  }

  /** The first n jobs are ordered except that the job at `hole` may have to move down. */
  ghost predicate OrderedDown(h: seq<Job>, hole: nat, n: nat)
    requires n <= |h|
  {
    && (forall k :: 0 < k < n && Parent(k) != hole ==> InOrder(h, k))
    && (forall k :: 0 < hole < k < n && Parent(k) == hole ==> !Before(h[k], h[Parent(hole)]))
  }

  /** j is a child of i that no other child comes before. */
  ghost predicate FirstChild(h: seq<Job>, i: nat, j: nat, n: nat)
    requires n <= |h|
  {
    i < j < n && Parent(j) == i && forall k :: 0 < k < n && Parent(k) == i ==> !Before(h[k], h[j])
  }

  lemma PickChild(h: seq<Job>, i: nat, n: nat)
    requires 2 * i + 1 < n <= |h|
    ensures forall j: nat {:trigger FirstChild(h, i, j, n)} :: FirstChild(h, i, j, n) ==> i < j < n
    ensures FirstChild(h, i, if 2 * i + 2 < n && Before(h[2 * i + 2], h[2 * i + 1]) then 2 * i + 2 else 2 * i + 1, n)
  {
    ChildrenOf(i);
  }

  lemma DownStep(h: seq<Job>, i: nat, j: nat, n: nat)
    requires n <= |h| && OrderedDown(h, i, n) && FirstChild(h, i, j, n) && Before(h[j], h[i])
    ensures OrderedDown(Swapped(h, i, j), j, n)
  {
    var r := Swapped(h, i, j);
    forall k | 0 < k < n && Parent(k) != j ensures InOrder(r, k) {
      if k != i && k != j && Parent(k) != i {
        assert InOrder(h, k);
      }
    }
    forall k | 0 < j < k < n && Parent(k) == j ensures !Before(r[k], r[Parent(j)]) {
      assert InOrder(h, k);
    }
  }

  /** The hole has no children, or none that comes before it: the first n jobs are in order. */
  lemma DownDone(h: seq<Job>, i: nat, n: nat)
    requires n <= |h| && OrderedDown(h, i, n)
    requires 2 * i + 1 >= n || exists j: nat :: FirstChild(h, i, j, n) && !Before(h[j], h[i])
    ensures forall k :: 0 < k < n ==> InOrder(h, k)
  {
    ChildrenOf(i);
    forall k | 0 < k < n ensures InOrder(h, k) {
      if Parent(k) == i {
        var j: nat :| FirstChild(h, i, j, n) && !Before(h[j], h[i]);
      }
    }
  }

  lemma RootSwappedOut(h: seq<Job>)
    requires h != [] && Ordered(h)
    ensures OrderedDown(Swapped(h, 0, |h| - 1), 0, |h| - 1)
  {
    var r := Swapped(h, 0, |h| - 1);
    forall k | 0 < k < |h| - 1 && Parent(k) != 0 ensures InOrder(r, k) {
      assert InOrder(h, k);
    }
  }

  lemma ChildrenOf(i: nat)
    ensures forall k {:trigger Parent(k)} :: 0 < k && Parent(k) == i <==> k == 2 * i + 1 || k == 2 * i + 2
  {
  }

  lemma OrderedPrefix(h: seq<Job>, g: seq<Job>, n: nat)
    requires n <= |h| && n <= |g| && forall k :: 0 <= k < n ==> h[k] == g[k]
    ensures forall k :: 0 < k < n ==> InOrder(h, k) == InOrder(g, k)
  {
  }

  /** No two of these jobs carry the same idempotency key. */
  ghost predicate UniqueKeys(jobs: set<Job>) {
    forall a, b :: a in jobs && b in jobs && a.idempKey == b.idempKey != "" ==> a == b
  }

  lemma UniqueKeysShrink(jobs: set<Job>, fewer: set<Job>)
    requires UniqueKeys(jobs) && fewer <= jobs
    ensures UniqueKeys(fewer)
  {
  }

  lemma HeadReservable(h: seq<Job>)
    requires h != []
    ensures h[0] in Jobs(h) && h[0].id in Ids(h)
  {
  }

  /** Adding a job keeps the keys unique exactly when its key is empty or not yet taken. */
  lemma UniqueKeysGrow(jobs: set<Job>, job: Job)
    requires UniqueKeys(jobs) && job !in jobs
    ensures UniqueKeys(jobs + {job}) <==> (job.idempKey == "" || forall x :: x in jobs ==> x.idempKey != job.idempKey)
  {
  }

  // ----- where the issued IDs are

  /** The five places cover the issued IDs and do not overlap. */
  ghost predicate ExactlyOnce(
    issued: set<nat>, waiting: set<nat>, reserved: set<nat>, dead: set<nat>, acked: set<nat>, trimmed: set<nat>)
  {
    && issued == waiting + reserved + dead + acked + trimmed
    && waiting !! reserved !! dead !! acked !! trimmed
  }

  lemma Issue(i: set<nat>, w: set<nat>, r: set<nat>, d: set<nat>, k: set<nat>, t: set<nat>, x: nat)
    requires ExactlyOnce(i, w, r, d, k, t) && x !in i
    ensures ExactlyOnce(i + {x}, w + {x}, r, d, k, t) && x !in w
  {
  }

  lemma Reserve(i: set<nat>, w: set<nat>, r: set<nat>, d: set<nat>, k: set<nat>, t: set<nat>, x: nat)
    requires ExactlyOnce(i, w, r, d, k, t) && x in w
    ensures ExactlyOnce(i, w - {x}, r + {x}, d, k, t) && x !in r
  {
  }

  lemma GiveBack(i: set<nat>, w: set<nat>, r: set<nat>, d: set<nat>, k: set<nat>, t: set<nat>, x: nat)
    requires ExactlyOnce(i, w, r, d, k, t) && x in r
    ensures ExactlyOnce(i, w + {x}, r - {x}, d, k, t) && x !in w && x !in d
    ensures ExactlyOnce(i, w, r - {x}, d, k + {x}, t)
  {
  }

  lemma Bury(i: set<nat>, w: set<nat>, r: set<nat>, d: set<nat>, k: set<nat>, t: set<nat>, x: nat,
             dead: set<nat>, cut: set<nat>)
    requires ExactlyOnce(i, w, r, d, k, t) && x in r
    requires dead !! cut && dead + cut == d + {x}
    ensures ExactlyOnce(i, w, r - {x}, dead, k, t + cut)
  {
  }

  lemma Revive(i: set<nat>, w: set<nat>, r: set<nat>, d: set<nat>, k: set<nat>, t: set<nat>, x: nat)
    requires ExactlyOnce(i, w, r, d, k, t) && x in d
    ensures ExactlyOnce(i, w + {x}, r, d - {x}, k, t) && x !in w && x !in r
  {
  }

  lemma AddedJob(h: seq<Job>, g: seq<Job>, job: Job)
    requires Jobs(g) == Jobs(h) + {job}
    ensures Ids(g) == Ids(h) + {job.id}
  {
  }

  lemma RemovedJob(h: seq<Job>, g: seq<Job>, job: Job)
    requires Jobs(g) + {job} == Jobs(h) && job !in Jobs(g) && DistinctIds(h)
    ensures Ids(g) == Ids(h) - {job.id}
  {
    assert forall x :: x in Jobs(g) ==> x.id != job.id;
  }

  lemma JobsSplit(a: seq<Job>, b: seq<Job>)
    ensures Jobs(a + b) == Jobs(a) + Jobs(b) && Ids(a + b) == Ids(a) + Ids(b)
  {
  }

  lemma AppendedJob(d: seq<Job>, job: Job)
    requires DistinctIds(d) && job.id !in Ids(d)
    ensures DistinctIds(d + [job]) && Jobs(d + [job]) == Jobs(d) + {job} && Ids(d + [job]) == Ids(d) + {job.id}
  {
    JobsSplit(d, [job]);
    assert Jobs([job]) == {job};
    forall i | 0 <= i < |d| ensures d[i].id != job.id {
      assert d[i] in Jobs(d);
    }
  }

  /** The list splits into what is cut off its front and its newest part. */
  lemma TrimmedIds(all: seq<Job>, cap: nat)
    requires DistinctIds(all)
    ensures var cut := all[..|all| - |Newest(all, cap)|];
            && DistinctIds(Newest(all, cap)) && Jobs(Newest(all, cap)) <= Jobs(all)
            && Ids(cut) !! Ids(Newest(all, cap)) && Ids(cut) + Ids(Newest(all, cap)) == Ids(all)
  {
    var kept := Newest(all, cap);
    var cut := all[..|all| - |kept|];
    assert all == cut + kept;
    JobsSplit(cut, kept);
    PartsDiffer(cut, kept);
  }

  lemma PartsDiffer(a: seq<Job>, b: seq<Job>)
    requires DistinctIds(a + b)
    ensures DistinctIds(b) && Ids(a) !! Ids(b)
  {
    forall i, j | 0 <= i < |a| && 0 <= j < |b| ensures a[i].id != b[j].id {
      assert (a + b)[i] == a[i] && (a + b)[|a| + j] == b[j];
    }
    forall i, j | 0 <= i < j < |b| ensures b[i].id != b[j].id {
      assert (a + b)[|a| + i] == b[i] && (a + b)[|a| + j] == b[j];
    }
  }

  /**
   `dead` lists the jobs among those gone that had used up their attempts, in the order they were dead-lettered, and
   the list is what that made of it. `spent` says whose attempts are used up.
   */
  ghost predicate DeadListed(
    was: map<nat, Job>, spent: set<nat>, gone: set<nat>, start: seq<Job>, dead: seq<Job>, dlq: seq<Job>, cap: nat)
  {
    && DistinctIds(dead) && (forall id :: id in gone ==> id in was)
    && (forall x :: x in dead ==> x.id in gone && x.id in spent && was[x.id] == x)
    && (forall id :: id in gone && id in spent ==> was[id] in dead)
    && dlq == if dead == [] then start else Newest(start + dead, cap)
  }

  lemma DeadStep(
    was: map<nat, Job>, spent: set<nat>, gone: set<nat>, start: seq<Job>, dead: seq<Job>, dlq: seq<Job>, cap: nat,
    id: nat)
    requires DeadListed(was, spent, gone, start, dead, dlq, cap) && cap > 0
    requires id in was && was[id].id == id && id !in gone
    ensures DeadListed(
      was, spent, gone + {id}, start, if id in spent then dead + [was[id]] else dead,
      if id in spent then Newest(dlq + [was[id]], cap) else dlq, cap)
  {
    hide Newest;
    NewestTwice(start, dead, was[id], cap);
    assert forall k :: 0 <= k < |dead| ==> dead[k] in dead;
  }

  lemma DeadAre(
    was: map<nat, Job>, spent: set<nat>, gone: set<nat>, start: seq<Job>, dead: seq<Job>, dlq: seq<Job>, cap: nat)
    requires DeadListed(was, spent, gone, start, dead, dlq, cap) && forall k :: k in was ==> was[k].id == k
    ensures DistinctIds(dead) && dlq == if dead == [] then start else Newest(start + dead, cap)
    ensures forall x :: x in dead <==> x.id in gone && x.id in spent && was[x.id] == x
  {
  }

  lemma NoneDead(was: map<nat, Job>, spent: set<nat>, dlq: seq<Job>, cap: nat)
    ensures DeadListed(was, spent, {}, dlq, [], dlq, cap)
  {
  }

  /** Trimming now and again later leaves what trimming at the end would. */
  lemma NewestTwice(start: seq<Job>, dead: seq<Job>, job: Job, cap: nat)
    requires cap > 0
    ensures Newest((if dead == [] then start else Newest(start + dead, cap)) + [job], cap)
      == Newest(start + (dead + [job]), cap)
  {
    hide Newest;
    assert start + (dead + [job]) == (start + dead) + [job];
    NewestAgain(start + dead, job, cap);
    assert dead == [] ==> start + dead == start;
  }

  lemma NewestAgain(all: seq<Job>, job: Job, cap: nat)
    requires cap > 0
    ensures Newest(Newest(all, cap) + [job], cap) == Newest(all + [job], cap)
  {
    if |all| > cap {
      var cut := |all| - cap;
      assert (all[cut..] + [job])[1..] == (all + [job])[cut + 1..];
    }
  }

  /** The last cap elements of a list. */
  function Newest(all: seq<Job>, cap: nat): seq<Job> {
    if |all| > cap then all[|all| - cap..] else all
  }

  /** What is dead-lettered last is kept, and before it as many as the cap allows, in order. */
  lemma NewestKeeps(all: seq<Job>, job: Job, cap: nat) returns (cut: seq<Job>)
    requires cap > 0
    ensures all + [job] == cut + Newest(all + [job], cap)
    ensures 0 < |Newest(all + [job], cap)| <= cap && (cut == [] || |Newest(all + [job], cap)| == cap)
  {
    var kept := Newest(all + [job], cap);
    cut := (all + [job])[..|all| + 1 - |kept|];
    assert all + [job] == cut + kept;
  }

  lemma ValuesAdded(m: map<nat, Job>, id: nat, job: Job)
    requires id !in m
    ensures m[id := job].Values == m.Values + {job} && m[id := job].Keys == m.Keys + {id}
  {
    var g := m[id := job];
    assert g[id] == job;
    forall x | x in m.Values ensures x in g.Values {
      var k :| k in m && m[k] == x;
      assert g[k] == x;
    }
  }

  lemma ValuesRemoved(m: map<nat, Job>, id: nat)
    requires id in m && forall k :: k in m ==> m[k].id == k
    ensures (m - {id}).Values == m.Values - {m[id]} && (m - {id}).Keys == m.Keys - {id}
  {
    var g := m - {id};
    forall x | x in m.Values - {m[id]} ensures x in g.Values {
      var k :| k in m && m[k] == x;
      assert k in g && g[k] == x;
    }
    forall x | x in g.Values ensures x in m.Values - {m[id]} {
      var k :| k in g && g[k] == x;
      assert m[k] == x && m[k].id == k;
    }
  }

  // ----- the queue

  class Queue {
    var heap: seq<Job>
    var pend: map<nat, Job>
    var dlq: seq<Job>
    var cap: nat
    var maxAtt: nat
    ghost var issued: set<nat>
    ghost var acked: set<nat>
    ghost var trimmed: set<nat>

    constructor ()
      ensures Valid() && AttemptsBounded() && KeysUnique()
      ensures issued == {} && heap == [] && pend == map[] && dlq == [] && cap == 1000 && maxAtt == 5
    {
      heap, pend, dlq, cap, maxAtt := [], map[], [], 1000, 5;
      issued, acked, trimmed := {}, {}, {};
    }

    /** Every job knows its own position in the heap. */
    ghost predicate Indexed()
      reads this, heap
    {
      forall i :: 0 <= i < |heap| ==> heap[i].idx == i
    }

    /** Every issued ID is waiting, reserved, dead-lettered, acknowledged or trimmed, and only one of these. */
    ghost predicate Partitioned()
      reads this
    {
      && ExactlyOnce(issued, Ids(heap), pend.Keys, Ids(dlq), acked, trimmed)
      && DistinctIds(heap) && DistinctIds(dlq)
      && (forall id :: id in pend ==> pend[id].id == id)
    }

    ghost predicate Valid()
      reads this, heap
    {
      Ordered(heap) && Indexed() && Partitioned() && cap > 0 && maxAtt > 0
    }

    /** Waiting jobs have an attempt left, and no job has used more than maxAtt. */
    ghost predicate AttemptsBounded()
      reads this, Jobs(heap), pend.Values, Jobs(dlq)
    {
      && (forall x :: x in Jobs(heap) ==> x.attempts < maxAtt)
      && (forall x :: x in pend.Values ==> x.attempts <= maxAtt)
      && (forall x :: x in Jobs(dlq) ==> x.attempts <= maxAtt)
    }

    /** The jobs an idempotency key protects: waiting or reserved. */
    ghost function LiveJobs(): set<Job>
      reads this
    {
      Jobs(heap) + pend.Values
    }

    ghost predicate KeysUnique()
      reads this
    {
      UniqueKeys(LiveJobs())
    }

    method Swap(i: nat, j: nat)
      requires i < |heap| && j < |heap| && DistinctIds(heap) && Indexed()
      modifies this`heap, Jobs(heap)`idx
      ensures heap == Swapped(old(heap), i, j) && Indexed()
    {
      heap := heap[i := heap[j]][j := heap[i]];
      heap[i].idx := i;
      heap[j].idx := j;
    }

    /** Move the job at position start up until it is in order. */
    method Up(start: nat)
      requires start < |heap| && DistinctIds(heap) && Indexed() && OrderedUp(heap, start)
      modifies this`heap, Jobs(heap)`idx
      ensures Ordered(heap) && Indexed() && DistinctIds(heap) && Jobs(heap) == old(Jobs(heap))
      ensures |heap| == old(|heap|)
    {
      var j := start;
      while true
        invariant 0 <= j < |heap| == old(|heap|) && DistinctIds(heap) && Indexed() && OrderedUp(heap, j)
        invariant Jobs(heap) == old(Jobs(heap))
        decreases j
      {
        var i := if j == 0 then 0 else (j - 1) / 2;
        if i == j || !Before(heap[j], heap[i]) {
          break;
        }
        UpStep(heap, j);
        SwapKeepsJobs(heap, i, j);
        Swap(i, j);
        j := i;
      }
    }

    /** Move the job at the root down within the first n jobs. */
    method Down(n: nat)
      requires n <= |heap| && DistinctIds(heap) && Indexed() && OrderedDown(heap, 0, n)
      modifies this`heap, Jobs(heap)`idx
      ensures |heap| == old(|heap|) && heap[n..] == old(heap[n..])
      ensures forall k :: 0 < k < n ==> InOrder(heap, k)
      ensures Indexed() && DistinctIds(heap) && Jobs(heap) == old(Jobs(heap))
    {
      hide Before, InOrder, Swapped, FirstChild;
      var i := 0;
      while true
        invariant 0 <= i && n <= |heap| == old(|heap|) && DistinctIds(heap) && Indexed()
        invariant OrderedDown(heap, i, n) && (i < n || n == 0)
        invariant Jobs(heap) == old(Jobs(heap)) && heap[n..] == old(heap[n..])
        decreases n - i

      {
        var j1 := 2 * i + 1;
        if j1 >= n {
          break;
        }
        var j := j1;
        var j2 := j1 + 1;
        if j2 < n && Before(heap[j2], heap[j1]) {
          j := j2;
        }
        PickChild(heap, i, n);
        if !Before(heap[j], heap[i]) {
          break;
        }
        DownStep(heap, i, j, n);
        SwapKeepsJobs(heap, i, j);
        SwapKeepsTail(heap, i, j, n);
        Swap(i, j);
        i := j;
      }
      DownDone(heap, i, n);
    }

    /** Add a job to the heap. */
    method HeapPush(job: Job)
      requires Ordered(heap) && Indexed() && DistinctIds(heap) && job.id !in Ids(heap)
      modifies this`heap, Jobs(heap)`idx, job`idx
      ensures Ordered(heap) && Indexed() && DistinctIds(heap)
      ensures Jobs(heap) == old(Jobs(heap)) + {job} && Ids(heap) == old(Ids(heap)) + {job.id}
    {
      ghost var before := heap;
      heap := heap + [job];
      job.idx := |heap| - 1;
      assert Jobs(heap) == Jobs(before) + {job};
      OrderedPrefix(before, heap, |before|);
      Up(|heap| - 1);
      AddedJob(before, heap, job);
    }

    /** Remove the first job of the heap. */
    method HeapPop() returns (job: Job)
      requires heap != [] && Ordered(heap) && Indexed() && DistinctIds(heap)
      modifies this`heap, Jobs(heap)`idx
      ensures Ordered(heap) && Indexed() && DistinctIds(heap)
      ensures job == old(heap[0]) && job !in Jobs(heap) && Jobs(heap) == old(Jobs(heap)) - {job}
      ensures Ids(heap) == old(Ids(heap)) - {job.id}
    {
      ghost var before := heap;
      var n := |heap| - 1;
      SwapKeepsJobs(heap, 0, n);
      RootSwappedOut(before);
      Swap(0, n);
      Down(n);
      ghost var full := heap;
      job := heap[n];
      assert heap[n..][0] == job;
      heap := heap[..n];
      OrderedPrefix(full, heap, n);
      assert Jobs(full) == Jobs(heap) + {job};
      RemovedJob(before, heap, job);
    }

    /** A waiting or reserved job with this idempotency key. */
    method FindLive(key: string) returns (found: Job?)
      requires key != ""
      ensures found != null ==> found in LiveJobs() && found.idempKey == key
      ensures found == null ==> forall x :: x in LiveJobs() ==> x.idempKey != key
    {
      for i := 0 to |heap|
        invariant forall k :: 0 <= k < i ==> heap[k].idempKey != key
      {
        if heap[i].idempKey == key {
          return heap[i];
        }
      }
      var todo := pend.Keys;
      while todo != {}
        invariant todo <= pend.Keys
        invariant forall id :: id in pend && id !in todo ==> pend[id].idempKey != key
        decreases |todo|
      {
        var id :| id in todo;
        todo := todo - {id};
        if pend[id].idempKey == key {
          return pend[id];
        }
      }
      return null;
    }

    /** Add a job, unless a live one carries the same idempotency key; returns the ID of the one or the other. */
    method Enqueue(gen: IdGen, priority: int, idempKey: string) returns (id: nat, ghost job: Job)
      requires Valid() && forall x :: x in issued ==> x <= gen.last
      modifies this`heap, this`issued, Jobs(heap)`idx, gen
      ensures Valid() && job.id == id && job in LiveJobs() && job.idempKey == idempKey
      ensures forall x :: x in issued ==> x <= gen.last
      ensures (idempKey != "" && exists x :: x in old(LiveJobs()) && x.idempKey == idempKey) ==>
                job in old(LiveJobs()) && heap == old(heap) && issued == old(issued)
      ensures !(idempKey != "" && exists x :: x in old(LiveJobs()) && x.idempKey == idempKey) ==>
                && fresh(job) && job.attempts == 0 && job.priority == priority
                && (forall x :: x in old(issued) ==> x < id)
                && Jobs(heap) == old(Jobs(heap)) + {job} && issued == old(issued) + {id}
      ensures old(KeysUnique()) ==> KeysUnique()
      ensures old(AttemptsBounded()) ==> AttemptsBounded()
    {
      hide Partitioned, Ordered, InOrder, UniqueKeys;
      if idempKey != "" {
        var found := FindLive(idempKey);
        if found != null {
          return found.id, found;
        }
      }
      var j := Submit(gen, priority, idempKey);
      assert LiveJobs() == old(LiveJobs()) + {j};
      if old(KeysUnique()) {
        UniqueKeysGrow(old(LiveJobs()), j);
      }
      return j.id, j;
    }

    /** Issue an ID for a new job and put it on the heap. */
    method Submit(gen: IdGen, priority: int, idempKey: string) returns (job: Job)
      requires Valid() && forall x :: x in issued ==> x <= gen.last
      modifies this`heap, this`issued, Jobs(heap)`idx, gen
      ensures Valid() && forall x :: x in issued ==> x <= gen.last
      ensures fresh(job) && job.attempts == 0 && job.priority == priority && job.idempKey == idempKey
      ensures (forall x :: x in old(issued) ==> x < job.id) && issued == old(issued) + {job.id}
      ensures Jobs(heap) == old(Jobs(heap)) + {job}
    {
      hide ExactlyOnce, Ids, Ordered, InOrder, DistinctIds;
      var id := gen.Add();
      job := new Job(id, priority, idempKey);
      Issue(issued, Ids(heap), pend.Keys, Ids(dlq), acked, trimmed, id);
      HeapPush(job);
      issued := issued + {id};
    }

    /** The job next in line, if there is one. */
    ghost function First(): set<Job>
      reads this
    {
      if heap == [] then {} else {heap[0]}
    }

    /** Claim the first waiting job for a visibility period. */
    method Dequeue(now: int, visibility: int) returns (job: Job?)
      requires Valid()
      modifies this`heap, this`pend, Jobs(heap)`idx, First()`attempts, First()`deadline
      ensures Valid()
      ensures old(heap) == [] <==> job == null
      ensures job == null ==> heap == old(heap) && pend == old(pend)
      ensures job != null ==>
                && job == old(heap[0]) && job in old(Jobs(heap))
                && (forall x :: x in old(Jobs(heap)) && x != job ==>
                      job.priority > x.priority || (job.priority == x.priority && job.id < x.id))
                && Jobs(heap) == old(Jobs(heap)) - {job} && pend == old(pend)[job.id := job]
                && job.attempts == old(job.attempts) + 1
                && job.deadline == Some(now + if visibility <= 0 then 30_000 else visibility)
                && (forall x :: x in Jobs(heap) ==> x.attempts == old(x.attempts))
      ensures old(KeysUnique()) ==> KeysUnique()
      ensures old(AttemptsBounded()) ==> AttemptsBounded()
    {
      hide Partitioned, Ordered, InOrder, UniqueKeys, Before;
      if heap == [] {
        return null;
      }
      job := Claim();
      BeforeMeans();
      job.attempts := job.attempts + 1;
      job.deadline := Some(now + if visibility <= 0 then 30_000 else visibility);
    }

    /** Move the first job of the heap into the reservations. */
    method Claim() returns (job: Job)
      requires Valid() && heap != []
      modifies this`heap, this`pend, Jobs(heap)`idx
      ensures Valid() && LiveJobs() == old(LiveJobs())
      ensures job == old(heap[0]) && job in old(Jobs(heap))
      ensures forall x :: x in old(Jobs(heap)) && x != job ==> Before(job, x)
      ensures Jobs(heap) == old(Jobs(heap)) - {job} && pend == old(pend)[job.id := job]
      ensures pend.Values == old(pend.Values) + {job}
    {
      hide ExactlyOnce, Ids, InOrder, Before;
      HeadReservable(heap);
      forall x | x in Jobs(heap) && x != heap[0] ensures Before(heap[0], x) {
        var k :| 0 <= k < |heap| && heap[k] == x;
        RootIsFirst(heap, k);
      }
      Reserve(issued, Ids(heap), pend.Keys, Ids(dlq), acked, trimmed, heap[0].id);
      job := HeapPop();
      ValuesAdded(pend, job.id, job);
      pend := pend[job.id := job];
    }

    /** Complete a reserved job. */
    method Ack(id: nat) returns (ok: bool)
      requires Valid()
      modifies this`pend, this`acked
      ensures Valid() && (ok <==> id in old(pend)) && pend == old(pend) - {id}
      ensures acked == if ok then old(acked) + {id} else old(acked)
      ensures old(KeysUnique()) ==> KeysUnique()
      ensures old(AttemptsBounded()) ==> AttemptsBounded()
    {
      if id !in pend {
        assert pend - {id} == pend;
        return false;
      }
      GiveBack(issued, Ids(heap), pend.Keys, Ids(dlq), acked, trimmed, id);
      ValuesRemoved(pend, id);
      pend := pend - {id};
      acked := acked + {id};
      return true;
    }

    /** Append a job to the dead-letter list; what exceeds the cap falls off its front. */
    method DeadLetter(job: Job) returns (ghost cut: set<nat>)
      requires DistinctIds(dlq) && job.id !in Ids(dlq)
      modifies this`dlq, this`trimmed
      ensures dlq == Newest(old(dlq) + [job], cap) && trimmed == old(trimmed) + cut
      ensures DistinctIds(dlq) && Jobs(dlq) <= old(Jobs(dlq)) + {job}
      ensures Ids(dlq) !! cut && Ids(dlq) + cut == old(Ids(dlq)) + {job.id}
    {
      hide Ids, Jobs, DistinctIds;
      AppendedJob(dlq, job);
      TrimmedIds(dlq + [job], cap);
      dlq := dlq + [job];
      cut := Ids(dlq[..|dlq| - |Newest(dlq, cap)|]);
      trimmed := trimmed + cut;
      if |dlq| > cap {
        dlq := dlq[|dlq| - cap..];
      }
    }

    /** Take a job out of the reservations: dead-letter it when its attempts are used up, else requeue it. */
    method Settle(id: nat) returns (dead: bool)
      requires Valid() && id in pend
      modifies this`heap, this`pend, this`dlq, this`trimmed, Jobs(heap)`idx, {pend[id]}`idx
      ensures Valid() && pend == old(pend) - {id} && LiveJobs() <= old(LiveJobs())
      ensures dead <==> old(pend[id]).attempts >= maxAtt
      ensures dead ==> dlq == Newest(old(dlq) + [old(pend[id])], cap) && heap == old(heap)
      ensures !dead ==> Jobs(heap) == old(Jobs(heap)) + {old(pend[id])} && dlq == old(dlq) && trimmed == old(trimmed)
      ensures Ids(dlq) + trimmed == old(Ids(dlq)) + old(trimmed) + (if dead then {id} else {})
      ensures pend.Values == old(pend.Values) - {old(pend[id])}
      ensures old(AttemptsBounded()) ==> AttemptsBounded()
    {
      hide ExactlyOnce, Ids, Ordered, InOrder, DistinctIds, Newest;
      var job := pend[id];
      ghost var was := pend.Keys;
      GiveBack(issued, Ids(heap), was, Ids(dlq), acked, trimmed, id);
      ValuesRemoved(pend, id);
      pend := pend - {id};
      if job.attempts >= maxAtt {
        ghost var d, t := Ids(dlq), trimmed;
        ghost var cut := DeadLetter(job);
        Bury(issued, Ids(heap), was, d, acked, t, id, Ids(dlq), cut);
        return true;
      }
      HeapPush(job);
      return false;
    }

    /** Give a reserved job back after a failure; a positive delay keeps it reserved until then. */
    method Nack(id: nat, errMsg: string, delay: int, now: int) returns (requeued: bool, dead: bool)
      requires Valid()
      modifies this`heap, this`pend, this`dlq, this`trimmed, Jobs(heap)`idx
      modifies (if id in pend then {pend[id]} else {})
      ensures Valid()
      ensures id !in old(pend) ==>
                !requeued && !dead && heap == old(heap) && pend == old(pend) && dlq == old(dlq)
      ensures id in old(pend) ==>
                var job := old(pend[id]);
                && (dead <==> job.attempts >= maxAtt) && (requeued <==> !dead) && job.lastError == errMsg
                && job.attempts == old(job.attempts) && (dead || delay <= 0 ==> job.deadline == old(job.deadline))
                && (dead ==> pend == old(pend) - {id} && dlq == Newest(old(dlq) + [job], cap) && heap == old(heap))
                && (requeued && delay > 0 ==>
                      pend == old(pend) && job.deadline == Some(now + delay) && heap == old(heap))
                && (requeued && delay <= 0 ==> pend == old(pend) - {id} && Jobs(heap) == old(Jobs(heap)) + {job})
                && (requeued ==> dlq == old(dlq) && trimmed == old(trimmed))
      ensures old(KeysUnique()) ==> KeysUnique()
      ensures old(AttemptsBounded()) ==> AttemptsBounded()
    {
      hide Partitioned, Ordered, InOrder, UniqueKeys, Newest;
      if id !in pend {
        return false, false;
      }
      var job := pend[id];
      job.lastError := errMsg;
      if job.attempts < maxAtt && delay > 0 {
        job.deadline := Some(now + delay);
        return true, false;
      }
      dead := Settle(id);
      requeued := !dead;
      if old(KeysUnique()) {
        UniqueKeysShrink(old(LiveJobs()), LiveJobs());
      }
    }

    /** The dead-lettered job with that id, if there is one. */
    ghost function Dead(id: nat): set<Job>
      reads this
    {
      set x | x in Jobs(dlq) && x.id == id
    }

    /** Move a dead-lettered job back to the heap with a fresh set of attempts. */
    method Requeue(id: nat) returns (ok: bool, ghost moved: Job?)
      requires Valid()
      modifies this`heap, this`dlq, Jobs(heap)`idx, Dead(id)`idx, Dead(id)`attempts, Dead(id)`lastError
      ensures Valid() && (ok <==> id in old(Ids(dlq)))
      ensures !ok ==> heap == old(heap) && dlq == old(dlq)
      ensures ok ==>
                && moved != null && moved in old(Jobs(dlq)) && moved.id == id && moved.attempts == 0
                && moved.lastError == ""
                && Jobs(heap) == old(Jobs(heap)) + {moved} && Jobs(dlq) == old(Jobs(dlq)) - {moved}
      ensures ok ==> exists i :: 0 <= i < old(|dlq|) && old(dlq[i]) == moved && dlq == old(dlq[..i] + dlq[i + 1..])
      ensures ok && old(KeysUnique()) ==>
                (KeysUnique() <==>
                   moved.idempKey == "" || forall x :: x in old(LiveJobs()) ==> x.idempKey != moved.idempKey)
      ensures !ok ==> KeysUnique() == old(KeysUnique())
      ensures old(AttemptsBounded()) ==> AttemptsBounded()
    {
      hide ExactlyOnce, Ordered, InOrder, UniqueKeys;
      var i := 0;
      while i < |dlq|
        invariant 0 <= i <= |dlq| && forall k :: 0 <= k < i ==> dlq[k].id != id
      {
        if dlq[i].id == id {
          var job := dlq[i];
          ghost var live := LiveJobs();
          CutOut(dlq, i);
          Revive(issued, Ids(heap), pend.Keys, Ids(dlq), acked, trimmed, id);
          dlq := dlq[..i] + dlq[i + 1..];
          job.attempts := 0;
          job.lastError := "";
          HeapPush(job);
          assert LiveJobs() == live + {job};
          if old(KeysUnique()) {
            UniqueKeysGrow(live, job);
          }
          return true, job;
        }
        i := i + 1;
      }
      return false, null;
    }

    /** Change the limits; a value that is not positive leaves the limit alone. */
    method Configure(maxAttempts: int, dlqCap: int)
      requires Valid()
      modifies this`maxAtt, this`cap
      ensures Valid()
      ensures maxAtt == if maxAttempts > 0 then maxAttempts else old(maxAtt)
      ensures cap == if dlqCap > 0 then dlqCap else old(cap)
      ensures old(KeysUnique()) ==> KeysUnique()
      ensures old(AttemptsBounded()) && old(maxAtt) <= maxAtt ==> AttemptsBounded()
    {
      if maxAttempts > 0 {
        maxAtt := maxAttempts;
      }
      if dlqCap > 0 {
        cap := dlqCap;
      }
    }

    /** The reservations that have run out. */
    ghost function Expired(now: int): set<nat>
      reads this, pend.Values
    {
      set id | id in pend && pend[id].deadline.Some? && now > pend[id].deadline.value
    }

    ghost function ExpiredJobs(now: int): set<Job>
      reads this, pend.Values
    {
      set x | x in pend.Values && x.deadline.Some? && now > x.deadline.value
    }

    /** When the reservations end. */
    ghost function Deadlines(): map<nat, Option<int>>
      reads this, pend.Values
    {
      map id | id in pend :: pend[id].deadline
    }

    /** Only jobs that were settled and wait again have lost their deadline. */
    ghost predicate DueKept(was: map<nat, Job>, due: map<nat, Option<int>>, gone: set<nat>)
      reads this, was.Values
    {
      forall id :: id in was && (id !in gone || was[id].attempts >= maxAtt) ==>
        id in due && was[id].deadline == due[id]
    }

    /** Exactly these have used up their attempts. */
    ghost predicate Spent(was: map<nat, Job>, spent: set<nat>)
      reads this, was.Values
    {
      forall id :: id in was ==> (id in spent <==> was[id].attempts >= maxAtt)
    }

    /** Exactly the reservations outside `gone` are still there; the others went where their attempts say. */
    ghost predicate Settled(was: map<nat, Job>, gone: set<nat>)
      reads this, was.Values
    {
      && (forall id :: id in pend ==> id in was && pend[id] == was[id] && id !in gone)
      && (forall id :: id in was && id !in gone ==> id in pend)
      && (forall id :: id in was && id in gone && was[id].attempts < maxAtt ==>
            was[id] in Jobs(heap) && was[id].deadline == None)
      && (forall id :: id in was && id in gone && was[id].attempts >= maxAtt ==> id in Ids(dlq) + trimmed)
    }

    lemma ReservedById()
      requires Valid()
      ensures forall k :: k in pend ==> pend[k].id == k
    {
    }

    lemma LimitsArePositive()
      requires Valid()
      ensures cap > 0
    {
    }

    lemma WhoIsSpent(spent: set<nat>)
      requires forall id :: id in spent <==> id in pend && pend[id].attempts >= maxAtt
      ensures Spent(pend, spent)
    {
    }

    lemma SpentAre(was: map<nat, Job>, spent: set<nat>)
      requires Spent(was, spent)
      ensures forall id :: id in was ==> (id in spent <==> was[id].attempts >= maxAtt)
    {
    }

    lemma NoneSettled()
      ensures Settled(pend, {}) && DueKept(pend, Deadlines(), {})
    {
    }

    lemma StillPending(was: map<nat, Job>, gone: set<nat>, id: nat)
      requires Settled(was, gone) && id in was && id !in gone
      ensures id in pend && pend[id] == was[id]
    {
    }

    /** Settle one reservation; a requeued job loses its deadline. */
    method SettleExpired(id: nat, ghost was: map<nat, Job>, ghost gone: set<nat>)
      requires Valid() && id in pend && Settled(was, gone)
      modifies this`heap, this`pend, this`dlq, this`trimmed, Jobs(heap)`idx, {pend[id]}`idx, {pend[id]}`deadline
      ensures Valid() && pend == old(pend) - {id} && pend.Values == old(pend.Values) - {old(pend[id])}
      ensures Settled(was, gone + {id})
      ensures dlq == if old(pend[id]).attempts >= maxAtt then Newest(old(dlq) + [old(pend[id])], cap) else old(dlq)
      ensures old(pend[id]).attempts >= maxAtt ==> old(pend[id]).deadline == old(pend[id].deadline)
      ensures old(Jobs(heap)) <= Jobs(heap) <= old(Jobs(heap)) + {old(pend[id])}
      ensures old(AttemptsBounded()) ==> AttemptsBounded()
    {
      hide Partitioned, Ordered, LiveJobs, Jobs, Ids, Newest;
      var job := pend[id];
      var dead := Settle(id);
      if !dead {
        job.deadline := None;
      }
    }

    /** One expired reservation; the deadlines of all others stay. */
    method SweepOne(
      id: nat, ghost was: map<nat, Job>, ghost due: map<nat, Option<int>>, ghost spent: set<nat>, ghost gone: set<nat>)
      requires Valid() && id in pend && id in was && was[id] == pend[id] && id !in gone && Spent(was, spent)
      requires Settled(was, gone) && DueKept(was, due, gone) && forall k :: k in was ==> was[k].id == k
      modifies this`heap, this`pend, this`dlq, this`trimmed, Jobs(heap)`idx, {pend[id]}`idx, {pend[id]}`deadline
      ensures Valid() && pend == old(pend) - {id} && pend.Values == old(pend.Values) - {was[id]} && Spent(was, spent)
      ensures Settled(was, gone + {id}) && DueKept(was, due, gone + {id})
      ensures dlq == if id in spent then Newest(old(dlq) + [was[id]], cap) else old(dlq)
      ensures cap == old(cap)
      ensures old(Jobs(heap)) <= Jobs(heap) <= old(Jobs(heap)) + {was[id]}
      ensures old(AttemptsBounded()) ==> AttemptsBounded()
    {
      hide Valid, Settled, AttemptsBounded, Newest;
      SettleExpired(id, was, gone);
      forall k | k in was && (k !in gone + {id} || was[k].attempts >= maxAtt)
        ensures k in due && was[k].deadline == due[k]
      {
        assert k != id ==> was[k] != was[id];
      }
    }

    /**
     Settle every reservation whose deadline is in the past, in any order: those with attempts left wait again without
     a deadline, the others are dead; all other reservations stay as they are.
     */
    method Sweep(now: int) returns (ghost dead: seq<Job>)
      requires Valid()
      modifies this`heap, this`pend, this`dlq, this`trimmed, Jobs(heap)`idx
      modifies ExpiredJobs(now)`idx, ExpiredJobs(now)`deadline
      ensures Valid() && forall id :: id in pend ==> id in old(pend) && pend[id] == old(pend[id])
      ensures forall id :: id in old(pend) ==>
                var job, due := old(pend[id]), old(pend[id].deadline);
                if due.None? || now <= due.value then id in pend && job.deadline == due
                else
                  && id !in pend
                  && if job.attempts < maxAtt then job in Jobs(heap) && job.deadline == None else job in dead
      ensures forall x :: x in dead ==> x in old(pend.Values) && x.attempts >= maxAtt && x.id !in pend
      ensures DistinctIds(dead) && dlq == if dead == [] then old(dlq) else Newest(old(dlq) + dead, cap)
      ensures old(Jobs(heap)) <= Jobs(heap) && LiveJobs() <= old(LiveJobs())
      ensures old(KeysUnique()) ==> KeysUnique()
      ensures old(AttemptsBounded()) ==> AttemptsBounded()
    {
      hide Valid, AttemptsBounded, UniqueKeys, DistinctIds, Newest, Jobs;
      ReservedById();
      dead := SettleAll(now);
    }

    method SettleAll(now: int) returns (ghost dead: seq<Job>)
      requires Valid()
      modifies this`heap, this`pend, this`dlq, this`trimmed, Jobs(heap)`idx
      modifies ExpiredJobs(now)`idx, ExpiredJobs(now)`deadline
      ensures Valid() && Settled(old(pend), old(Expired(now)))
      ensures DueKept(old(pend), old(Deadlines()), old(Expired(now)))
      ensures DistinctIds(dead)
      ensures forall x :: x in dead <==> x in old(ExpiredJobs(now)) && x.attempts >= maxAtt
      ensures dlq == if dead == [] then old(dlq) else Newest(old(dlq) + dead, cap)
      ensures old(Jobs(heap)) <= Jobs(heap) && LiveJobs() <= old(LiveJobs())
      ensures old(KeysUnique()) ==> KeysUnique()
      ensures old(AttemptsBounded()) ==> AttemptsBounded()
    {
      hide Valid, AttemptsBounded, UniqueKeys, Settled, DueKept, DeadListed, DistinctIds, Newest, Jobs, Spent;
      var expired := set id | id in pend && pend[id].deadline.Some? && now > pend[id].deadline.value;
      dead := [];
      ghost var was, due, gone, late, start := pend, Deadlines(), {}, ExpiredJobs(now), dlq;
      ghost var all, waiting, bounded, limit: nat := Expired(now), Jobs(heap), AttemptsBounded(), cap;
      assert all == expired && forall id :: id in all ==> id in was && was[id] in late;
      ghost var spent := set id | id in was && was[id].attempts >= maxAtt;
      WhoIsSpent(spent);
      NoneDead(was, spent, dlq, cap);
      LimitsArePositive();
      ReservedById();
      NoneSettled();
      while expired != {}
        invariant Valid() && Settled(was, gone) && DueKept(was, due, gone) && Spent(was, spent) && cap == limit
        invariant forall id :: id in expired ==> id !in gone
        invariant forall id :: id in all <==> id in gone || id in expired
        invariant pend.Values <= was.Values && forall x :: x in waiting ==> x in Jobs(heap)
        invariant forall x :: x in Jobs(heap) ==> x in waiting || x in late
        invariant bounded ==> AttemptsBounded()
        invariant DeadListed(was, spent, gone, start, dead, dlq, limit)
        decreases |expired|
      {
        var id :| id in expired;
        StillPending(was, gone, id);
        assert id in all && was[id] in late;
        ghost var listed, queued := dlq, Jobs(heap);
        SweepOne(id, was, due, spent, gone);
        assert forall x :: x in Jobs(heap) ==> x in queued || x == was[id];
        DeadStep(was, spent, gone, start, dead, listed, limit, id);
        dead := if id in spent then dead + [was[id]] else dead;
        expired := expired - {id};
        gone := gone + {id};
      }
      assert gone == all;
      SpentAre(was, spent);
      DeadAre(was, spent, gone, start, dead, dlq, cap);
      if old(KeysUnique()) {
        UniqueKeysShrink(old(LiveJobs()), LiveJobs());
      }
    }
  }

  /** Cutting element i out of a list of distinct jobs. */
  lemma CutOut(d: seq<Job>, i: nat)
    requires i < |d| && DistinctIds(d)
    ensures var r := d[..i] + d[i + 1..];
            DistinctIds(r) && Jobs(r) == Jobs(d) - {d[i]} && Ids(r) == Ids(d) - {d[i].id} && d[i].id in Ids(d)
  {
    CutOutJobs(d, i);
    CutOutDistinct(d, i);
    RemovedJob(d, d[..i] + d[i + 1..], d[i]);
  }

  lemma CutOutJobs(d: seq<Job>, i: nat)
    requires i < |d|
    ensures forall x :: x in Jobs(d) <==> x in Jobs(d[..i] + d[i + 1..]) || x == d[i]
  {
    assert d == d[..i] + [d[i]] + d[i + 1..];
  }

  lemma CutOutDistinct(d: seq<Job>, i: nat)
    requires i < |d| && DistinctIds(d)
    ensures DistinctIds(d[..i] + d[i + 1..]) && d[i].id in Ids(d)
    ensures forall x :: x in Jobs(d[..i] + d[i + 1..]) ==> x.id != d[i].id
  {
    var r := d[..i] + d[i + 1..];
    assert d[i] in Jobs(d);
    forall x | x in Jobs(r) ensures x.id != d[i].id {
      var k :| 0 <= k < |r| && r[k] == x;
      assert d[if k < i then k else k + 1] == x;
    }
  }

  /** Jobs taken in a row come out with priorities never rising, and ids rising among equal ones. */
  method TakeInARow(q: Queue, n: nat, now: int, visibility: int) returns (out: seq<Job>)
    requires q.Valid()
    modifies q`heap, q`pend, Jobs(q.heap)
    ensures q.Valid() && |out| <= n && Jobs(out) + Jobs(q.heap) == old(Jobs(q.heap))
    ensures |out| < n ==> q.heap == []
    ensures forall i, j :: 0 <= i < j < |out| ==>
      out[i].priority > out[j].priority || (out[i].priority == out[j].priority && out[i].id < out[j].id)
  {
    hide ExactlyOnce, Ordered, InOrder, UniqueKeys, Queue.Partitioned, Queue.Indexed, Before, Queue.Valid;
    out := [];
    while |out| < n
      invariant q.Valid() && |out| <= n && Jobs(out) + Jobs(q.heap) == old(Jobs(q.heap))
      invariant forall i, x :: 0 <= i < |out| && x in q.heap ==>
        out[i].priority > x.priority || (out[i].priority == x.priority && out[i].id < x.id)
      invariant forall i, j :: 0 <= i < j < |out| ==>
        out[i].priority > out[j].priority || (out[i].priority == out[j].priority && out[i].id < out[j].id)
    {
      ghost var waiting := q.heap;
      var job := q.Dequeue(now, visibility);
      if job == null {
        return;
      }
      forall x | x in q.heap ensures x in waiting && x != job {
        assert x in Jobs(q.heap);
      }
      JobsSplit(out, [job]);
      out := out + [job];
    }
  }

  /** A queue whose only job has failed for good. */
  method OneDeadLetter(gen: IdGen) returns (q: Queue, id: nat, ghost job: Job)
    modifies gen
    ensures fresh(q) && fresh(job) && q.Valid() && q.KeysUnique() && q.dlq == [job] && q.LiveJobs() == {}
    ensures job.id == id && job.idempKey == "key" && forall x :: x in q.issued ==> x <= gen.last
  {
    hide ExactlyOnce, Ordered, InOrder, UniqueKeys, Queue.Partitioned, Queue.Indexed;
    q := new Queue();
    q.Configure(1, 0);
    id, job := q.Enqueue(gen, 0, "key");
    assert Jobs(q.heap) == {job};
    assert q.First() <= Jobs(q.heap);
    var reserved := q.Dequeue(0, 0);
    assert reserved == job && q.pend == map[id := job] && Jobs(q.heap) == {};
    var requeued, dead := q.Nack(id, "failed", 0, 0);
    assert q.pend == map[] && [] + [job] == [job];
  }

  /** A dead letter that is requeued after its key was used again makes two live jobs share the key. */
  method RequeueDuplicatesKey(gen: IdGen) returns (q: Queue)
    modifies gen
    ensures fresh(q) && q.Valid() && !q.KeysUnique()
  {
    hide ExactlyOnce, Ordered, InOrder, UniqueKeys, Queue.Partitioned, Queue.Indexed;
    var id;
    ghost var first, second, moved;
    q, id, first := OneDeadLetter(gen);
    var id2;
    id2, second := q.Enqueue(gen, 0, "key");
    assert second in q.LiveJobs() && first in Jobs(q.dlq);
    var ok;
    ok, moved := q.Requeue(id);
  }
}
