/**
 A circuit breaker: a ring of recent outcomes decides when to trip, and a timed automaton decides who may call.

 Two refinements meet in the class at the end. Its ring array holds the last outcomes recorded while closed, as a
 plain list would; and each of its methods takes steps of the automaton defined here, for which the run-level
 theorems (cool-down, probe limit, what closing needs) are proved by induction over arbitrary runs.
 */
module Breaker {
  import opened Clocks

  datatype Config = Config(threshold: real, windowSize: int, minSamples: int, cooldown: int, halfOpenMax: int)

  predicate Usable(c: Config) {
    0.0 < c.threshold <= 1.0 && c.windowSize > 0 && c.minSamples > 0 && c.cooldown > 0 && c.halfOpenMax > 0
  }

  // ----- the automaton

  datatype Phase = Shut | Tripped(since: int) | Probing(admitted: int, passed: nat)

  datatype Event =
    | Ripen(at: int)                         // the cool-down is over: probing begins
    | Admit(at: int)                         // a caller is let through
    | Deny(at: int)                          // a caller is turned away
    | Report(ok: bool, trips: bool, at: int) // an outcome is recorded; trips if it opens the breaker
    | Trip(at: int)                          // an operator opens the breaker

  predicate Enabled(p: Phase, e: Event, c: Config) {
    && (e.Ripen? ==> p.Tripped? && e.at - p.since >= c.cooldown)
    && (e.Admit? ==> p.Shut? || (p.Probing? && p.admitted < c.halfOpenMax))
    && (e.Deny? ==>
         (p.Tripped? && e.at - p.since < c.cooldown) || (p.Probing? && p.admitted >= c.halfOpenMax))
    && (e.Report? ==> (p.Tripped? ==> !e.trips) && (p.Probing? ==> e.trips == !e.ok))
  }

  function Next(p: Phase, e: Event, c: Config): Phase {
    if Opens(e) then Tripped(e.at)
    else if e.Ripen? then Probing(0, 0)
    else if !p.Probing? then p
    else if e.Admit? then Probing(p.admitted + 1, p.passed)
    else if !e.Report? then p
    else if p.passed + 1 >= c.halfOpenMax then Shut
    else Probing(p.admitted, p.passed + 1)
  }

  /** The phase after the first k events. */
  function After(start: Phase, log: seq<Event>, k: nat, c: Config): Phase
    requires k <= |log|
  {
    if k == 0 then start else Next(After(start, log, k - 1, c), log[k - 1], c)
  }

  ghost predicate Run(start: Phase, log: seq<Event>, c: Config) {
    && (forall k :: 0 <= k < |log| ==> Enabled(After(start, log, k, c), log[k], c))
    && (forall i, j :: 0 <= i < j < |log| ==> log[i].at <= log[j].at)
  }

  predicate Opens(e: Event) {
    e.Trip? || (e.Report? && e.trips)
  }

  lemma {:induction false} AfterPrefix(start: Phase, a: seq<Event>, b: seq<Event>, k: nat, c: Config)
    requires k <= |a|
    ensures After(start, a + b, k, c) == After(start, a, k, c)
  {
    if k == 0 {
    } else {
      AfterPrefix(start, a, b, k - 1, c);
    }
  }

  lemma AfterNext(start: Phase, log: seq<Event>, k: nat, c: Config)
    requires k < |log|
    ensures After(start, log, k + 1, c) == Next(After(start, log, k, c), log[k], c)
  {
    hide Next;
  }

  lemma RunExtends(start: Phase, log: seq<Event>, e: Event, c: Config)
    requires Run(start, log, c) && Enabled(After(start, log, |log|, c), e, c)
    requires forall i :: 0 <= i < |log| ==> log[i].at <= e.at
    ensures Run(start, log + [e], c)
    ensures After(start, log + [e], |log| + 1, c) == Next(After(start, log, |log|, c), e, c)
  {
    hide Next, Enabled, After;
    AfterNext(start, log + [e], |log|, c);
    forall k | 0 <= k <= |log| ensures After(start, log + [e], k, c) == After(start, log, k, c) {
      AfterPrefix(start, log, [e], k, c);
    }
    assert (log + [e])[|log|] == e;
  }

  lemma StepTaken(start: Phase, log: seq<Event>, k: nat, c: Config)
    requires Run(start, log, c) && k < |log|
    ensures Enabled(After(start, log, k, c), log[k], c)
    ensures After(start, log, k + 1, c) == Next(After(start, log, k, c), log[k], c)
  {
    hide Enabled, Next;
  }

  lemma InOrder(start: Phase, log: seq<Event>, i: nat, j: nat, c: Config)
    requires Run(start, log, c) && i <= j < |log|
    ensures log[i].at <= log[j].at
  {
    hide Enabled, Next, After;
  }

  lemma {:induction false} StillCooling(start: Phase, log: seq<Event>, i: nat, k: nat, c: Config)
    requires Run(start, log, c) && i < k <= |log| && Opens(log[i])
    ensures (After(start, log, k, c).Tripped? && After(start, log, k, c).since >= log[i].at)
      || log[k - 1].at >= log[i].at + c.cooldown
  {
    hide After, Run;
    StepTaken(start, log, k - 1, c);
    if k > i + 1 {
      StillCooling(start, log, i, k - 1, c);
      InOrder(start, log, k - 2, k - 1, c);
      InOrder(start, log, i, k - 1, c);
    }
  }

  /** After the breaker opens, nobody is admitted before the cool-down has passed, however the run goes on. */
  lemma NoAdmissionBeforeCooldown(start: Phase, log: seq<Event>, i: nat, j: nat, c: Config)
    requires Run(start, log, c) && i < j < |log| && Opens(log[i]) && log[j].Admit?
    ensures log[j].at >= log[i].at + c.cooldown
  {
    hide After, Run;
    StillCooling(start, log, i, j, c);
    StepTaken(start, log, j, c);
    InOrder(start, log, j - 1, j, c);
  }

  /** Events i + 1 up to j all belong to the probing episode that event i began. */
  ghost predicate Episode(start: Phase, log: seq<Event>, i: nat, j: nat, c: Config)
    requires j <= |log|
  {
    i < j && log[i].Ripen? && forall k :: i < k <= j ==> After(start, log, k, c).Probing?
  }

  /** How many callers events lo .. hi admit. */
  function Admissions(log: seq<Event>, lo: nat, hi: nat): nat
    requires lo <= hi <= |log|
    decreases hi
  {
    if lo == hi then 0 else Admissions(log, lo, hi - 1) + if log[hi - 1].Admit? then 1 else 0
  }

  /** How many successes events lo .. hi report. */
  function Successes(log: seq<Event>, lo: nat, hi: nat): nat
    requires lo <= hi <= |log|
    decreases hi
  {
    if lo == hi then 0 else Successes(log, lo, hi - 1) + if log[hi - 1].Report? && log[hi - 1].ok then 1 else 0
  }

  ghost predicate NoFailures(log: seq<Event>, lo: nat, hi: nat)
    requires hi <= |log|
  {
    forall k :: lo <= k < hi ==> !(log[k].Report? && !log[k].ok)
  }

  /** What the automaton's counters mean. */
  lemma {:induction false} EpisodeCounts(start: Phase, log: seq<Event>, i: nat, j: nat, c: Config)
    requires Usable(c) && Run(start, log, c) && j <= |log| && Episode(start, log, i, j, c)
    ensures After(start, log, j, c).admitted == Admissions(log, i + 1, j) <= c.halfOpenMax
    ensures After(start, log, j, c).passed == Successes(log, i + 1, j) < c.halfOpenMax
    ensures NoFailures(log, i + 1, j)
    decreases j
  {
    hide After, Run;
    StepTaken(start, log, j - 1, c);
    if j > i + 1 {
      EpisodeCounts(start, log, i, j - 1, c);
      assert After(start, log, j - 1, c).Probing?;
    }
  }

  /** Each episode admits at most the configured number of probes. */
  lemma ProbesAreLimited(start: Phase, log: seq<Event>, i: nat, j: nat, c: Config)
    requires Usable(c) && Run(start, log, c) && j <= |log| && Episode(start, log, i, j, c)
    ensures Admissions(log, i + 1, j) <= c.halfOpenMax
  {
    EpisodeCounts(start, log, i, j, c);
  }

  /** Whoever is probing is in an episode that began in this run or was under way at its start. */
  lemma {:induction false} EpisodeBegan(start: Phase, log: seq<Event>, j: nat, c: Config)
    requires Run(start, log, c) && j <= |log| && !start.Probing? && After(start, log, j, c).Probing?
    ensures exists i: nat :: Episode(start, log, i, j, c)
    decreases j
  {
    hide After, Run, Episode, Enabled;
    AtStart(start, log, c);
    if j == 0 {
    } else {
      StepTaken(start, log, j - 1, c);
      if log[j - 1].Ripen? {
        EpisodeGrows(start, log, j - 1, j, c);
      } else {
        EpisodeBegan(start, log, j - 1, c);
        var i: nat :| Episode(start, log, i, j - 1, c);
        EpisodeGrows(start, log, i, j, c);
      }
    }
  }

  lemma EpisodeGrows(start: Phase, log: seq<Event>, i: nat, j: nat, c: Config)
    requires 0 < j <= |log| && After(start, log, j, c).Probing?
    requires Episode(start, log, i, j - 1, c) || (i == j - 1 && log[i].Ripen?)
    ensures Episode(start, log, i, j, c)
  {
    hide After;
  }

  lemma AtStart(start: Phase, log: seq<Event>, c: Config)
    ensures After(start, log, 0, c) == start
  {
  }

  /** A tripped breaker shuts again only after a probing episode with the full number of successes and no failure. */
  lemma ShutsOnlyAfterSuccesses(start: Phase, log: seq<Event>, j: nat, c: Config)
    requires Usable(c) && Run(start, log, c) && j < |log| && !start.Probing?
    requires !After(start, log, j, c).Shut? && After(start, log, j + 1, c).Shut?
    ensures exists i: nat ::
      Episode(start, log, i, j, c) && Successes(log, i + 1, j + 1) == c.halfOpenMax && NoFailures(log, i + 1, j + 1)
  {
    hide After, Run;
    StepTaken(start, log, j, c);
    EpisodeBegan(start, log, j, c);
    var i: nat :| Episode(start, log, i, j, c);
    EpisodeCounts(start, log, i, j, c);
    assert Successes(log, i + 1, j + 1) == c.halfOpenMax;
  }

  /** Event i opened the breaker, and it has not begun to probe before event j. */
  ghost predicate OpenedAt(log: seq<Event>, i: nat, j: nat) {
    i < j <= |log| && Opens(log[i]) && forall k :: i < k < j ==> !log[k].Ripen?
  }

  lemma {:induction false} TrippedSince(log: seq<Event>, j: nat, c: Config) returns (i: nat)
    requires Run(Shut, log, c) && j <= |log| && After(Shut, log, j, c).Tripped?
    ensures OpenedAt(log, i, j) && log[i].at == After(Shut, log, j, c).since
    decreases j
  {
    hide After, Run;
    AtStart(Shut, log, c);
    StepTaken(Shut, log, j - 1, c);
    if Opens(log[j - 1]) {
      return j - 1;
    }
    i := TrippedSince(log, j - 1, c);
  }

  /**
   A caller is turned away only when the breaker has opened less than a cool-down ago, or when it probes and as many
   callers have been let through as there are probes, with no failure reported since.
   */
  lemma TurnedAwayOnlyIf(log: seq<Event>, j: nat, c: Config)
    requires Usable(c) && Run(Shut, log, c) && j < |log| && log[j].Deny?
    ensures (exists i: nat :: OpenedAt(log, i, j) && log[j].at < log[i].at + c.cooldown)
      || (exists i: nat :: Episode(Shut, log, i, j, c) && Admissions(log, i + 1, j) == c.halfOpenMax
            && NoFailures(log, i + 1, j))
  {
    hide After, Run, Admissions, Successes;
    StepTaken(Shut, log, j, c);
    if After(Shut, log, j, c).Tripped? {
      var i := TrippedSince(log, j, c);
    } else {
      EpisodeBegan(Shut, log, j, c);
      var i: nat :| Episode(Shut, log, i, j, c);
      EpisodeCounts(Shut, log, i, j, c);
    }
  }

  /** Probing with every probe out: each caller is turned away. */
  predicate Blocked(p: Phase, c: Config) {
    p.Probing? && p.admitted >= c.halfOpenMax
  }

  ghost predicate BlockedThrough(start: Phase, log: seq<Event>, j: nat, c: Config)
    requires j <= |log|
  {
    forall k :: 0 <= k <= j ==> Blocked(After(start, log, k, c), c)
  }

  /**
   Probes whose outcome is never reported are not replaced. Without an operator, a breaker that has given out all
   its probes turns everyone away for exactly as long as no failure is reported and the successes reported, by
   whomever, fall short of the number needed.
   */
  lemma {:induction false} BlockedUntilReportsIff(start: Phase, log: seq<Event>, j: nat, c: Config)
    requires Run(start, log, c) && j <= |log| && Blocked(start, c) && start.passed < c.halfOpenMax
    requires forall k :: 0 <= k < j ==> !log[k].Trip?
    ensures BlockedThrough(start, log, j, c)
      <==> NoFailures(log, 0, j) && start.passed + Successes(log, 0, j) < c.halfOpenMax
    ensures BlockedThrough(start, log, j, c) ==>
      After(start, log, j, c).passed == start.passed + Successes(log, 0, j)
    decreases j
  {
    hide After, Run;
    AtStart(start, log, c);
    if j == 0 {
    } else {
      BlockedUntilReportsIff(start, log, j - 1, c);
      StepTaken(start, log, j - 1, c);
      if BlockedThrough(start, log, j - 1, c) {
        BlockedStep(After(start, log, j - 1, c), log[j - 1], c);
      }
      assert BlockedThrough(start, log, j, c)
        <==> BlockedThrough(start, log, j - 1, c) && Blocked(After(start, log, j, c), c);
      assert NoFailures(log, 0, j) <==> NoFailures(log, 0, j - 1) && !(log[j - 1].Report? && !log[j - 1].ok);
      assert Successes(log, 0, j) == Successes(log, 0, j - 1) + if log[j - 1].Report? && log[j - 1].ok then 1 else 0;
    }
  }

  lemma BlockedStep(p: Phase, e: Event, c: Config)
    requires Blocked(p, c) && Enabled(p, e, c) && !e.Trip? && p.passed < c.halfOpenMax
    ensures Blocked(Next(p, e, c), c) <==>
      !(e.Report? && !e.ok) && p.passed + (if e.Report? && e.ok then 1 else 0) < c.halfOpenMax
    ensures Blocked(Next(p, e, c), c) ==>
      Next(p, e, c).passed == p.passed + if e.Report? && e.ok then 1 else 0
  {
  }

  /** While it lasts, no caller is admitted, and no other caller is turned away by a breaker that probes. */
  lemma BlockedAdmitsNobody(start: Phase, log: seq<Event>, k: nat, c: Config)
    requires Run(start, log, c) && k < |log| && After(start, log, k, c).Probing?
    ensures log[k].Admit? ==> !Blocked(After(start, log, k, c), c)
    ensures log[k].Deny? ==> Blocked(After(start, log, k, c), c)
  {
    StepTaken(start, log, k, c);
  }

  /** And it does come about: a trip, the cool-down, and as many callers as there are probes. */
  lemma {:induction false} ProbesCanAllBeOut(n: nat, c: Config) returns (log: seq<Event>)
    requires Usable(c) && n <= c.halfOpenMax
    ensures Run(Shut, log, c) && After(Shut, log, |log|, c) == Probing(n, 0)
    ensures n == c.halfOpenMax ==> Blocked(After(Shut, log, |log|, c), c)
    ensures forall i :: 0 <= i < |log| ==> log[i].at <= c.cooldown
    decreases n
  {
    hide After, Run;
    if n == 0 {
      EmptyRun(c);
      RunExtends(Shut, [], Trip(0), c);
      RunExtends(Shut, [] + [Trip(0)], Ripen(c.cooldown), c);
      log := [] + [Trip(0)] + [Ripen(c.cooldown)];
    } else {
      log := ProbesCanAllBeOut(n - 1, c);
      RunExtends(Shut, log, Admit(c.cooldown), c);
      log := log + [Admit(c.cooldown)];
    }
  }

  lemma EmptyRun(c: Config)
    ensures Run(Shut, [], c) && After(Shut, [], 0, c) == Shut
  {
  }

  // ----- the ring of outcomes

  function Min(a: int, b: int): int {
    if a < b then a else b
  }

  /** The last w outcomes, or all of them when there are fewer. */
  function Latest(recent: seq<bool>, w: nat): seq<bool> {
    recent[|recent| - Min(|recent|, w)..]
  }

  function Failures(s: seq<bool>): nat {
    if s == [] then 0 else (if s[0] then 0 else 1) + Failures(s[1..])
  }

  lemma {:induction false} FailuresAppend(a: seq<bool>, b: seq<bool>)
    ensures Failures(a + b) == Failures(a) + Failures(b)
    decreases |a|
  {
    if a == [] {
      assert a + b == b;
    } else {
      assert (a + b)[1..] == a[1..] + b;
      FailuresAppend(a[1..], b);
    }
  }

  /** The failures from some place on, counted one by one. */
  lemma {:induction false} FailuresAre(recent: seq<bool>, lo: nat)
    requires lo <= |recent|
    ensures Failures(recent[lo..]) == |set i | lo <= i < |recent| && !recent[i]|
    decreases |recent| - lo
  {
    var failed := set i | lo <= i < |recent| && !recent[i];
    if lo == |recent| {
      assert failed == {};
    } else {
      FailuresAre(recent, lo + 1);
      assert recent[lo..][1..] == recent[lo + 1..];
      var later := set i | lo + 1 <= i < |recent| && !recent[i];
      assert failed == if recent[lo] then later else later + {lo};
    }
  }

  lemma FailuresOne(x: bool)
    ensures Failures([x]) == if x then 0 else 1
  {
    assert [x][1..] == [];
  }

  /** Where the ring keeps outcome j. */
  function Cell(j: nat, w: nat): (cell: nat)
    requires w > 0
    ensures cell < w
  {
    j % w
  }

  /** The latest outcomes each sit in their cell, and the cursor is the next outcome's. */
  ghost predicate RingHolds(ring: seq<bool>, cursor: int, filled: int, recent: seq<bool>) {
    && |ring| > 0 && filled == Min(|recent|, |ring|) && cursor == Cell(|recent|, |ring|)
    && forall j :: |recent| - filled <= j < |recent| ==> ring[Cell(j, |ring|)] == recent[j]
  }

  lemma Multiples(d: int, w: nat)
    ensures d >= 1 ==> d * w >= w
    ensures d <= 0 ==> d * w <= 0
    ensures d <= -1 ==> d * w + w <= 0
    ensures (d + 1) * w == d * w + w
  {
  }

  lemma CellOf(q: nat, r: nat, w: nat)
    requires r < w
    ensures q * w + r >= 0 && Cell(q * w + r, w) == r
  {
    var x := q * w + r;
    var d := x / w - q;
    assert d * w == (x / w) * w - q * w;
    Multiples(d, w);
  }

  lemma CellQuotient(n: nat, w: nat) returns (q: nat)
    requires w > 0
    ensures n == q * w + Cell(n, w) && (n >= w ==> q >= 1)
  {
    q := n / w;
  }

  lemma CellStep(n: nat, w: nat)
    requires w > 0
    ensures Cell(n + 1, w) == if Cell(n, w) == w - 1 then 0 else Cell(n, w) + 1
  {
    hide Cell;
    var q := CellQuotient(n, w);
    Multiples(q, w);
    if Cell(n, w) == w - 1 {
      CellOf(q + 1, 0, w);
    } else {
      CellOf(q, Cell(n, w) + 1, w);
    }
  }

  /** Two outcomes less than w apart never share a cell. */
  lemma CellsDiffer(j: nat, n: nat, w: nat)
    requires w > 0 && j < n < j + w
    ensures Cell(j, w) != Cell(n, w)
  {
    hide Cell;
    var a := CellQuotient(j, w);
    var b := CellQuotient(n, w);
    Multiples(b - a, w);
    assert (b - a) * w == b * w - a * w;
  }

  lemma RingEmpty(ring: seq<bool>)
    requires |ring| > 0
    ensures RingHolds(ring, 0, 0, [])
  {
  }

  lemma RingPush(ring: seq<bool>, cursor: int, filled: int, recent: seq<bool>, x: bool)
    requires RingHolds(ring, cursor, filled, recent)
    ensures 0 <= cursor < |ring|
    ensures RingHolds(
      ring[cursor := x], Cell(cursor + 1, |ring|), if filled < |ring| then filled + 1 else filled, recent + [x])
  {
    hide Cell;
    var n, w := |recent|, |ring|;
    CellStep(n, w);
    CellOf(0, cursor, w);
    CellStep(cursor, w);
    var r2, f2 := ring[cursor := x], if filled < w then filled + 1 else filled;
    forall j | n + 1 - f2 <= j < n + 1 ensures r2[Cell(j, w)] == (recent + [x])[j] {
      if j < n {
        CellsDiffer(j, n, w);
        assert ring[Cell(j, w)] == recent[j];
      }
    }
  }

  /** Counting cells back from the cursor. */
  lemma CellBehind(n: nat, w: nat, r: nat)
    requires 0 < w <= n && r < w
    ensures r < Cell(n, w) ==> Cell(n - Cell(n, w) + r, w) == r
    ensures n - w - Cell(n, w) + r >= 0 && Cell(n - w - Cell(n, w) + r, w) == r
  {
    hide Cell;
    var q := CellQuotient(n, w);
    CellOf(q, r, w);
    Multiples(q - 1, w);
    CellOf(q - 1, r, w);
  }

  /** A full ring before the cursor: the newest outcomes. */
  lemma RingFront(ring: seq<bool>, cursor: int, recent: seq<bool>)
    requires RingHolds(ring, cursor, |ring|, recent) && |recent| > |ring|
    ensures 0 <= cursor < |ring| && ring[..cursor] == recent[|recent| - cursor..]
  {
    RingShape(ring, cursor, |ring|, recent);
    hide Cell, RingHolds;
    var n, w := |recent|, |ring|;
    forall r | 0 <= r < cursor ensures ring[r] == recent[n - cursor + r] {
      CellBehind(n, w, r);
      RingAt(ring, cursor, w, recent, n - cursor + r);
    }
  }

  /** And from the cursor on: the oldest ones still there. */
  lemma RingBack(ring: seq<bool>, cursor: int, recent: seq<bool>)
    requires RingHolds(ring, cursor, |ring|, recent) && |recent| > |ring|
    ensures 0 <= cursor < |ring| && ring[cursor..] == recent[|recent| - |ring|..|recent| - cursor]
  {
    RingShape(ring, cursor, |ring|, recent);
    hide Cell, RingHolds;
    var n, w := |recent|, |ring|;
    forall r | cursor <= r < w ensures ring[r] == recent[n - w + r - cursor] {
      CellBehind(n, w, r);
      RingAt(ring, cursor, w, recent, n - w - cursor + r);
    }
  }

  lemma RingShape(ring: seq<bool>, cursor: int, filled: int, recent: seq<bool>)
    requires RingHolds(ring, cursor, filled, recent)
    ensures 0 < |ring| && filled == Min(|recent|, |ring|) && cursor == Cell(|recent|, |ring|)
  {
  }

  lemma RingAt(ring: seq<bool>, cursor: int, filled: int, recent: seq<bool>, j: nat)
    requires RingHolds(ring, cursor, filled, recent) && |recent| - filled <= j < |recent|
    ensures ring[Cell(j, |ring|)] == recent[j]
  {
  }

  /** Read from cell zero, the filled cells are the latest outcomes, cut in two at the cursor and swapped. */
  lemma RingIsRotation(ring: seq<bool>, cursor: int, filled: int, recent: seq<bool>)
    requires RingHolds(ring, cursor, filled, recent)
    ensures 0 <= filled <= |ring|
    ensures exists a, b :: ring[..filled] == b + a && Latest(recent, |ring|) == a + b
  {
    RingShape(ring, cursor, filled, recent);
    hide Cell, RingHolds;
    var n, w := |recent|, |ring|;
    var latest := Latest(recent, w);
    if n <= w {
      forall j | 0 <= j < filled ensures ring[j] == recent[j] {
        CellOf(0, j, w);
        RingAt(ring, cursor, filled, recent, j);
      }
      assert ring[..filled] == latest;
      assert ring[..filled] == [] + latest && latest == latest + [];
    } else {
      RingFront(ring, cursor, recent);
      RingBack(ring, cursor, recent);
      CutAndSwap(ring, recent, cursor);
      assert ring[..filled] == ring;
    }
  }

  lemma CutAndSwap(ring: seq<bool>, recent: seq<bool>, c: nat)
    requires c < |ring| <= |recent|
    requires ring[..c] == recent[|recent| - c..] && ring[c..] == recent[|recent| - |ring|..|recent| - c]
    ensures exists a, b :: ring == b + a && recent[|recent| - |ring|..] == a + b
  {
    var a, b := ring[c..], ring[..c];
    assert ring == b + a && recent[|recent| - |ring|..] == a + b;
  }

  /** Order aside, the filled cells are exactly the latest outcomes, so counting them in place is counting those. */
  lemma RingIsWindow(ring: seq<bool>, cursor: int, filled: int, recent: seq<bool>)
    requires RingHolds(ring, cursor, filled, recent)
    ensures filled == |Latest(recent, |ring|)| <= |ring|
    ensures multiset(ring[..filled]) == multiset(Latest(recent, |ring|))
    ensures Failures(ring[..filled]) == Failures(Latest(recent, |ring|))
  {
    hide Cell, Failures;
    RingIsRotation(ring, cursor, filled, recent);
    var a, b :| ring[..filled] == b + a && Latest(recent, |ring|) == a + b;
    FailuresAppend(a, b);
    FailuresAppend(b, a);
  }

  // ----- the breaker

  datatype State = Closed | Open | HalfOpen

  /** Whether the latest outcomes are enough, and bad enough, to trip. */
  ghost predicate TooManyFailures(recent: seq<bool>, c: Config)
    requires Usable(c)
  {
    var window := Latest(recent, c.windowSize);
    |window| >= c.minSamples && Failures(window) as real / |window| as real >= c.threshold
  }

  /** It trips when of the latest outcomes, as many as the window holds, enough are there and too many are failures. */
  lemma TooManyMeans(recent: seq<bool>, c: Config)
    requires Usable(c)
    ensures
      var n := if |recent| < c.windowSize then |recent| else c.windowSize;
      var failed := set i | |recent| - n <= i < |recent| && !recent[i];
      TooManyFailures(recent, c) <==> n >= c.minSamples && |failed| as real >= c.threshold * n as real
  {
    hide TooManyFailures, Failures;
    var n := if |recent| < c.windowSize then |recent| else c.windowSize;
    assert Latest(recent, c.windowSize) == recent[|recent| - n..];
    TooManyCount(recent, c);
    FailuresAre(recent, |recent| - n);
  }

  lemma TooManyCount(recent: seq<bool>, c: Config)
    requires Usable(c)
    ensures
      var n := |Latest(recent, c.windowSize)|;
      TooManyFailures(recent, c) <==>
        n >= c.minSamples && Failures(Latest(recent, c.windowSize)) as real >= c.threshold * n as real
  {
    hide Failures, Latest;
    if |Latest(recent, c.windowSize)| > 0 {
      RatioIff(Failures(Latest(recent, c.windowSize)), |Latest(recent, c.windowSize)|, c.threshold);
    }
  }

  lemma RatioIff(x: nat, n: nat, threshold: real)
    requires n > 0
    ensures x as real / n as real >= threshold <==> x as real >= threshold * n as real
  {
    var a, b := x as real, n as real;
    var q := a / b;
    assert q * b == a;
    if q >= threshold {
      assert (q - threshold) * b >= 0.0;
    } else {
      assert (threshold - q) * b > 0.0;
    }
  }

  const DEFAULT_CONFIG := Config(0.5, 20, 10, 30_000, 3)

  class Breaker {
    var cfg: Config
    var state: State
    var outcomes: array<bool>
    var cursor: int
    var filled: int
    var openedAt: int
    var probeAllowed: int
    var probesInFly: int
    var probesPassed: int
    ghost var recent: seq<bool> // what has been recorded while closed since the ring was last cleared
    ghost var start: Phase
    ghost var log: seq<Event>   // what has happened since the breaker was made, reset or configured

    constructor ()
      ensures Valid() && fresh(outcomes) && cfg == Config(0.5, 20, 10, 30_000, 3)
      ensures state == Closed && recent == [] && start == Shut && log == []
    {
      cfg := DEFAULT_CONFIG;
      state := Closed;
      outcomes := new bool[20];
      cursor, filled, openedAt, probeAllowed, probesInFly, probesPassed := 0, 0, 0, 0, 0, 0;
      recent, start, log := [], Shut, [];
    }

    /** The automaton's phase, read off the fields. */
    function Phase(): Phase
      reads this
    {
      match state
      case Closed => Shut
      case Open => Tripped(openedAt)
      case HalfOpen => Probing(cfg.halfOpenMax - probeAllowed, if probesPassed < 0 then 0 else probesPassed)
    }

    ghost predicate Valid()
      reads this, outcomes
    {
      && Usable(cfg) && outcomes.Length == cfg.windowSize
      && RingHolds(outcomes[..], cursor, filled, recent)
      && probesPassed >= 0 && probesInFly >= 0 && probeAllowed >= 0
      && Run(start, log, cfg) && After(start, log, |log|, cfg) == Phase()
    }

    /** Every event so far lies in the past. */
    ghost predicate Before(now: int)
      reads this
    {
      forall i :: 0 <= i < |log| ==> log[i].at <= now
    }

    /** Add to the ghost log a step that the fields have just taken. */
    ghost method Note(e: Event, was: Phase)
      requires Usable(cfg) && Run(start, log, cfg) && After(start, log, |log|, cfg) == was
      requires Enabled(was, e, cfg) && Next(was, e, cfg) == Phase() && Before(e.at)
      modifies this`log
      ensures log == old(log) + [e] && Run(start, log, cfg) && After(start, log, |log|, cfg) == Phase()
      ensures Before(e.at)
    {
      hide Run, After, Enabled, Next;
      RunExtends(start, log, e, cfg);
      log := log + [e];
    }

    /** Start probing once the cool-down is over. */
    method Transition(clock: Clock)
      requires Valid() && Before(clock.now)
      modifies this`state, this`probeAllowed, this`probesPassed, this`probesInFly, this`log, clock
      ensures Valid() && Before(clock.now) && clock.now >= old(clock.now)
      ensures old(state) != Open ==> log == old(log) && state == old(state)
      ensures old(state) == Open ==>
        if clock.now - openedAt >= cfg.cooldown
        then
          && state == HalfOpen && log == old(log) + [Ripen(clock.now)]
          && probeAllowed == cfg.halfOpenMax && probesPassed == 0
        else state == Open && log == old(log)
      ensures old(state) != Open ==> probeAllowed == old(probeAllowed) && probesPassed == old(probesPassed)
    {
      hide Run, After, RingHolds;
      if state != Open {
        return;
      }
      var now := clock.Read();
      if now - openedAt < cfg.cooldown {
        return;
      }
      ghost var was := Phase();
      state := HalfOpen;
      probeAllowed, probesPassed, probesInFly := cfg.halfOpenMax, 0, 0;
      Note(Ripen(now), was);
    }

    /** May a call go ahead now? In probing, a yes uses up one probe. */
    method Check(clock: Clock) returns (allowed: bool, s: State)
      requires Valid() && Before(clock.now)
      modifies this`state, this`probeAllowed, this`probesPassed, this`probesInFly, this`log, clock
      ensures Valid() && Before(clock.now) && clock.now >= old(clock.now) && s == state
      ensures old(log) < log && log[|log| - 1] == if allowed then Admit(clock.now) else Deny(clock.now)
      ensures forall i :: |old(log)| <= i < |log| - 1 ==> log[i].Ripen?
      ensures old(state) == Closed ==> allowed && state == Closed
      ensures old(state) == Open && clock.now - openedAt >= cfg.cooldown ==>
        allowed && state == HalfOpen && probeAllowed == cfg.halfOpenMax - 1 && probesPassed == 0
      ensures old(state) == Open && clock.now - openedAt < cfg.cooldown ==> !allowed && state == Open
      ensures old(state) == HalfOpen ==>
        && state == HalfOpen && (allowed <==> old(probeAllowed) > 0) && probesPassed == old(probesPassed)
        && probeAllowed == old(probeAllowed) - if allowed then 1 else 0
    {
      hide Run, After, RingHolds;
      Transition(clock);
      ghost var was := Phase();
      match state
      case Closed =>
        Note(Admit(clock.now), was);
        return true, state;
      case HalfOpen =>
        if probeAllowed <= 0 {
          Note(Deny(clock.now), was);
          return false, state;
        }
        probeAllowed, probesInFly := probeAllowed - 1, probesInFly + 1;
        Note(Admit(clock.now), was);
        return true, state;
      case Open =>
        Note(Deny(clock.now), was);
        return false, state;
    }

    /** Walk the filled cells in place and count the failures. */
    method CountFailures() returns (fails: nat)
      requires 0 <= filled <= outcomes.Length
      ensures fails == Failures(outcomes[..filled])
    {
      fails := 0;
      for i := 0 to filled
        invariant fails == Failures(outcomes[..i])
      {
        assert outcomes[..i + 1] == outcomes[..i] + [outcomes[i]];
        FailuresAppend(outcomes[..i], [outcomes[i]]);
        FailuresOne(outcomes[i]);
        if !outcomes[i] {
          fails := fails + 1;
        }
      }
    }

    /** Push an outcome onto the ring and decide, from the ring alone, whether to trip. */
    method PushOutcome(ok: bool) returns (trips: bool)
      requires Valid()
      modifies this`cursor, this`filled, this`recent, outcomes
      ensures Valid() && recent == old(recent) + [ok]
      ensures trips <==> TooManyFailures(recent, cfg)
    {
      hide Run, After, Failures, RingHolds;
      RingPush(outcomes[..], cursor, filled, recent, ok);
      outcomes[cursor] := ok;
      assert outcomes[..] == old(outcomes[..])[cursor := ok];
      cursor := Cell(cursor + 1, cfg.windowSize);
      if filled < cfg.windowSize {
        filled := filled + 1;
      }
      recent := recent + [ok];
      RingIsWindow(outcomes[..], cursor, filled, recent);
      assert outcomes[..][..filled] == outcomes[..filled];
      trips := false;
      if filled >= cfg.minSamples {
        var fails := CountFailures();
        var ratio := fails as real / filled as real;
        trips := ratio >= cfg.threshold;
      }
    }

    /** Forget the recorded outcomes; the cells keep their contents. */
    method ClearRing()
      requires cfg.windowSize > 0 && outcomes.Length == cfg.windowSize
      modifies this`cursor, this`filled, this`recent
      ensures cursor == 0 == filled && recent == [] && RingHolds(outcomes[..], cursor, filled, recent)
    {
      cursor, filled, recent := 0, 0, [];
      RingEmpty(outcomes[..]);
    }

    /** Record an outcome. */
    method Record(clock: Clock, ok: bool) returns (s: State)
      requires Valid() && Before(clock.now)
      modifies this, outcomes, clock
      ensures Valid() && Before(clock.now) && clock.now >= old(clock.now) && s == state
      ensures cfg == old(cfg) && start == old(start) && outcomes == old(outcomes)
      ensures old(log) < log && forall i :: |old(log)| <= i < |log| - 1 ==> log[i].Ripen?
      ensures log[|log| - 1].Report? && log[|log| - 1].ok == ok && log[|log| - 1].at == clock.now
      ensures old(state) == Closed ==>
        recent == old(recent) + [ok] && (log[|log| - 1].trips <==> TooManyFailures(recent, cfg))
      ensures old(state) != Closed ==> recent == if state == Closed then [] else old(recent)
      ensures old(state) == Closed ==>
        var n := if |recent| < cfg.windowSize then |recent| else cfg.windowSize;
        var failed := set i | |recent| - n <= i < |recent| && !recent[i];
        state == if n >= cfg.minSamples && |failed| as real >= cfg.threshold * n as real then Open else Closed
      ensures old(state) == HalfOpen ==>
        && state == (if !ok then Open else if old(probesPassed) + 1 >= cfg.halfOpenMax then Closed else HalfOpen)
        && (state == HalfOpen ==> probesPassed == old(probesPassed) + 1 && probeAllowed == old(probeAllowed))
      ensures old(state) == Open && clock.now - old(openedAt) < cfg.cooldown ==>
        state == Open && openedAt == old(openedAt)
      ensures state == Open && old(state) != Open ==> openedAt == clock.now
    {
      hide Run, After, RingHolds, Failures, Before, Phase, TooManyFailures, Enabled, Next, Opens;
      Transition(clock);
      match state {
        case HalfOpen => RecordProbe(clock, ok);
        case Closed =>
          RecordOutcome(clock, ok);
          TooManyMeans(recent, cfg);
        case Open => RecordIgnored(clock, ok);
      }
      s := state;
    }

    /** While probing: a failure reopens the breaker, enough successes close it with nothing recorded. */
    method RecordProbe(clock: Clock, ok: bool)
      requires Valid() && Before(clock.now) && state == HalfOpen
      modifies this, clock
      ensures Valid() && Before(clock.now) && clock.now >= old(clock.now)
      ensures cfg == old(cfg) && start == old(start) && outcomes == old(outcomes)
      ensures log == old(log) + [Report(ok, !ok, clock.now)]
      ensures recent == if state == Closed then [] else old(recent)
      ensures state == if !ok then Open else if old(probesPassed) + 1 >= cfg.halfOpenMax then Closed else HalfOpen
      ensures state == HalfOpen ==> probesPassed == old(probesPassed) + 1 && probeAllowed == old(probeAllowed)
      ensures state == Open ==> openedAt == clock.now
    {
      hide Run, After, RingHolds;
      ghost var was := Phase();
      if probesInFly > 0 {
        probesInFly := probesInFly - 1;
      }
      if ok {
        probesPassed := probesPassed + 1;
        if probesPassed >= cfg.halfOpenMax {
          state := Closed;
          ClearRing();
          probeAllowed, probesPassed, probesInFly := 0, 0, 0;
        }
      } else {
        openedAt := clock.Read();
        state := Open;
        probeAllowed, probesPassed, probesInFly := 0, 0, 0;
      }
      Note(Report(ok, !ok, clock.now), was);
    }

    /** While closed: the outcome joins the window, which decides. */
    method RecordOutcome(clock: Clock, ok: bool)
      requires Valid() && Before(clock.now) && state == Closed
      modifies this, outcomes, clock
      ensures Valid() && Before(clock.now) && clock.now >= old(clock.now)
      ensures cfg == old(cfg) && start == old(start) && outcomes == old(outcomes)
      ensures recent == old(recent) + [ok] && state == if TooManyFailures(recent, cfg) then Open else Closed
      ensures state == Open ==> openedAt == clock.now
      ensures log == old(log) + [Report(ok, TooManyFailures(recent, cfg), clock.now)]
    {
      hide Run, After, RingHolds, TooManyFailures;
      ghost var was := Phase();
      var trips := PushOutcome(ok);
      if trips {
        openedAt := clock.Read();
        state := Open;
      }
      Note(Report(ok, trips, clock.now), was);
    }

    /** While open: only the totals would change. */
    ghost method RecordIgnored(clock: Clock, ok: bool)
      requires Valid() && Before(clock.now) && state == Open
      modifies this`log
      ensures Valid() && Before(clock.now)
      ensures log == old(log) + [Report(ok, false, clock.now)]
    {
      hide Run, After, RingHolds;
      Note(Report(ok, false, clock.now), Phase());
    }

    /** An operator opens the breaker. */
    method Trip(clock: Clock) returns (s: State)
      requires Valid() && Before(clock.now)
      modifies this`state, this`openedAt, this`probeAllowed, this`probesPassed, this`probesInFly, this`log, clock
      ensures Valid() && Before(clock.now) && clock.now >= old(clock.now)
      ensures s == state == Open && log == old(log) + [Event.Trip(clock.now)]
    {
      hide Run, After, RingHolds;
      ghost var was := Phase();
      state := Open;
      openedAt := clock.Read();
      probeAllowed, probesPassed, probesInFly := 0, 0, 0;
      Note(Event.Trip(clock.now), was);
      s := state;
    }

    /** Back to closed with nothing recorded; the log starts afresh. */
    method Reset()
      requires Valid()
      modifies this, outcomes
      ensures Valid() && cfg == old(cfg) && outcomes == old(outcomes)
      ensures state == Closed && recent == [] && start == Shut && log == []
      ensures forall i :: 0 <= i < outcomes.Length ==> !outcomes[i]
    {
      hide RingHolds;
      state := Closed;
      ClearRing();
      probeAllowed, probesPassed, probesInFly := 0, 0, 0;
      start, log := Shut, [];
      WipeCells();
      RingEmpty(outcomes[..]);
    }

    method WipeCells()
      modifies outcomes
      ensures forall i :: 0 <= i < outcomes.Length ==> !outcomes[i]
    {
      for i := 0 to outcomes.Length
        invariant forall j :: 0 <= j < i ==> !outcomes[j]
      {
        outcomes[i] := false;
      }
    }

    /** A ring of another size starts out empty. */
    method Resize(w: int)
      requires w > 0
      modifies this`cfg, this`outcomes, this`cursor, this`filled, this`recent
      ensures cfg == old(cfg).(windowSize := w) && fresh(outcomes) && outcomes.Length == w
      ensures recent == [] && RingHolds(outcomes[..], cursor, filled, recent)
    {
      cfg := cfg.(windowSize := w);
      outcomes := new bool[w](_ => false);
      ClearRing();
    }

    /** Change the tunables that are positive; a new window size empties the ring. The log starts afresh. */
    method Configure(c: Config) returns (r: Config)
      requires Valid()
      modifies this
      ensures Valid() && r == cfg && state == old(state) && log == [] && start == Phase()
      ensures cfg.threshold
        == if c.threshold <= 0.0 then old(cfg.threshold) else if c.threshold > 1.0 then 1.0 else c.threshold
      ensures cfg.windowSize == if c.windowSize > 0 then c.windowSize else old(cfg.windowSize)
      ensures cfg.minSamples == if c.minSamples > 0 then c.minSamples else old(cfg.minSamples)
      ensures cfg.cooldown == if c.cooldown > 0 then c.cooldown else old(cfg.cooldown)
      ensures cfg.halfOpenMax == if c.halfOpenMax > 0 then c.halfOpenMax else old(cfg.halfOpenMax)
      ensures if cfg.windowSize == old(cfg.windowSize)
        then outcomes == old(outcomes) && cursor == old(cursor) && filled == old(filled) && recent == old(recent)
        else fresh(outcomes) && recent == []
      ensures openedAt == old(openedAt) && probeAllowed == old(probeAllowed)
      ensures probesInFly == old(probesInFly) && probesPassed == old(probesPassed)
    {
      hide RingHolds, Enabled, Next;
      var m := cfg;
      if c.threshold > 0.0 {
        m := m.(threshold := if c.threshold > 1.0 then 1.0 else c.threshold);
      }
      if c.windowSize > 0 && c.windowSize != cfg.windowSize {
        m := m.(windowSize := c.windowSize);
        Resize(c.windowSize);
      }
      if c.minSamples > 0 {
        m := m.(minSamples := c.minSamples);
      }
      if c.cooldown > 0 {
        m := m.(cooldown := c.cooldown);
      }
      if c.halfOpenMax > 0 {
        m := m.(halfOpenMax := c.halfOpenMax);
      }
      cfg := m;
      start, log := Phase(), [];
      r := cfg;
    }
  }
}
