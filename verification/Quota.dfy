/**
 Composite admission: every gate a policy requires is peeked before any is consumed.

 The cost gate is the concrete budget of module Budget. The other gates' subsystems are seen only through what a
 peek answers and through the record of what has been taken from them.
 */
module Quota {
  import opened Bytes
  import opened Options
  import Words
  import opened Clocks
  import opened Budget

  datatype Gate = Cost | Carbon | Risk | Rate | Market | Unknown(name: bytes)

  datatype Policy = Policy(gates: seq<Gate>, any: bool)

  /** Which gates a request brings parameters for, and those of the cost gate. */
  datatype Dims = Dims(given: set<Gate>, scope: string, usd: real)

  datatype GateResult = GateResult(gate: Gate, allowed: bool, consumed: bool, retryAfter: int)

  datatype Decision = Refused(bad: Gate) | Decided(
    admitted: bool, committed: bool, deniedBy: seq<Gate>, retryAfter: int, gates: seq<GateResult>)

  // ----- policies

  ghost predicate Distinct(gs: seq<Gate>) {
    forall i, j :: 0 <= i < j < |gs| ==> gs[i] != gs[j]
  }

  const COST: bytes := [99, 111, 115, 116] // "cost"
  const CARBON: bytes := [99, 97, 114, 98, 111, 110] // "carbon"
  const RISK: bytes := [114, 105, 115, 107] // "risk"
  const RATE: bytes := [114, 97, 116, 101] // "rate"
  const MARKET: bytes := [109, 97, 114, 107, 101, 116] // "market"
  const ANY: bytes := [97, 110, 121] // "any"

  /** Case and the white space around a word do not matter. */
  function Plain(word: bytes): bytes {
    Lower(Words.Trim(word))
  }

  function GateOf(word: bytes): Gate {
    var w := Plain(word);
    if w == COST then Cost
    else if w == CARBON then Carbon
    else if w == RISK then Risk
    else if w == RATE then Rate
    else if w == MARKET then Market
    else Unknown(w)
  }

  predicate KnownMode(mode: bytes) {
    Plain(mode) == [] || Plain(mode) == ALL || Plain(mode) == ANY
  }

  /** A policy names at least one gate, known ones only, each once; without a mode it needs all of them. */
  method Define(name: bytes, words: seq<bytes>, mode: bytes) returns (r: Option<Policy>)
    ensures r.Some? <==>
      name != [] && words != [] && KnownMode(mode) && forall i :: 0 <= i < |words| ==> !GateOf(words[i]).Unknown?
    ensures r.Some? ==> Distinct(r.value.gates) && (r.value.any <==> Plain(mode) == ANY)
    ensures r.Some? ==> forall g :: g in r.value.gates <==> exists i :: 0 <= i < |words| && GateOf(words[i]) == g
  {
    hide Plain, GateOf;
    if name == [] || words == [] || !KnownMode(mode) {
      return None;
    }
    var norm: seq<Gate> := [];
    for i := 0 to |words|
      invariant forall j :: 0 <= j < i ==> !GateOf(words[j]).Unknown? && GateOf(words[j]) in norm
      invariant Distinct(norm) && forall g :: g in norm ==> exists j :: 0 <= j < i && GateOf(words[j]) == g
    {
      var g := GateOf(words[i]);
      if g.Unknown? {
        return None;
      }
      if g !in norm {
        norm := norm + [g];
      }
    }
    return Some(Policy(norm, Plain(mode) == ANY));
  }

  // ----- what a decision means

  /** The gates that refused, in policy order. */
  function DeniedIn(rs: seq<GateResult>): seq<Gate> {
    if rs == [] then [] else (if rs[0].allowed then [] else [rs[0].gate]) + DeniedIn(rs[1..])
  }

  /** What an admission takes from the gates other than cost: each one that had room, but never the market signal. */
  function TakenIn(rs: seq<GateResult>): seq<Gate> {
    if rs == [] then []
    else (if rs[0].allowed && rs[0].gate !in {Cost, Market} then [rs[0].gate] else []) + TakenIn(rs[1..])
  }

  lemma {:induction false} DeniedInAppend(a: seq<GateResult>, b: seq<GateResult>)
    ensures DeniedIn(a + b) == DeniedIn(a) + DeniedIn(b)
    decreases |a|
  {
    if a == [] {
      assert a + b == b;
    } else {
      assert (a + b)[1..] == a[1..] + b;
      DeniedInAppend(a[1..], b);
    }
  }

  lemma {:induction false} TakenInAppend(a: seq<GateResult>, b: seq<GateResult>)
    ensures TakenIn(a + b) == TakenIn(a) + TakenIn(b)
    decreases |a|
  {
    if a == [] {
      assert a + b == b;
    } else {
      assert (a + b)[1..] == a[1..] + b;
      TakenInAppend(a[1..], b);
    }
  }

  lemma TakenInOne()
    ensures TakenIn([]) == []
    ensures forall r :: TakenIn([r]) == if r.allowed && r.gate !in {Cost, Market} then [r.gate] else []
  {
    assert forall r: GateResult :: [r][1..] == [];
  }

  /** Nothing is denied exactly when every gate allows. */
  lemma {:induction false} NoneDenied(rs: seq<GateResult>)
    ensures DeniedIn(rs) == [] <==> forall i :: 0 <= i < |rs| ==> rs[i].allowed
    ensures |DeniedIn(rs)| == |rs| <==> forall i :: 0 <= i < |rs| ==> !rs[i].allowed
    ensures |DeniedIn(rs)| <= |rs|
    decreases |rs|
  {
    if rs == [] {
    } else {
      NoneDenied(rs[1..]);
      assert forall i :: 1 <= i < |rs| ==> rs[i] == rs[1..][i - 1];
      assert forall i :: 0 <= i < |rs| - 1 ==> rs[1..][i] == rs[i + 1];
    }
  }

  /** The results differ, if at all, in what was consumed. */
  ghost predicate SamePeeks(a: seq<GateResult>, b: seq<GateResult>) {
    |a| == |b| && forall i :: 0 <= i < |a| ==> a[i] == b[i].(consumed := a[i].consumed)
  }

  lemma {:induction false} SamePeeksAgree(a: seq<GateResult>, b: seq<GateResult>)
    requires SamePeeks(a, b)
    ensures DeniedIn(a) == DeniedIn(b) && TakenIn(a) == TakenIn(b)
    decreases |a|
  {
    if a == [] {
    } else {
      assert a[0] == b[0].(consumed := a[0].consumed);
      assert SamePeeks(a[1..], b[1..]);
      SamePeeksAgree(a[1..], b[1..]);
    }
  }

  /** The longest retry delay asked for, at least zero. */
  ghost predicate IsMaxRetry(m: int, rs: seq<GateResult>) {
    && (forall i :: 0 <= i < |rs| ==> rs[i].retryAfter <= m)
    && (m == 0 || exists i :: 0 <= i < |rs| && rs[i].retryAfter == m) && m >= 0
  }

  predicate CostGranted(rs: seq<GateResult>) {
    exists i :: 0 <= i < |rs| && rs[i].gate == Cost && rs[i].allowed
  }

  type Records = map<string, seq<Spend>>

  /** The one tenant's record gains exactly so many charges of that amount; no other tenant's changes. */
  ghost predicate Charged(before: Records, after: Records, name: string, usd: real, times: nat) {
    && before.Keys == after.Keys
    && (forall n :: n in before && n != name ==> after[n] == before[n])
    && (name in before ==>
      && before[name] <= after[name] && |after[name]| == |before[name]| + times
      && forall i :: |before[name]| <= i < |after[name]| ==> after[name][i].usd == usd)
  }

  lemma NothingCharged(records: Records, name: string, usd: real)
    ensures Charged(records, records, name, usd, 0)
  {
  }

  lemma ChargedOnce(a: Records, b: Records, name: string, usd: real, t: int, allowed: bool)
    requires a.Keys == b.Keys
    requires forall n :: n in a ==> b[n] == a[n] + if n == name && allowed then [Spend(t, usd)] else []
    ensures Charged(a, b, name, usd, if allowed then 1 else 0)
  {
  }

  lemma ChargedMore(a: Records, b: Records, c: Records, name: string, usd: real, m: nat, n: nat)
    requires Charged(a, b, name, usd, m) && Charged(b, c, name, usd, n)
    ensures Charged(a, c, name, usd, m + n)
  {
    if name in a {
      assert a[name] <= b[name] <= c[name];
    }
  }

  /** A charge made outside of any admission. */
  datatype Rival = Rival(name: string, usd: real)

  /** Some of these charges have been added to the records, and nothing else. */
  ghost predicate Grown(before: Records, after: Records, rivals: seq<Rival>) {
    && before.Keys == after.Keys
    && (forall n :: n in before ==> before[n] <= after[n])
    && (forall n, i :: n in before && |before[n]| <= i < |after[n]| ==> Rival(n, after[n][i].usd) in rivals)
  }

  lemma NobodyCharged(records: Records, rivals: seq<Rival>)
    ensures Grown(records, records, rivals)
  {
  }

  lemma GrownMore(a: Records, b: Records, c: Records, rivals: seq<Rival>, r: Rival, t: int, allowed: bool)
    requires Grown(a, b, rivals) && c.Keys == b.Keys
    requires forall n :: n in b ==> c[n] == b[n] + if n == r.name && allowed then [Spend(t, r.usd)] else []
    ensures Grown(a, c, rivals + [r])
  {
  }

  /** How many cost gates report that they were really charged. */
  function CostsTaken(rs: seq<GateResult>): nat {
    if rs == [] then 0 else (if rs[0].gate == Cost && rs[0].consumed then 1 else 0) + CostsTaken(rs[1..])
  }

  lemma {:induction false} CostsTakenAppend(a: seq<GateResult>, r: GateResult)
    ensures CostsTaken(a + [r]) == CostsTaken(a) + if r.gate == Cost && r.consumed then 1 else 0
    decreases |a|
  {
    if a == [] {
      assert a + [r] == [r] && [r][1..] == [];
    } else {
      assert (a + [r])[1..] == a[1..] + [r];
      CostsTakenAppend(a[1..], r);
    }
  }

  predicate CostTaken(rs: seq<GateResult>, n: nat)
    requires n <= |rs|
  {
    exists k :: 0 <= k < n && rs[k].gate == Cost && rs[k].consumed
  }

  predicate Usable(g: Gate, dims: Dims) {
    g in dims.given && !g.Unknown?
  }

  /** Count who allows, list who does not, and keep the longest delay. */
  method Verdict(rs: seq<GateResult>) returns (allowed: nat, denied: seq<Gate>, maxRetry: int)
    ensures denied == DeniedIn(rs) && allowed + |denied| == |rs| && IsMaxRetry(maxRetry, rs)
  {
    allowed, denied, maxRetry := 0, [], 0;
    for i := 0 to |rs|
      invariant denied == DeniedIn(rs[..i]) && allowed + |denied| == i
      invariant maxRetry == 0 || exists j :: 0 <= j < i && rs[j].retryAfter == maxRetry
      invariant maxRetry >= 0 && forall j :: 0 <= j < i ==> rs[j].retryAfter <= maxRetry
    {
      assert rs[..i + 1] == rs[..i] + [rs[i]];
      DeniedInAppend(rs[..i], [rs[i]]);
      assert [rs[i]][1..] == [];
      if rs[i].allowed {
        allowed := allowed + 1;
      } else {
        denied := denied + [rs[i].gate];
      }
      if rs[i].retryAfter > maxRetry {
        maxRetry := rs[i].retryAfter;
      }
    }
    assert rs[..|rs|] == rs;
  }

  lemma AdmittedMeans(rs: seq<GateResult>, allowed: nat)
    requires allowed + |DeniedIn(rs)| == |rs|
    ensures allowed > 0 <==> SomeAllowed(rs)
    ensures allowed == |rs| <==> AllAllowed(rs)
  {
    NoneDenied(rs);
  }

  lemma SamePeeksVerdict(a: seq<GateResult>, b: seq<GateResult>)
    requires SamePeeks(a, b)
    ensures SomeAllowed(a) == SomeAllowed(b) && AllAllowed(a) == AllAllowed(b) && CostGranted(a) == CostGranted(b)
    ensures DeniedIn(a) == DeniedIn(b) && TakenIn(a) == TakenIn(b)
    ensures forall m :: IsMaxRetry(m, a) == IsMaxRetry(m, b)
  {
    SamePeeksAgree(a, b);
    assert forall i :: 0 <= i < |a| ==> a[i].gate == b[i].gate && a[i].allowed == b[i].allowed;
    assert forall i :: 0 <= i < |a| ==> a[i].retryAfter == b[i].retryAfter;
  }

  predicate SomeAllowed(rs: seq<GateResult>) {
    exists i :: 0 <= i < |rs| && rs[i].allowed
  }

  predicate AllAllowed(rs: seq<GateResult>) {
    forall i :: 0 <= i < |rs| ==> rs[i].allowed
  }

  ghost predicate GatesOf(rs: seq<GateResult>, pol: Policy) {
    |rs| == |pol.gates| && forall i :: 0 <= i < |rs| ==> rs[i].gate == pol.gates[i]
  }

  /** What is marked as consumed: only in a commit, only gates that had room, and never a negative amount. */
  ghost predicate ConsumedRight(rs: seq<GateResult>, committed: bool, usd: real) {
    forall i :: 0 <= i < |rs| ==>
      && (rs[i].consumed ==> committed && rs[i].allowed && rs[i].gate != Market)
      && (rs[i].gate == Cost && rs[i].consumed ==> usd >= 0.0)
  }

  /** As long as no cost gate has been charged, one that had room is charged exactly if it still has at that time. */
  ghost predicate PaidRight(rs: seq<GateResult>, paid: seq<int>, usd: real, room: iset<int>)
    requires |paid| <= |rs|
  {
    forall i :: 0 <= i < |paid| && rs[i].gate == Cost && rs[i].allowed && !CostTaken(rs, i) ==>
      (rs[i].consumed <==> usd >= 0.0 && paid[i] in room)
  }

  lemma PaidNext(
    out: seq<GateResult>, paid: seq<int>, usd: real, room: iset<int>, ok: bool, t: int)
    requires |paid| < |out| && PaidRight(out, paid, usd, room)
    requires out[|paid|].gate == Cost && out[|paid|].allowed && !CostTaken(out[..|paid|], |paid|) ==>
      (ok <==> usd >= 0.0 && t in room)
    ensures PaidRight(out[|paid| := out[|paid|].(consumed := ok)], paid + [t], usd, room)
  {
    var i := |paid|;
    var next := out[i := out[i].(consumed := ok)];
    forall j: nat | j <= i ensures CostTaken(next, j) == CostTaken(out, j) {
      TakenBefore(next, out, j);
    }
    TakenBefore(out, out[..i], i);
  }

  /** With room at all the times asked, the first cost gate that had room is charged, unless the amount is negative. */
  ghost predicate FirstCostPays(rs: seq<GateResult>, committed: bool, usd: real) {
    forall i :: 0 <= i < |rs| && committed && rs[i].gate == Cost && rs[i].allowed && usd >= 0.0 && !CostTaken(rs, i) ==>
      rs[i].consumed
  }

  lemma {:induction false} NoneTakenNoneCounted(rs: seq<GateResult>)
    ensures CostsTaken(rs) == 0 <==> !CostTaken(rs, |rs|)
  {
    if rs == [] {
    } else {
      NoneTakenNoneCounted(rs[1..]);
      if CostTaken(rs[1..], |rs| - 1) {
        var k :| 0 <= k < |rs| - 1 && rs[1..][k].gate == Cost && rs[1..][k].consumed;
        assert rs[k + 1] == rs[1..][k];
      }
      if CostTaken(rs, |rs|) && !(rs[0].gate == Cost && rs[0].consumed) {
        var k :| 0 <= k < |rs| && rs[k].gate == Cost && rs[k].consumed;
        assert rs[1..][k - 1] == rs[k];
      }
    }
  }

  lemma {:induction false} DistinctTakeOnce(rs: seq<GateResult>)
    requires forall i, j :: 0 <= i < j < |rs| ==> rs[i].gate != rs[j].gate
    ensures CostsTaken(rs) <= 1
  {
    if rs == [] {
    } else {
      DistinctTakeOnce(rs[1..]);
      if rs[0].gate == Cost {
        NoneTakenNoneCounted(rs[1..]);
        assert forall k :: 0 <= k < |rs| - 1 ==> rs[1..][k] == rs[k + 1];
      }
    }
  }

  /**
   For a policy that names each gate once, as the registry makes them, a committed admission charges the cost gate
   exactly once if it had room and the amount is not negative, and not at all otherwise.
   */
  lemma DistinctGatesChargeOnce(d: Decision, pol: Policy, dims: Dims, commit: bool)
    requires d.Decided? && Follows(d, pol, dims, commit) && Distinct(pol.gates)
    requires FirstCostPays(d.gates, d.committed, dims.usd)
    ensures CostsTaken(d.gates) == if d.committed && CostGranted(d.gates) && dims.usd >= 0.0 then 1 else 0
  {
    var rs := d.gates;
    DistinctTakeOnce(rs);
    NoneTakenNoneCounted(rs);
    if d.committed && CostGranted(rs) && dims.usd >= 0.0 {
      var i: nat :| i < |rs| && rs[i].gate == Cost && rs[i].allowed;
      assert !CostTaken(rs, i);
    }
  }

  /** The first i of the answers have been through the commit loop. */
  ghost predicate Marked(out: seq<GateResult>, rs: seq<GateResult>, i: nat, usd: real) {
    && SamePeeks(out, rs)
    && (forall j :: 0 <= j < |rs| && out[j].consumed ==> j < i && out[j].allowed && out[j].gate != Market)
    && (forall j :: 0 <= j < |rs| && out[j].gate == Cost && out[j].consumed ==> usd >= 0.0)
  }

  lemma TakenBefore(a: seq<GateResult>, b: seq<GateResult>, n: nat)
    requires n <= |a| && n <= |b| && forall k :: 0 <= k < n ==> a[k] == b[k]
    ensures CostTaken(a, n) == CostTaken(b, n)
  {
    assert forall k :: 0 <= k < n ==> b[k] == a[k];
  }

  lemma TakenUpTo(rs: seq<GateResult>, n: nat)
    requires n < |rs|
    ensures CostTaken(rs, n + 1) <==> CostTaken(rs, n) || (rs[n].gate == Cost && rs[n].consumed)
  {
  }

  lemma MarkNext(out: seq<GateResult>, rs: seq<GateResult>, i: nat, usd: real, ok: bool)
    requires Marked(out, rs, i, usd) && i < |rs|
    requires ok ==> rs[i].allowed && rs[i].gate != Market
    requires rs[i].gate == Cost && ok ==> usd >= 0.0
    ensures var next := out[i := out[i].(consumed := ok)];
      && Marked(next, rs, i + 1, usd) && next[..i + 1] == out[..i] + [next[i]]
      && (CostTaken(next[..i + 1], i + 1) <==> CostTaken(out[..i], i) || (rs[i].gate == Cost && ok))
  {
    var next := out[i := out[i].(consumed := ok)];
    assert out[i].allowed == rs[i].allowed && out[i].gate == rs[i].gate;
    forall j: nat | j <= i ensures CostTaken(next, j) == CostTaken(out, j) {
      TakenBefore(next, out, j);
    }
    TakenBefore(out, out[..i], i);
    TakenBefore(next[..i + 1], next, i + 1);
    TakenUpTo(next, i);
  }

  /** The first i of the answers have been through the commit loop, and been charged as they should. */
  ghost predicate Progress(
    out: seq<GateResult>, rs: seq<GateResult>, paid: seq<int>, i: nat, usd: real, room: iset<int>)
  {
    && |out| == |rs| && |paid| == i <= |rs| && Marked(out, rs, i, usd)
    && (forall j :: i <= j < |rs| ==> out[j] == rs[j])
    && PaidRight(out, paid, usd, room)
  }

  ghost predicate SomePaid(rs: seq<GateResult>, i: nat) {
    i <= |rs| && CostTaken(rs[..i], i)
  }

  ghost function TakenSoFar(rs: seq<GateResult>, i: nat): nat {
    if i <= |rs| then CostsTaken(rs[..i]) else 0
  }

  lemma NoProgress(rs: seq<GateResult>, usd: real, room: iset<int>)
    requires forall i :: 0 <= i < |rs| ==> !rs[i].consumed
    ensures Progress(rs, rs, [], 0, usd, room) && TakenSoFar(rs, 0) == 0
  {
  }

  lemma MoreProgress(
    out: seq<GateResult>, rs: seq<GateResult>, paid: seq<int>, i: nat, usd: real, room: iset<int>, ok: bool, t: int)
    requires Progress(out, rs, paid, i, usd, room) && i < |rs|
    requires ok ==> rs[i].allowed && rs[i].gate != Market
    requires rs[i].gate == Cost && ok ==> usd >= 0.0
    requires rs[i].gate == Cost && rs[i].allowed && !SomePaid(out, i) ==> (ok <==> usd >= 0.0 && t in room)
    ensures
      var next := out[i := out[i].(consumed := ok)];
      && Progress(next, rs, paid + [t], i + 1, usd, room)
      && (SomePaid(next, i + 1) <==> SomePaid(out, i) || (rs[i].gate == Cost && ok))
      && TakenSoFar(next, i + 1) == TakenSoFar(out, i) + if rs[i].gate == Cost && ok then 1 else 0
  {
    hide Marked, PaidRight, CostTaken, CostsTaken;
    MarkNext(out, rs, i, usd, ok);
    PaidNext(out, paid, usd, room, ok, t);
    CostsTakenAppend(out[..i], out[i].(consumed := ok));
  }

  lemma AllDone(
    out: seq<GateResult>, rs: seq<GateResult>, paid: seq<int>, pol: Policy, usd: real, room: iset<int>)
    requires Progress(out, rs, paid, |rs|, usd, room) && GatesOf(rs, pol)
    ensures SamePeeks(out, rs) && GatesOf(out, pol) && ConsumedRight(out, true, usd)
    ensures |paid| == |out| && PaidRight(out, paid, usd, room) && TakenSoFar(out, |rs|) == CostsTaken(out)
  {
    hide PaidRight, CostsTaken;
    assert out[..|rs|] == out;
  }

  lemma NotCommittedPays(rs: seq<GateResult>, usd: real)
    ensures FirstCostPays(rs, false, usd)
  {
  }

  lemma AllPaid(rs: seq<GateResult>, paid: seq<int>, usd: real, room: iset<int>, now: int)
    requires |paid| == |rs| && PaidRight(rs, paid, usd, room) && forall i :: 0 <= i < |paid| ==> paid[i] >= now
    requires CostGranted(rs) ==> forall u :: u >= now ==> u in room
    ensures FirstCostPays(rs, true, usd)
  {
    hide CostTaken;
  }

  /** What lies between the phases: the records, when the cost gate has room, and when each gate is asked to pay. */
  datatype Between = Between(records: Records, room: iset<int>, paid: seq<int>)

  /** The parts of a decision agree with one another, and with the gates it reports. */
  ghost predicate Follows(d: Decision, pol: Policy, dims: Dims, commit: bool)
    requires d.Decided?
  {
    && GatesOf(d.gates, pol)
    && (d.admitted <==> if pol.any then SomeAllowed(d.gates) else AllAllowed(d.gates))
    && d.deniedBy == DeniedIn(d.gates) && IsMaxRetry(d.retryAfter, d.gates)
    && (d.committed <==> commit && d.admitted)
    && ConsumedRight(d.gates, d.committed, dims.usd)
  }

  /** A decision, gate by gate. */
  lemma DecisionMeans(d: Decision, pol: Policy, dims: Dims, commit: bool)
    requires d.Decided? && Follows(d, pol, dims, commit)
    ensures |d.gates| == |pol.gates| && forall i :: 0 <= i < |d.gates| ==> d.gates[i].gate == pol.gates[i]
    ensures pol.any ==> (d.admitted <==> exists i :: 0 <= i < |d.gates| && d.gates[i].allowed)
    ensures !pol.any ==> (d.admitted <==> forall i :: 0 <= i < |d.gates| ==> d.gates[i].allowed)
    ensures d.committed <==> commit && d.admitted
    ensures forall g :: g in d.deniedBy <==> exists i :: 0 <= i < |d.gates| && IsDenied(d.gates, i, g)
    ensures d.retryAfter >= 0 && forall i :: 0 <= i < |d.gates| ==> d.gates[i].retryAfter <= d.retryAfter
    ensures d.retryAfter > 0 ==> exists i :: 0 <= i < |d.gates| && d.gates[i].retryAfter == d.retryAfter
    ensures forall i :: 0 <= i < |d.gates| && d.gates[i].consumed ==>
      d.committed && d.gates[i].allowed && d.gates[i].gate != Market
    ensures forall g :: g in TakenIn(d.gates) <==>
      g != Cost && g != Market && exists i :: 0 <= i < |d.gates| && d.gates[i].gate == g && d.gates[i].allowed
  {
    DeniedAre(d.gates);
    TakenAre(d.gates);
  }

  predicate IsDenied(rs: seq<GateResult>, i: int, g: Gate)
    requires 0 <= i < |rs|
  {
    rs[i].gate == g && !rs[i].allowed
  }

  lemma {:induction false} DeniedAre(rs: seq<GateResult>)
    ensures forall g :: g in DeniedIn(rs) <==> exists i :: 0 <= i < |rs| && IsDenied(rs, i, g)
    decreases |rs|
  {
    if rs == [] {
    } else {
      DeniedAre(rs[1..]);
      forall g ensures g in DeniedIn(rs) <==> exists i :: 0 <= i < |rs| && IsDenied(rs, i, g) {
        if i :| 0 <= i < |rs| && IsDenied(rs, i, g) {
          assert i > 0 ==> IsDenied(rs[1..], i - 1, g);
        }
        if i :| 0 <= i < |rs| - 1 && IsDenied(rs[1..], i, g) {
          assert IsDenied(rs, i + 1, g);
        }
        if !rs[0].allowed && rs[0].gate == g {
          assert IsDenied(rs, 0, g);
        }
      }
    }
  }

  lemma {:induction false} TakenAre(rs: seq<GateResult>)
    ensures forall g :: g in TakenIn(rs) <==>
      g != Cost && g != Market && exists i :: 0 <= i < |rs| && rs[i].gate == g && rs[i].allowed
    decreases |rs|
  {
    if rs == [] {
    } else {
      TakenAre(rs[1..]);
      forall g ensures g in TakenIn(rs) <==>
        g != Cost && g != Market && exists i :: 0 <= i < |rs| && rs[i].gate == g && rs[i].allowed
      {
        if i :| 0 <= i < |rs| && rs[i].gate == g && rs[i].allowed {
          assert i > 0 ==> rs[1..][i - 1] == rs[i];
        }
        if i :| 0 <= i < |rs| - 1 && rs[1..][i].gate == g && rs[1..][i].allowed {
          assert rs[i + 1] == rs[1..][i];
        }
      }
    }
  }

  // ----- the names of gates and modes

  /** White space around a word and the case of its letters do not matter. */
  lemma PlainMeans(pre: bytes, word: bytes, post: bytes)
    requires forall i :: 0 <= i < |pre| ==> pre[i] in {9, 10, 11, 12, 13, 32}
    requires forall i :: 0 <= i < |post| ==> post[i] in {9, 10, 11, 12, 13, 32}
    requires word != [] ==> word[0] !in {9, 10, 11, 12, 13, 32} && word[|word| - 1] !in {9, 10, 11, 12, 13, 32}
    ensures Plain(pre + word + post) == Lower(word)
  {
    Words.TrimAround(pre, word, post);
  }

  lemma NameIs(w: bytes, name: bytes)
    requires Lower(name) == name
    ensures Lower(w) == name <==> SameButCase(w, name)
  {
    FoldIff(w, name);
  }

  /** The words for gates: "cost", "carbon", "risk", "rate" and "market", in any case. */
  lemma GateNames(w: bytes)
    requires w != [] && w[0] !in {9, 10, 11, 12, 13, 32} && w[|w| - 1] !in {9, 10, 11, 12, 13, 32}
    ensures GateOf(w) == Cost <==> SameButCase(w, [99, 111, 115, 116])
    ensures GateOf(w) == Carbon <==> SameButCase(w, [99, 97, 114, 98, 111, 110])
    ensures GateOf(w) == Risk <==> SameButCase(w, [114, 105, 115, 107])
    ensures GateOf(w) == Rate <==> SameButCase(w, [114, 97, 116, 101])
    ensures GateOf(w) == Market <==> SameButCase(w, [109, 97, 114, 107, 101, 116])
    ensures KnownMode(w) <==> SameButCase(w, [97, 108, 108]) || SameButCase(w, [97, 110, 121])
    ensures Plain(w) == ANY <==> SameButCase(w, [97, 110, 121])
  {
    hide SameButCase;
    PlainMeans([], w, []);
    assert [] + w + [] == w;
    NamesAreSmall();
    NameIs(w, COST);
    NameIs(w, CARBON);
    NameIs(w, RISK);
    NameIs(w, RATE);
    NameIs(w, MARKET);
    NameIs(w, ANY);
    NameIs(w, ALL);
    NamesAreApart();
    hide Plain, Lower;
  }

  lemma NamesAreSmall()
    ensures Lower(COST) == COST == [99, 111, 115, 116] && Lower(CARBON) == CARBON == [99, 97, 114, 98, 111, 110]
    ensures Lower(RISK) == RISK == [114, 105, 115, 107] && Lower(RATE) == RATE == [114, 97, 116, 101]
    ensures Lower(MARKET) == MARKET == [109, 97, 114, 107, 101, 116]
    ensures Lower(ANY) == ANY == [97, 110, 121] && Lower(ALL) == ALL == [97, 108, 108]
  {
  }

  lemma NamesAreApart()
    ensures |COST| == 4 && |CARBON| == 6 && |RISK| == 4 && |RATE| == 4 && |MARKET| == 6
    ensures COST[0] != RISK[0] && COST[0] != RATE[0] && RISK[1] != RATE[1] && CARBON[0] != MARKET[0]
    ensures COST != RISK && COST != RATE && RISK != RATE && CARBON != MARKET && COST != CARBON && COST != MARKET
    ensures RISK != CARBON && RISK != MARKET && RATE != CARBON && RATE != MARKET
  {
    assert COST[0] != RISK[0] && COST[0] != RATE[0] && RISK[1] != RATE[1] && CARBON[0] != MARKET[0];
  }

  // ----- the other gates' subsystems

  class OtherGates {
    ghost var taken: seq<Gate>

    /** Whether the gate has room now and, if not, when to try again; changes nothing. */
    method Peek(g: Gate) returns (room: bool, retryAfter: int)
      ensures room || g != Rate ==> retryAfter == 0
    {
      room, retryAfter := *, *;
      if room || g != Rate {
        retryAfter := 0;
      }
    }

    /** Take from the gate; it reports whether it really did. */
    method Consume(g: Gate) returns (ok: bool)
      modifies this
      ensures taken == old(taken) + [g]
    {
      taken := taken + [g];
      ok := *;
    }
  }

  // ----- the engine

  class Engine {
    const budgets: CostBudgets
    const others: OtherGates
    const clock: Clock

    constructor (budgets: CostBudgets, others: OtherGates, clock: Clock)
      ensures this.budgets == budgets && this.others == others && this.clock == clock
    {
      this.budgets, this.others, this.clock := budgets, others, clock;
    }

    ghost predicate Valid()
      reads budgets, budgets.tenants.Values, clock
    {
      budgets.Valid(clock.now)
    }

    /** When the cost gate would allow the charge, as things are. */
    ghost function Room(dims: Dims): iset<int>
      reads budgets, budgets.tenants.Values
    {
      iset u: int | CostAllows(dims, u)
    }

    lemma RoomStays(dims: Dims, t: int)
      requires Valid() && CostAllows(dims, clock.now) && t >= clock.now
      ensures CostAllows(dims, t)
    {
      hide Budget.Tenant.Affordable, Budget.CostBudgets.Affordable;
      if dims.usd >= 0.0 {
        budgets.StaysAffordable(clock.now, t, dims.scope, dims.usd);
      }
    }

    /** What others charge in the meantime: the lock on admissions does not keep them out. */
    method Elsewhere(rivals: seq<Rival>, ghost dims: Dims)
      requires Valid()
      modifies budgets.tenants.Values`charges, budgets.tenants.Values`cut, budgets.tenants.Values`history, clock
      ensures Valid() && clock.now >= old(clock.now)
      ensures Grown(old(budgets.Histories()), budgets.Histories(), rivals)
      ensures forall u :: u >= clock.now && CostAllows(dims, u) ==> old(CostAllows(dims, u))
      ensures rivals == [] ==> clock.now == old(clock.now) && Room(dims) == old(Room(dims))
    {
      hide Budget.Tenant.Affordable, Budget.CostBudgets.Affordable, Budget.CostBudgets.Valid, Grown;
      ghost var start := budgets.Histories();
      NobodyCharged(start, []);
      for i := 0 to |rivals|
        invariant Valid() && clock.now >= old(clock.now) && Grown(start, budgets.Histories(), rivals[..i])
        invariant forall u :: u >= clock.now && CostAllows(dims, u) ==> old(CostAllows(dims, u))
        invariant rivals == [] ==> clock.now == old(clock.now) && Room(dims) == old(Room(dims))
      {
        assert rivals[..i + 1] == rivals[..i] + [rivals[i]];
        ghost var before := budgets.Histories();
        var allowed, remaining, failed, t := budgets.Charge(clock, rivals[i].name, rivals[i].usd);
        GrownMore(start, before, budgets.Histories(), rivals[..i], rivals[i], clock.now, allowed);
      }
      assert rivals[..|rivals|] == rivals;
    }

    /** A gate's answer is what its subsystem says; without a budget the cost gate has no objection. */
    ghost predicate CostAllows(dims: Dims, now: int)
      reads budgets, budgets.tenants.Values
    {
      dims.usd < 0.0 || budgets.Affordable(dims.scope, now, dims.usd)
    }

    /** The answers on hand follow the policy's gates, nothing is consumed yet, and only the rate gate asks to wait. */
    ghost predicate Answered(rs: seq<GateResult>, pol: Policy) {
      && |rs| == |pol.gates|
      && (forall i :: 0 <= i < |rs| ==> rs[i].gate == pol.gates[i] && !rs[i].consumed)
      && (forall i :: 0 <= i < |rs| && rs[i].gate != Rate ==> rs[i].retryAfter == 0)
    }

    /** Wherever the cost gate said yes, the charge would still be allowed. */
    ghost predicate CostAnswer(rs: seq<GateResult>, dims: Dims)
      reads budgets, budgets.tenants.Values, clock
    {
      CostGranted(rs) ==> CostAllows(dims, clock.now)
    }

    /** Ask one gate, changing nothing. */
    method PeekOne(g: Gate, dims: Dims) returns (r: GateResult)
      requires Valid()
      modifies budgets.tenants.Values`charges, budgets.tenants.Values`cut, clock
      ensures Valid() && clock.now >= old(clock.now)
      ensures r.gate == g && !r.consumed && (g != Rate || r.allowed ==> r.retryAfter == 0)
      ensures g == Cost ==> (r.allowed <==> CostAllows(dims, clock.now))
      ensures forall u :: u >= clock.now ==> CostAllows(dims, u) == old(CostAllows(dims, u))
      ensures old(CostAllows(dims, clock.now)) ==> CostAllows(dims, clock.now)
    {
      hide Consistent, Sum, Live;
      if g == Cost {
        var allowed, remaining, hasBudget, t := budgets.Peek(clock, dims.scope, dims.usd);
        r := GateResult(g, !hasBudget || allowed, false, 0);
      } else {
        var room, retryAfter := others.Peek(g);
        r := GateResult(g, room, false, retryAfter);
      }
    }

    /** The first phase: ask every gate in order; the first unusable one ends it. */
    method PeekAll(pol: Policy, dims: Dims) returns (bad: seq<Gate>, rs: seq<GateResult>, ghost times: seq<int>)
      requires Valid()
      modifies budgets.tenants.Values`charges, budgets.tenants.Values`cut, clock
      ensures Valid() && clock.now >= old(clock.now)
      ensures bad == [] <==> forall i :: 0 <= i < |pol.gates| ==> Usable(pol.gates[i], dims)
      ensures bad != [] ==>
        && |rs| < |pol.gates| && bad == [pol.gates[|rs|]] && !Usable(bad[0], dims)
        && forall j :: 0 <= j < |rs| ==> Usable(pol.gates[j], dims)
      ensures bad == [] ==> Answered(rs, pol) && CostAnswer(rs, dims) && |times| == |rs|
      ensures forall u :: u >= clock.now ==> CostAllows(dims, u) == old(CostAllows(dims, u))
      ensures forall i :: 0 <= i < |times| ==> old(clock.now) <= times[i] <= clock.now
      ensures forall i :: 0 <= i < |rs| && i < |times| && rs[i].gate == Cost ==>
        (rs[i].allowed <==> old(CostAllows(dims, times[i])))
    {
      hide Budget.Tenant.Affordable, Budget.CostBudgets.Affordable, Budget.CostBudgets.Valid;
      rs, times := [], [];
      for i := 0 to |pol.gates|
        invariant Valid() && clock.now >= old(clock.now) && |rs| == i == |times|
        invariant forall j :: 0 <= j < i ==> Usable(pol.gates[j], dims)
        invariant forall j :: 0 <= j < i ==> rs[j].gate == pol.gates[j] && !rs[j].consumed
        invariant forall j :: 0 <= j < i && rs[j].gate != Rate ==> rs[j].retryAfter == 0
        invariant forall j :: 0 <= j < i ==> old(clock.now) <= times[j] <= clock.now
        invariant forall j :: 0 <= j < i && rs[j].gate == Cost ==> (rs[j].allowed <==> old(CostAllows(dims, times[j])))
        invariant forall u :: u >= clock.now ==> CostAllows(dims, u) == old(CostAllows(dims, u))
        invariant CostAnswer(rs, dims)
      {
        if !Usable(pol.gates[i], dims) {
          return [pol.gates[i]], rs, times;
        }
        var r := PeekOne(pol.gates[i], dims);
        rs, times := rs + [r], times + [clock.now];
      }
      return [], rs, times;
    }

    /** One gate's consumption; a refusal from the gate is reported, not hidden. */
    method ConsumeOne(g: Gate, dims: Dims) returns (ok: bool, ghost t: int)
      requires Valid() && g != Market
      modifies budgets.tenants.Values`charges, budgets.tenants.Values`cut, budgets.tenants.Values`history, others, clock
      ensures Valid() && old(clock.now) <= t <= clock.now
      ensures g != Cost ==>
        others.taken == old(others.taken) + [g] && budgets.Histories() == old(budgets.Histories())
      ensures g == Cost ==> others.taken == old(others.taken)
      ensures g == Cost ==> (ok <==> dims.usd >= 0.0 && old(CostAllows(dims, t)))
      ensures !(g == Cost && ok) ==>
        forall u :: u >= clock.now ==> CostAllows(dims, u) == old(CostAllows(dims, u))
      ensures g == Cost ==>
        Charged(old(budgets.Histories()), budgets.Histories(), dims.scope, dims.usd, if ok then 1 else 0)
    {
      hide Consistent, Sum, Live, Charged;
      ghost var before := budgets.Histories();
      if g == Cost {
        var allowed, remaining, failed;
        allowed, remaining, failed, t := budgets.Charge(clock, dims.scope, dims.usd);
        ok := !failed && allowed;
        ChargedOnce(before, budgets.Histories(), dims.scope, dims.usd, clock.now, allowed);
      } else {
        ok := others.Consume(g);
        t := clock.now;
      }
    }

    /**
     The second phase, entered only when the request is admitted. What has been charged elsewhere since the first one
     decides whether the cost gate still has room.
     */
    method ConsumeAll(pol: Policy, dims: Dims, rs: seq<GateResult>)
      returns (out: seq<GateResult>, ghost paid: seq<int>)
      requires Valid() && Answered(rs, pol)
      requires !pol.any ==> AllAllowed(rs)
      modifies budgets.tenants.Values`charges, budgets.tenants.Values`cut, budgets.tenants.Values`history, others, clock
      ensures Valid() && clock.now >= old(clock.now) && SamePeeks(out, rs)
      ensures GatesOf(out, pol) && ConsumedRight(out, true, dims.usd)
      ensures |paid| == |out| && forall i :: 0 <= i < |paid| ==> old(clock.now) <= paid[i] <= clock.now
      ensures PaidRight(out, paid, dims.usd, old(Room(dims)))
      ensures others.taken == old(others.taken) + TakenIn(rs)
      ensures Charged(old(budgets.Histories()), budgets.Histories(), dims.scope, dims.usd, CostsTaken(out))
    {
      hide Budget.Tenant.Affordable, Budget.CostBudgets.Affordable, Budget.CostBudgets.Valid, Charged, TakenIn,
        SamePeeks, ConsumedRight, CostsTaken, CostTaken, PaidRight, CostAllows, Progress;
      TakenInOne();
      NothingCharged(budgets.Histories(), dims.scope, dims.usd);
      out, paid := rs, [];
      ghost var start, room := budgets.Histories(), Room(dims);
      NoProgress(rs, dims.usd, room);
      for i: nat := 0 to |rs|
        invariant Valid() && clock.now >= old(clock.now)
        invariant |out| == |rs| && Progress(out, rs, paid, i, dims.usd, room)
        invariant others.taken == old(others.taken) + TakenIn(rs[..i])
        invariant forall j :: 0 <= j < |paid| ==> old(clock.now) <= paid[j] <= clock.now
        invariant SomePaid(out, i) || forall u :: u >= clock.now ==> (CostAllows(dims, u) <==> u in room)
        invariant Charged(start, budgets.Histories(), dims.scope, dims.usd, TakenSoFar(out, i))
      {
        assert rs[..i + 1] == rs[..i] + [rs[i]];
        TakenInAppend(rs[..i], [rs[i]]);
        ghost var before := budgets.Histories();
        var ok := false;
        ghost var t := clock.now;
        if (!pol.any || rs[i].allowed) && rs[i].gate != Market {
          ok, t := ConsumeOne(rs[i].gate, dims);
        }
        NothingCharged(before, dims.scope, dims.usd);
        ghost var one: nat := if rs[i].gate == Cost && ok then 1 else 0;
        ChargedMore(start, before, budgets.Histories(), dims.scope, dims.usd, TakenSoFar(out, i), one);
        MoreProgress(out, rs, paid, i, dims.usd, room, ok, t);
        out, paid := out[i := out[i].(consumed := ok)], paid + [t];
      }
      assert rs[..|rs|] == rs;
      AllDone(out, rs, paid, pol, dims.usd, room);
    }

    /** The second phase after some charges elsewhere. */
    method Commit(pol: Policy, dims: Dims, rs: seq<GateResult>, rivals: seq<Rival>)
      returns (out: seq<GateResult>, ghost between: Between)
      requires Valid() && Answered(rs, pol) && CostAnswer(rs, dims)
      requires !pol.any ==> AllAllowed(rs)
      modifies budgets.tenants.Values`charges, budgets.tenants.Values`cut, budgets.tenants.Values`history, others, clock
      ensures Valid() && clock.now >= old(clock.now) && SamePeeks(out, rs)
      ensures GatesOf(out, pol) && ConsumedRight(out, true, dims.usd)
      ensures others.taken == old(others.taken) + TakenIn(rs)
      ensures Grown(old(budgets.Histories()), between.records, rivals)
      ensures Charged(between.records, budgets.Histories(), dims.scope, dims.usd, CostsTaken(out))
      ensures |between.paid| == |out| && PaidRight(out, between.paid, dims.usd, between.room)
      ensures forall u :: u >= clock.now && u in between.room ==> old(CostAllows(dims, u))
      ensures rivals == [] ==> FirstCostPays(out, true, dims.usd)
    {
      hide Budget.Tenant.Affordable, Budget.CostBudgets.Affordable, Budget.CostBudgets.Valid, Charged, TakenIn, Grown,
        SomeAllowed, AllAllowed, CostGranted, CostsTaken, CostTaken, PaidRight, FirstCostPays, CostAllows,
        ConsumedRight, GatesOf;
      forall u | CostAllows(dims, clock.now) && u >= clock.now ensures CostAllows(dims, u) {
        RoomStays(dims, u);
      }
      Elsewhere(rivals, dims);
      ghost var records, room, now := budgets.Histories(), Room(dims), clock.now;
      ghost var paid;
      out, paid := ConsumeAll(pol, dims, rs);
      between := Between(records, room, paid);
      SamePeeksVerdict(out, rs);
      if rivals == [] {
        AllPaid(out, paid, dims.usd, room, now);
      }
    }

    /**
     A whole admission, with what is charged elsewhere between its phases. Nothing is taken from any gate unless the
     request is admitted and the caller commits; then exactly the gates that had room are asked to pay. The cost gate
     had room exactly when the charge was affordable at the time it was asked, and pays exactly when it still is at
     the time of payment; so it does if nobody else charges in between. What happens elsewhere before the cost gate is
     asked is as if it came before the admission, and afterwards as if it came after.
     */
    method Evaluate(pol: Policy, dims: Dims, commit: bool, rivals: seq<Rival>)
      returns (d: Decision, ghost times: seq<int>, ghost between: Between)
      requires Valid()
      modifies budgets.tenants.Values`charges, budgets.tenants.Values`cut, budgets.tenants.Values`history, others, clock
      ensures Valid()
      ensures d.Decided? <==>
        forall i :: 0 <= i < |pol.gates| ==> !pol.gates[i].Unknown? && pol.gates[i] in dims.given
      ensures d.Refused? ==>
        exists k :: 0 <= k < |pol.gates| && pol.gates[k] == d.bad && (d.bad.Unknown? || d.bad !in dims.given)
          && forall j :: 0 <= j < k ==> !pol.gates[j].Unknown? && pol.gates[j] in dims.given
      ensures d.Decided? ==> Follows(d, pol, dims, commit)
      ensures others.taken == old(others.taken) + if d.Decided? && d.committed then TakenIn(d.gates) else []
      ensures d.Decided? ==> |times| == |d.gates|
      ensures d.Decided? ==>
        forall i :: 0 <= i < |d.gates| && d.gates[i].gate == Cost ==>
          old(clock.now) <= times[i] <= clock.now && (d.gates[i].allowed <==> old(CostAllows(dims, times[i])))
      ensures Grown(old(budgets.Histories()), between.records, rivals)
      ensures Charged(between.records, budgets.Histories(), dims.scope, dims.usd,
          if d.Decided? && d.committed then CostsTaken(d.gates) else 0)
      ensures d.Decided? && d.committed ==>
        && |between.paid| == |d.gates| && PaidRight(d.gates, between.paid, dims.usd, between.room)
        && forall u :: u >= clock.now && u in between.room ==> old(CostAllows(dims, u))
      ensures d.Decided? && rivals == [] ==> FirstCostPays(d.gates, d.committed, dims.usd)
    {
      hide Budget.Tenant.Affordable, Budget.CostBudgets.Affordable, Budget.CostBudgets.Valid, Charged, TakenIn, Grown,
        DeniedIn, SomeAllowed, AllAllowed, IsMaxRetry, CostGranted, CostsTaken, CostTaken, PaidRight,
        FirstCostPays, CostAllows;
      var bad, rs;
      bad, rs, times := PeekAll(pol, dims);
      assert budgets.Histories() == old(budgets.Histories());
      NobodyCharged(budgets.Histories(), rivals);
      NothingCharged(budgets.Histories(), dims.scope, dims.usd);
      between := Between(budgets.Histories(), Room(dims), []);
      if bad != [] {
        return Refused(bad[0]), times, between;
      }
      var allowed, denied, maxRetry := Verdict(rs);
      AdmittedMeans(rs, allowed);
      var admitted := if pol.any then allowed > 0 else allowed == |rs|;
      var gates := rs;
      assert GatesOf(rs, pol) && ConsumedRight(rs, false, dims.usd);
      NotCommittedPays(rs, dims.usd);
      if commit && admitted {
        gates, between := Commit(pol, dims, rs, rivals);
      }
      SamePeeksVerdict(gates, rs);
      d := Decided(admitted, commit && admitted, denied, maxRetry, gates);
      forall i | 0 <= i < |gates| && gates[i].gate == Cost
        ensures gates[i].allowed <==> old(CostAllows(dims, times[i]))
      {
        assert gates[i].allowed == rs[i].allowed && gates[i].gate == rs[i].gate;
      }
    }
  }

  /** A negative amount passes the cost gate and is admitted, yet nothing is charged. */
  method NegativeAmountIsAdmitted(clock: Clock) returns (d: Decision)
    modifies clock
    ensures d.Decided? && d.admitted && d.committed && d.deniedBy == []
    ensures |d.gates| == 1 && d.gates[0].allowed && !d.gates[0].consumed
  {
    hide Consistent, Charged, CostsTaken, CostTaken, DeniedIn, TakenIn, IsMaxRetry, Within, Budget.Tenant.Affordable,
      Budget.CostBudgets.Affordable;
    var budgets := new CostBudgets();
    var ok := budgets.SetBudget("tenant", 1.0, 1000, clock.now);
    var others := new OtherGates;
    var engine := new Engine(budgets, others, clock);
    ghost var times, between;
    d, times, between := engine.Evaluate(Policy([Cost], false), Dims({Cost}, "tenant", -1.0), true, []);
    assert d.gates[0].gate == Cost;
    NoneDenied(d.gates);
  }
}
