/**
 Sliding-window spending budgets, and the two-phase admission that peeks every gate before it consumes any.

 The ghost log of a tenant holds every charge recorded since its budget was last set or reset. The theorem behind
 `Valid`: however the lazily compacted list and the two clock reads of a charge interleave with time, no interval
 as long as the window, not only the one ending now, ever holds more than the budget.
 */
module Budget {
  import opened Clocks

  datatype Spend = Spend(at: int, usd: real)

  // ----- sums over charge lists

  function Sum(cs: seq<Spend>): real {
    if cs == [] then 0.0 else cs[0].usd + Sum(cs[1..])
  }

  /** What was charged in the closed interval from lo to lo + width. */
  function WindowSum(cs: seq<Spend>, lo: int, width: int): real {
    if cs == [] then 0.0
    else (if lo <= cs[0].at <= lo + width then cs[0].usd else 0.0) + WindowSum(cs[1..], lo, width)
  }

  /** What is left after dropping the charges before the cutoff from the front. */
  function Live(cs: seq<Spend>, cutoff: int): seq<Spend> {
    if cs == [] || cs[0].at >= cutoff then cs else Live(cs[1..], cutoff)
  }

  ghost predicate Chronological(cs: seq<Spend>) {
    && (forall i, j :: 0 <= i < j < |cs| ==> cs[i].at <= cs[j].at)
    && (forall i :: 0 <= i < |cs| ==> cs[i].usd >= 0.0)
  }

  lemma {:induction false} SumAppend(a: seq<Spend>, b: seq<Spend>)
    ensures Sum(a + b) == Sum(a) + Sum(b)
    decreases |a|
  {
    if a == [] {
      assert a + b == b;
    } else {
      assert (a + b)[1..] == a[1..] + b;
      SumAppend(a[1..], b);
    }
  }

  lemma {:induction false} WindowSumAppend(a: seq<Spend>, b: seq<Spend>, lo: int, width: int)
    ensures WindowSum(a + b, lo, width) == WindowSum(a, lo, width) + WindowSum(b, lo, width)
    decreases |a|
  {
    if a == [] {
      assert a + b == b;
    } else {
      assert (a + b)[1..] == a[1..] + b;
      WindowSumAppend(a[1..], b, lo, width);
    }
  }

  lemma {:induction false} SumNonNegative(cs: seq<Spend>)
    requires Chronological(cs)
    ensures Sum(cs) >= 0.0
    decreases |cs|
  {
    if cs == [] {
    } else {
      SumNonNegative(cs[1..]);
    }
  }

  lemma {:induction false} WindowAtMostAll(cs: seq<Spend>, lo: int, width: int)
    requires Chronological(cs)
    ensures WindowSum(cs, lo, width) <= Sum(cs)
    decreases |cs|
  {
    if cs == [] {
    } else {
      WindowAtMostAll(cs[1..], lo, width);
    }
  }

  lemma {:induction false} WindowNonNegative(cs: seq<Spend>, lo: int, width: int)
    requires Chronological(cs)
    ensures WindowSum(cs, lo, width) >= 0.0
    decreases |cs|
  {
    if cs == [] {
    } else {
      WindowNonNegative(cs[1..], lo, width);
    }
  }

  lemma {:induction false} WindowMissesOld(cs: seq<Spend>, lo: int, width: int)
    requires forall i :: 0 <= i < |cs| ==> cs[i].at < lo
    ensures WindowSum(cs, lo, width) == 0.0
    decreases |cs|
  {
    if cs == [] {
    } else {
      WindowMissesOld(cs[1..], lo, width);
    }
  }

  /** The live part is a suffix, and everything before it is older than the cutoff. */
  lemma {:induction false} LiveIsSuffix(cs: seq<Spend>, cutoff: int) returns (k: nat)
    ensures k <= |cs| && Live(cs, cutoff) == cs[k..]
    ensures forall i :: 0 <= i < k ==> cs[i].at < cutoff
    ensures k < |cs| ==> cs[k].at >= cutoff
    decreases |cs|
  {
    if cs == [] || cs[0].at >= cutoff {
      return 0;
    }
    var j := LiveIsSuffix(cs[1..], cutoff);
    return j + 1;
  }

  /** Compacting first with an earlier cutoff makes no difference. */
  lemma {:induction false} LiveTwice(cs: seq<Spend>, c1: int, c2: int)
    requires c1 <= c2
    ensures Live(Live(cs, c1), c2) == Live(cs, c2)
    decreases |cs|
  {
    if cs != [] && cs[0].at < c1 {
      LiveTwice(cs[1..], c1, c2);
    }
  }

  /** As time passes the live sum only shrinks. */
  lemma {:induction false} LiveShrinks(cs: seq<Spend>, c1: int, c2: int)
    requires Chronological(cs) && c1 <= c2
    ensures Sum(Live(cs, c2)) <= Sum(Live(cs, c1))
    decreases |cs|
  {
    if cs == [] {
    } else {
      if cs[0].at < c1 {
        LiveShrinks(cs[1..], c1, c2);
      } else {
        var k := LiveIsSuffix(cs, c2);
        assert cs == cs[..k] + cs[k..];
        SumAppend(cs[..k], cs[k..]);
        SumNonNegative(cs[..k]);
      }
    }
  }

  /** One more charge never leaves more room. */
  lemma {:induction false} LiveGrows(cs: seq<Spend>, c: Spend, cutoff: int)
    requires c.usd >= 0.0
    ensures Sum(Live(cs + [c], cutoff)) >= Sum(Live(cs, cutoff))
    decreases |cs|
  {
    if cs == [] {
      assert cs + [c] == [c] && [c][1..] == [];
    } else if cs[0].at >= cutoff {
      SumAppend(cs, [c]);
      assert [c][1..] == [];
    } else {
      assert (cs + [c])[1..] == cs[1..] + [c];
      LiveGrows(cs[1..], c, cutoff);
    }
  }

  /** What counts at a time is what was charged in the interval that ends then. */
  lemma {:induction false} LiveIsWindow(cs: seq<Spend>, lo: int, width: int)
    requires Chronological(cs) && forall i :: 0 <= i < |cs| ==> cs[i].at <= lo + width
    ensures Sum(Live(cs, lo)) == WindowSum(cs, lo, width)
    decreases |cs|
  {
    if cs == [] {
    } else if cs[0].at < lo {
      LiveIsWindow(cs[1..], lo, width);
    } else {
      AllInWindow(cs, lo, width);
    }
  }

  lemma {:induction false} AllInWindow(cs: seq<Spend>, lo: int, width: int)
    requires forall i :: 0 <= i < |cs| ==> lo <= cs[i].at <= lo + width
    ensures Sum(cs) == WindowSum(cs, lo, width)
    decreases |cs|
  {
    if cs == [] {
    } else {
      AllInWindow(cs[1..], lo, width);
    }
  }

  // ----- one tenant

  /** The limit over every closed interval of the window's length. */
  ghost predicate Within(log: seq<Spend>, window: int, max: real) {
    forall lo :: WindowSum(log, lo, window) <= max
  }

  /**
   The admission step. Of the history since the limits were set, from start on, everything before cut is older
   than the window at t1; what is left sums to at most max - usd; the new charge is stamped t2, not before t1.
   Then no interval of the window's length exceeds max.
   */
  lemma AdmissionKeepsLimit(h: seq<Spend>, start: nat, cut: nat, window: int, max: real, t1: int, t2: int, usd: real)
    requires window > 0 && start <= |h| && cut <= |h| && Chronological(h) && t1 <= t2 && usd >= 0.0
    requires forall i :: start <= i < cut ==> h[i].at < t1 - window
    requires Sum(h[cut..]) + usd <= max
    requires Within(h[start..], window, max)
    ensures Within(h[start..] + [Spend(t2, usd)], window, max)
  {
    hide Sum, WindowSum;
    forall lo ensures WindowSum(h[start..] + [Spend(t2, usd)], lo, window) <= max {
      WindowSumAppend(h[start..], [Spend(t2, usd)], lo, window);
      WindowOfOne(Spend(t2, usd), lo, window);
      assert WindowSum(h[start..], lo, window) <= max;
      if lo <= t2 <= lo + window {
        WindowOfLive(h, start, cut, lo, window);
      }
    }
  }

  lemma WindowOfOne(c: Spend, lo: int, width: int)
    ensures WindowSum([c], lo, width) == if lo <= c.at <= lo + width then c.usd else 0.0
  {
    assert [c][1..] == [];
  }

  /** An interval that misses everything already dropped holds no more than what is still kept. */
  lemma WindowOfLive(h: seq<Spend>, start: nat, cut: nat, lo: int, width: int)
    requires start <= |h| && cut <= |h| && Chronological(h)
    requires forall i :: start <= i < cut ==> h[i].at < lo
    ensures WindowSum(h[start..], lo, width) <= Sum(h[cut..])
  {
    hide Sum, WindowSum;
    if start <= cut {
      assert h[start..] == h[start..cut] + h[cut..];
      WindowSumAppend(h[start..cut], h[cut..], lo, width);
      WindowMissesOld(h[start..cut], lo, width);
      WindowAtMostAll(h[cut..], lo, width);
    } else {
      assert h[cut..] == h[cut..start] + h[start..];
      SumAppend(h[cut..start], h[start..]);
      SumNonNegative(h[cut..start]);
      WindowAtMostAll(h[start..], lo, width);
    }
  }

  lemma EmptyWithin(window: int, max: real)
    requires max >= 0.0
    ensures Within([], window, max)
  {
  }

  /** The kept charges against the history they came from; see Tenant for the parts. */
  ghost predicate Consistent(kept: seq<Spend>, h: seq<Spend>, start: nat, cut: nat, window: int, max: real, now: int) {
    && window > 0 && Chronological(h)
    && cut <= |h| && start <= |h| && kept == h[cut..]
    && (forall i :: 0 <= i < |h| ==> h[i].at <= now)
    && (forall i :: start <= i < cut ==> h[i].at < now - window)
    && (max > 0.0 ==> Within(h[start..], window, max))
  }

  lemma TimeKeeps(
    kept: seq<Spend>, h: seq<Spend>, start: nat, cut: nat, window: int, max: real, t1: int, t2: int)
    requires Consistent(kept, h, start, cut, window, max, t1) && t1 <= t2
    ensures Consistent(kept, h, start, cut, window, max, t2)
  {
    hide Within;
  }

  lemma DroppingKeeps(
    kept: seq<Spend>, h: seq<Spend>, start: nat, cut: nat, window: int, max: real, now: int, i: nat)
    requires Consistent(kept, h, start, cut, window, max, now) && i <= |kept|
    requires forall j :: 0 <= j < i ==> kept[j].at < now - window
    ensures Consistent(kept[i..], h, start, cut + i, window, max, now)
  {
    hide Within;
    forall j | cut <= j < cut + i ensures h[j].at < now - window {
      assert kept[j - cut] == h[j];
    }
  }

  lemma RecordingKeeps(
    kept: seq<Spend>, h: seq<Spend>, start: nat, cut: nat, window: int, max: real, t1: int, t2: int, usd: real)
    requires Consistent(kept, h, start, cut, window, max, t1) && t1 <= t2 && usd >= 0.0
    requires max > 0.0 ==> Sum(kept) + usd <= max
    ensures Consistent(kept + [Spend(t2, usd)], h + [Spend(t2, usd)], start, cut, window, max, t2)
  {
    hide Within, Sum;
    var c := Spend(t2, usd);
    if max > 0.0 {
      AdmissionKeepsLimit(h, start, cut, window, max, t1, t2, usd);
    }
    assert (h + [c])[start..] == h[start..] + [c];
    assert (h + [c])[cut..] == h[cut..] + [c];
  }

  class Tenant {
    var maxUSD: real
    var windowMs: int
    var charges: seq<Spend>
    ghost var history: seq<Spend> // every charge recorded since the last reset
    ghost var cut: nat // how many of them have been dropped
    ghost var start: nat // how many were recorded before the limits were last set

    constructor (maxUSD: real, windowMs: int)
      requires windowMs > 0
      ensures this.maxUSD == maxUSD && this.windowMs == windowMs && charges == [] && history == [] && start == 0
      ensures forall now :: Valid(now)
    {
      this.maxUSD, this.windowMs := maxUSD, windowMs;
      charges, history, cut, start := [], [], 0, 0;
      new;
      if maxUSD > 0.0 {
        EmptyWithin(windowMs, maxUSD);
      }
    }

    ghost predicate Valid(now: int)
      reads this
    {
      Consistent(charges, history, start, cut, windowMs, maxUSD, now)
    }

    /** Every charge recorded since the limits were last set or the tenant reset. */
    ghost function Log(): seq<Spend>
      reads this
      requires start <= |history|
    {
      history[start..]
    }

    /** What counts against the budget at a given time. */
    ghost function Used(now: int): real
      reads this
    {
      Sum(Live(charges, now - windowMs))
    }

    /**
     What counts is at least what has been charged in the window ending at that time since the limits were set, and at
     most what has been charged in it in all; with the first limits still in force, exactly that.
     */
    lemma UsedIsWindow(now: int, t: int)
      requires Valid(now) && now <= t
      ensures WindowSum(Log(), t - windowMs, windowMs) <= Used(t)
      ensures Used(t) <= WindowSum(history, t - windowMs, windowMs)
      ensures start == 0 ==> Used(t) == WindowSum(history, t - windowMs, windowMs)
    {
      hide Within, Sum, Live, WindowSum;
      var lo := t - windowMs;
      LiveIsWindow(charges, lo, windowMs);
      var dropped, kept := history[..cut], history[cut..];
      assert history == dropped + kept;
      WindowSumAppend(dropped, kept, lo, windowMs);
      WindowNonNegative(dropped, lo, windowMs);
      if start <= cut {
        assert Log() == history[start..cut] + kept;
        WindowSumAppend(history[start..cut], kept, lo, windowMs);
        WindowMissesOld(history[start..cut], lo, windowMs);
        assert start == 0 ==> history[start..cut] == dropped;
      } else {
        assert kept == history[cut..start] + Log();
        WindowSumAppend(history[cut..start], Log(), lo, windowMs);
        WindowNonNegative(history[cut..start], lo, windowMs);
      }
    }

    /** The decision shared by Peek and Charge. */
    ghost predicate Affordable(now: int, usd: real)
      reads this
    {
      usd >= 0.0 && (maxUSD > 0.0 ==> Used(now) + usd <= maxUSD)
    }

    lemma StaysValid(t1: int, t2: int)
      requires Valid(t1) && t1 <= t2
      ensures Valid(t2)
    {
      TimeKeeps(charges, history, start, cut, windowMs, maxUSD, t1, t2);
    }

    /** Time passing never makes an affordable charge unaffordable. */
    lemma StaysAffordable(t1: int, t2: int, usd: real)
      requires Valid(t1) && t1 <= t2 && Affordable(t1, usd)
      ensures Affordable(t2, usd)
    {
      hide Within, Sum, Live;
      LiveShrinks(charges, t1 - windowMs, t2 - windowMs);
    }

    /** Drop the charges older than the window. */
    method Compact(clock: Clock) returns (ghost t: int)
      requires Valid(clock.now)
      modifies this`charges, this`cut, clock
      ensures t == clock.now >= old(clock.now) && Valid(t)
      ensures charges == Live(old(charges), t - windowMs)
    {
      hide Consistent, Sum;
      var now := clock.Read();
      StaysValid(old(clock.now), now);
      var cutoff := now - windowMs;
      var i: nat := 0;
      while i < |charges| && charges[i].at < cutoff
        invariant i <= |charges| && Live(charges, cutoff) == Live(charges[i..], cutoff)
        invariant forall j :: 0 <= j < i ==> charges[j].at < cutoff
      {
        assert charges[i..][1..] == charges[i + 1..];
        i := i + 1;
      }
      assert Live(charges[i..], cutoff) == charges[i..];
      if i > 0 {
        DroppingKeeps(charges, history, start, cut, windowMs, maxUSD, now, i);
        charges, cut := charges[i..], cut + i;
      }
      t := now;
    }

    method Spent() returns (sum: real)
      ensures sum == Sum(charges)
    {
      sum := 0.0;
      assert charges[..|charges|] == charges;
      for i := 0 to |charges|
        invariant sum == Sum(charges[..i])
      {
        assert charges[..i + 1] == charges[..i] + [charges[i]];
        SumAppend(charges[..i], [charges[i]]);
        assert [charges[i]][1..] == [];
        sum := sum + charges[i].usd;
      }
    }

    /**
     Record a charge if the budget allows it; nothing is recorded otherwise. A charge that is refused would have put
     the window ending at the time of the decision above the budget.
     */
    method Charge(clock: Clock, usd: real) returns (allowed: bool, remaining: real, ghost t: int)
      requires Valid(clock.now) && usd >= 0.0
      modifies this`charges, this`cut, this`history, clock
      ensures old(clock.now) <= t <= clock.now && Valid(clock.now)
      ensures allowed <==> old(Affordable(t, usd))
      ensures !allowed ==> maxUSD > 0.0 && old(WindowSum(history, t - windowMs, windowMs)) + usd > maxUSD
      ensures allowed && maxUSD > 0.0 ==> old(WindowSum(Log(), t - windowMs, windowMs)) + usd <= maxUSD
      ensures !allowed ==> history == old(history)
      ensures allowed ==> history == old(history) + [Spend(clock.now, usd)]
      ensures remaining == maxUSD - old(Used(t)) - if allowed then usd else 0.0
      ensures forall u :: u >= clock.now ==> Used(u) >= old(Used(u)) && (!allowed ==> Used(u) == old(Used(u)))
    {
      hide Sum, Live, WindowSum, Within;
      forall u | u >= clock.now
        ensures WindowSum(Log(), u - windowMs, windowMs) <= Used(u) <= WindowSum(history, u - windowMs, windowMs)
      {
        UsedIsWindow(clock.now, u);
      }
      hide Consistent;
      t := Compact(clock);
      forall u | u >= t ensures Used(u) == old(Used(u)) {
        LiveTwice(old(charges), t - windowMs, u - windowMs);
      }
      ghost var left := charges;
      var used := Spent();
      if maxUSD > 0.0 && used + usd > maxUSD {
        return false, maxUSD - used, t;
      }
      var now := clock.Read();
      RecordingKeeps(charges, history, start, cut, windowMs, maxUSD, t, now, usd);
      var c := Spend(now, usd);
      charges, history := charges + [c], history + [c];
      forall u | u >= now ensures Used(u) >= old(Used(u)) {
        LiveGrows(left, c, u - windowMs);
      }
      return true, maxUSD - (used + usd), t;
    }

    /** Whether a charge would be allowed now; records nothing. */
    method Peek(clock: Clock, usd: real) returns (allowed: bool, remaining: real, ghost t: int)
      requires Valid(clock.now) && usd >= 0.0
      modifies this`charges, this`cut, clock
      ensures t == clock.now >= old(clock.now) && Valid(t)
      ensures allowed <==> old(Affordable(t, usd))
      ensures allowed <==> Affordable(t, usd)
      ensures forall u :: u >= t ==> Affordable(u, usd) == old(Affordable(u, usd))
      ensures remaining == maxUSD - old(Used(t)) - if allowed then usd else 0.0
    {
      hide Consistent, Sum, Live;
      t := Compact(clock);
      forall u | u >= t ensures Affordable(u, usd) == old(Affordable(u, usd)) {
        LiveTwice(old(charges), t - windowMs, u - windowMs);
      }
      var used := Spent();
      if maxUSD > 0.0 && used + usd > maxUSD {
        return false, maxUSD - used, t;
      }
      return true, maxUSD - (used + usd), t;
    }

    /** Change the limits; the log, and with it the guarantee, starts afresh. */
    method SetLimits(maxUSD: real, windowMs: int, ghost now: int)
      requires Valid(now) && windowMs > 0
      modifies this`maxUSD, this`windowMs, this`start, this`cut, this`history
      ensures Valid(now) && this.maxUSD == maxUSD && this.windowMs == windowMs && Log() == []
    {
      this.maxUSD, this.windowMs := maxUSD, windowMs;
      start := |history|;
      if maxUSD > 0.0 {
        EmptyWithin(windowMs, maxUSD);
      }
    }

    method Reset(ghost now: int)
      requires Valid(now)
      modifies this`charges, this`history, this`cut, this`start
      ensures Valid(now) && charges == [] && history == []
    {
      charges, history, cut, start := [], [], 0, 0;
      if maxUSD > 0.0 {
        EmptyWithin(windowMs, maxUSD);
      }
    }
  }

  // ----- every tenant

  class CostBudgets {
    var tenants: map<string, Tenant>

    constructor ()
      ensures tenants == map[] && forall now :: Valid(now)
    {
      tenants := map[];
    }

    ghost predicate Valid(now: int)
      reads this, tenants.Values
    {
      && (forall a, b :: a in tenants && b in tenants && a != b ==> tenants[a] != tenants[b])
      && (forall n :: n in tenants ==> tenants[n].Valid(now))
    }

    /** A tenant without a budget may spend anything that is not negative. */
    ghost predicate Affordable(name: string, now: int, usd: real)
      reads this, tenants.Values
    {
      usd >= 0.0 && (name in tenants ==> tenants[name].Affordable(now, usd))
    }

    /** Everything recorded, tenant by tenant. */
    ghost function Histories(): map<string, seq<Spend>>
      reads this, tenants.Values
    {
      map n | n in tenants :: tenants[n].history
    }

    /** The whole-run guarantee, for any interval as long as the tenant's window. */
    lemma NoWindowOverspends(now: int, name: string, lo: int)
      requires Valid(now) && name in tenants && tenants[name].maxUSD > 0.0
      ensures WindowSum(tenants[name].Log(), lo, tenants[name].windowMs) <= tenants[name].maxUSD
    {
    }

    lemma StaysValid(t1: int, t2: int)
      requires Valid(t1) && t1 <= t2
      ensures Valid(t2)
    {
      forall n | n in tenants ensures tenants[n].Valid(t2) {
        tenants[n].StaysValid(t1, t2);
      }
    }

    lemma StaysAffordable(t1: int, t2: int, name: string, usd: real)
      requires Valid(t1) && t1 <= t2 && Affordable(name, t1, usd)
      ensures Affordable(name, t2, usd)
    {
      if name in tenants {
        tenants[name].StaysAffordable(t1, t2, usd);
      }
    }

    method SetBudget(name: string, maxUSD: real, windowMs: int, ghost now: int) returns (ok: bool)
      requires Valid(now)
      modifies this, tenants.Values
      ensures Valid(now) && (ok <==> windowMs > 0)
      ensures !ok ==> tenants == old(tenants) && forall n :: n in tenants ==> unchanged(tenants[n])
      ensures ok ==> tenants.Keys == old(tenants.Keys) + {name}
      ensures ok && name in old(tenants) ==>
        tenants[name] == old(tenants[name]) && tenants[name].charges == old(tenants[name].charges)
      ensures ok && name !in old(tenants) ==> fresh(tenants[name]) && tenants[name].charges == []
      ensures ok ==> tenants[name].maxUSD == maxUSD && tenants[name].windowMs == windowMs && tenants[name].Log() == []
      ensures forall n :: n in old(tenants) && n != name ==> tenants[n] == old(tenants[n]) && unchanged(tenants[n])
    {
      hide Consistent;
      if windowMs <= 0 {
        return false;
      }
      if name in tenants {
        tenants[name].SetLimits(maxUSD, windowMs, now);
      } else {
        var t := new Tenant(maxUSD, windowMs);
        tenants := tenants[name := t];
      }
      return true;
    }

    /**
     Record a charge if the tenant's budget allows it; nothing is recorded otherwise. A charge that is refused is
     negative, or would have put the window ending at the time of the decision above the budget.
     */
    method Charge(clock: Clock, name: string, usd: real)
      returns (allowed: bool, remaining: real, failed: bool, ghost t: int)
      requires Valid(clock.now)
      modifies tenants.Values`charges, tenants.Values`cut, tenants.Values`history, clock
      ensures old(clock.now) <= t <= clock.now && Valid(clock.now)
      ensures failed <==> usd < 0.0
      ensures allowed <==> old(Affordable(name, t, usd))
      ensures !allowed && usd >= 0.0 ==>
        && name in tenants && tenants[name].maxUSD > 0.0
        && old(WindowSum(tenants[name].history, t - tenants[name].windowMs, tenants[name].windowMs)) + usd
             > tenants[name].maxUSD
      ensures remaining == if usd < 0.0 || name !in tenants then 0.0
        else tenants[name].maxUSD - old(tenants[name].Used(t)) - if allowed then usd else 0.0
      ensures old(Affordable(name, clock.now, usd)) ==> allowed
      ensures forall n :: n in tenants ==>
          tenants[n].history
            == old(tenants[n].history) + if n == name && allowed then [Spend(clock.now, usd)] else []
      ensures forall n, u, x :: u >= clock.now && Affordable(n, u, x) ==> old(Affordable(n, u, x))
      ensures !allowed ==> forall u :: u >= clock.now ==> Affordable(name, u, usd) == old(Affordable(name, u, usd))
    {
      hide Consistent, Sum, Live;
      forall u | u >= clock.now && Affordable(name, clock.now, usd) ensures Affordable(name, u, usd) {
        StaysAffordable(clock.now, u, name, usd);
      }
      if usd < 0.0 {
        return false, 0.0, true, clock.now;
      }
      failed := false;
      if name !in tenants {
        return true, 0.0, false, clock.now;
      }
      allowed, remaining, t := tenants[name].Charge(clock, usd);
      forall n | n in tenants && n != name ensures tenants[n].Valid(clock.now) {
        tenants[n].StaysValid(old(clock.now), clock.now);
      }
    }

    /** Whether a charge would be allowed now; records nothing. */
    method Peek(clock: Clock, name: string, usd: real)
      returns (allowed: bool, remaining: real, hasBudget: bool, ghost t: int)
      requires Valid(clock.now)
      modifies tenants.Values`charges, tenants.Values`cut, clock
      ensures t == clock.now >= old(clock.now) && Valid(t)
      ensures allowed <==> old(Affordable(name, t, usd))
      ensures remaining == if usd < 0.0 || name !in tenants then 0.0
        else tenants[name].maxUSD - old(tenants[name].Used(t)) - if allowed then usd else 0.0
      ensures old(Affordable(name, clock.now, usd)) ==> allowed
      ensures allowed <==> Affordable(name, t, usd)
      ensures forall u :: u >= t ==> Affordable(name, u, usd) == old(Affordable(name, u, usd))
      ensures hasBudget <==> usd >= 0.0 && name in tenants
    {
      hide Consistent, Sum, Live;
      forall u | u >= clock.now && Affordable(name, clock.now, usd) ensures Affordable(name, u, usd) {
        StaysAffordable(clock.now, u, name, usd);
      }
      if usd < 0.0 {
        return false, 0.0, false, clock.now;
      }
      if name !in tenants {
        return true, 0.0, false, clock.now;
      }
      allowed, remaining, t := tenants[name].Peek(clock, usd);
      hasBudget := true;
      forall n | n in tenants && n != name ensures tenants[n].Valid(t) {
        tenants[n].StaysValid(old(clock.now), t);
      }
    }

    /** Forget what a tenant has spent; its limits stay. */
    method Reset(name: string, ghost now: int) returns (found: bool)
      requires Valid(now)
      modifies tenants.Values`charges, tenants.Values`history, tenants.Values`cut, tenants.Values`start
      ensures Valid(now) && (found <==> name in tenants)
      ensures forall n :: n in tenants ==> if n == name then tenants[n].history == [] else unchanged(tenants[n])
    {
      hide Consistent;
      if name !in tenants {
        return false;
      }
      tenants[name].Reset(now);
      return true;
    }
  }
}
