/**
 The registry that holds the replicated data types: entries are objects updated in place, and merging walks the
 source entry's maps in whatever order they come. Each operation is proved to be one step of module Crdt's runs.
 */
module CrdtRegistry {
  import opened Clocks
  import Crdt

  datatype Kind = GCounter | PNCounter | ORSet | LWWRegister

  datatype Outcome<T> = Ok(value: T) | Unknown | KindMismatch | BadDelta

  class Entry {
    const kind: Kind
    var pos: map<string, nat>
    var neg: map<string, nat>
    var orset: map<string, set<Crdt.Tag>>
    var orseq: map<string, nat>
    var lwwValue: string
    var lwwTS: int
    var lwwActor: string

    constructor (kind: Kind)
      ensures this.kind == kind && View() == EmptyOf(kind)
    {
      this.kind := kind;
      pos, neg, orset, orseq := map[], map[], map[], map[];
      lwwValue, lwwTS, lwwActor := "", 0, "";
    }

    function View(): Crdt.State
      reads this
    {
      match kind
      case GCounter => Crdt.GCounter(pos)
      case PNCounter => Crdt.PNCounter(pos, neg)
      case ORSet => Crdt.ORSet(orset)
      case LWWRegister => Crdt.LWWRegister(lwwValue, lwwTS, lwwActor)
    }
  }

  function EmptyOf(kind: Kind): Crdt.State {
    match kind
    case GCounter => Crdt.GCounter(map[])
    case PNCounter => Crdt.PNCounter(map[], map[])
    case ORSet => Crdt.ORSet(map[])
    case LWWRegister => Crdt.EMPTY_REGISTER
  }

  predicate IsKind(x: Crdt.State, kind: Kind) {
    match kind
    case GCounter => x.GCounter?
    case PNCounter => x.PNCounter?
    case ORSet => x.ORSet?
    case LWWRegister => x.LWWRegister?
  }

  /** Finding or making the entry and then giving it its new value is one step of a run. */
  lemma OneStep(v: Crdt.Registry, op: Crdt.Op, mid: Crdt.Registry, x: Crdt.State, after: Crdt.Registry, y: Crdt.State)
    requires Crdt.Accepted(v, op) && y == Crdt.Result(v, op)
    requires mid == v[op.key := x] && after == mid[op.key := y]
    ensures after == Crdt.Apply(v, op)
  {
    hide Crdt.Accepted, Crdt.Result;
  }

  lemma NoStep(v: Crdt.Registry, op: Crdt.Op)
    requires !Crdt.Accepted(v, op)
    ensures Crdt.Apply(v, op) == v
  {
  }

  // ----- walking maps in any order

  /** The join restricted to the source keys visited so far. */
  ghost predicate JoinedUpTo(r: map<string, nat>, d: map<string, nat>, s: map<string, nat>, todo: set<string>) {
    r == Crdt.JoinSlots(d, map a | a in s && a !in todo :: s[a])
  }

  lemma JoinStarts(d: map<string, nat>, s: map<string, nat>)
    ensures JoinedUpTo(d, d, s, s.Keys)
  {
  }

  lemma JoinVisits(r: map<string, nat>, d: map<string, nat>, s: map<string, nat>, todo: set<string>, a: string)
    requires JoinedUpTo(r, d, s, todo) && a in todo && a in s
    ensures Crdt.Slot(r, a) == Crdt.Slot(d, a)
    ensures JoinedUpTo(if s[a] > Crdt.Slot(r, a) then r[a := s[a]] else r, d, s, todo - {a})
  {
  }

  lemma JoinEnds(r: map<string, nat>, d: map<string, nat>, s: map<string, nat>)
    requires JoinedUpTo(r, d, s, {})
    ensures r == Crdt.JoinSlots(d, s)
  {
    assert (map a | a in s && a !in {} :: s[a]) == s;
  }

  type TagMap = map<string, set<Crdt.Tag>>

  function Visited(s: TagMap, todo: set<string>): TagMap {
    map e | e in s && e !in todo :: s[e]
  }

  ghost predicate TagsJoinedUpTo(r: TagMap, d: TagMap, s: TagMap, todo: set<string>) {
    r == Crdt.JoinTags(d, Visited(s, todo))
  }

  lemma TagsStart(d: TagMap, s: TagMap)
    ensures TagsJoinedUpTo(d, d, s, s.Keys)
  {
    assert Visited(s, s.Keys) == map[];
    assert forall e :: e in d ==> d[e] + {} == d[e];
  }

  lemma TagsVisit(r: TagMap, d: TagMap, s: TagMap, todo: set<string>, e: string)
    requires TagsJoinedUpTo(r, d, s, todo) && e in todo && e in s
    ensures Crdt.TagsOf(r, e) == Crdt.TagsOf(d, e)
    ensures TagsJoinedUpTo(r[e := Crdt.TagsOf(r, e) + s[e]], d, s, todo - {e})
  {
  }

  lemma TagsEnd(r: TagMap, d: TagMap, s: TagMap)
    requires TagsJoinedUpTo(r, d, s, {})
    ensures r == Crdt.JoinTags(d, s)
  {
    assert Visited(s, {}) == s;
  }

  /** Add up a map's values in the order they come. */
  method SumOf(m: map<string, nat>) returns (sum: nat)
    ensures sum == Crdt.Sum(m)
  {
    hide Crdt.Sum;
    sum := 0;
    var todo := m.Keys;
    ghost var rest := m;
    while todo != {}
      invariant todo <= m.Keys && rest.Keys == todo && forall a :: a in todo ==> rest[a] == m[a]
      invariant sum + Crdt.Sum(rest) == Crdt.Sum(m)
      decreases |todo|
    {
      var a :| a in todo;
      Crdt.SumTakes(rest, a);
      sum, todo, rest := sum + m[a], todo - {a}, rest - {a};
    }
    assert rest == map[];
    SumOfNothing();
  }

  lemma SumOfNothing()
    ensures Crdt.Sum(map[]) == 0
  {
  }

  class Registry {
    var entries: map<string, Entry>

    constructor ()
      ensures Valid() && View() == map[]
    {
      entries := map[];
    }

    /** No two keys share an entry. */
    ghost predicate Valid()
      reads this
    {
      forall j, k :: j in entries && k in entries && j != k ==> entries[j] != entries[k]
    }

    ghost function View(): map<string, Crdt.State>
      reads this, entries.Values
    {
      map k | k in entries :: entries[k].View()
    }

    twostate lemma OnlyOneChanged(key: string)
      requires Valid() && key in entries && entries == old(entries)
      requires forall k :: k in entries && k != key ==> entries[k].View() == old(entries[k].View())
      ensures View() == old(View())[key := entries[key].View()]
    {
    }

    /** The entry under a key, made if there is none; an entry of another kind is refused. */
    method GetOrCreate(key: string, kind: Kind) returns (r: Outcome<Entry>)
      requires Valid()
      modifies this
      ensures Valid() && (r.Ok? || r.KindMismatch?)
      ensures r.Ok? <==> IsKind(Crdt.Entry(old(View()), key, EmptyOf(kind)), kind)
      ensures r.Ok? ==> key in entries && entries[key] == r.value && r.value.kind == kind
      ensures r.Ok? ==> r.value.View() == Crdt.Entry(old(View()), key, EmptyOf(kind))
      ensures r.Ok? ==> if key in old(entries) then r.value == old(entries[key]) else fresh(r.value)
      ensures r.Ok? && key !in old(entries) ==> r.value.View() == EmptyOf(kind)
      ensures r.KindMismatch? <==> key in old(entries) && old(entries[key]).kind != kind
      ensures View() == if r.Ok? then old(View())[key := r.value.View()] else old(View())
      ensures entries == if r.Ok? then old(entries)[key := r.value] else old(entries)
    {
      if key in entries {
        if entries[key].kind != kind {
          return KindMismatch;
        }
        return Ok(entries[key]);
      }
      var e := new Entry(kind);
      entries := entries[key := e];
      return Ok(e);
    }

    /** Advance an actor's slot; the answer is the counter's new sum. */
    method GIncr(key: string, actor: string, delta: int) returns (r: Outcome<int>)
      requires Valid()
      modifies this, entries.Values
      ensures Valid() && View() == Crdt.Apply(old(View()), Crdt.GIncr(key, actor, delta))
      ensures r.Ok? <==> Crdt.Accepted(old(View()), Crdt.GIncr(key, actor, delta))
      ensures (r.BadDelta? <==> delta < 0) && !r.Unknown?
      ensures r.KindMismatch? <==> delta >= 0 && key in old(entries) && old(entries[key]).kind != GCounter
      ensures r.Ok? ==>
        var pos0 := if key in old(entries) then old(entries[key].pos) else map[];
        && key in entries && entries[key].kind == GCounter && r.value == Crdt.Sum(entries[key].pos)
        && entries[key].pos == pos0[actor := delta + if actor in pos0 then pos0[actor] else 0]
    {
      hide Registry.View, Crdt.Sum, Crdt.Apply;
      ghost var v := View();
      if delta < 0 {
        NoStep(v, Crdt.GIncr(key, actor, delta));
        return BadDelta;
      }
      var g := GetOrCreate(key, GCounter);
      if !g.Ok? {
        NoStep(v, Crdt.GIncr(key, actor, delta));
        return KindMismatch;
      }
      var e := g.value;
      ghost var mid, was := View(), e.View();
      label found:
      e.pos := e.pos[actor := Crdt.Slot(e.pos, actor) + delta];
      OnlyOneChanged@found(key);
      OneStep(v, Crdt.GIncr(key, actor, delta), mid, was, View(), e.View());
      var sum := SumOf(e.pos);
      return Ok(sum);
    }

    /** Advance the rising or the falling slot of an actor. */
    method PNIncr(key: string, actor: string, delta: int) returns (r: Outcome<int>)
      requires Valid()
      modifies this, entries.Values
      ensures Valid() && View() == Crdt.Apply(old(View()), Crdt.PNIncr(key, actor, delta))
      ensures r.Ok? <==> Crdt.Accepted(old(View()), Crdt.PNIncr(key, actor, delta))
      ensures r.Ok? || (r.KindMismatch? && key in old(entries) && old(entries[key]).kind != PNCounter)
      ensures r.Ok? ==>
        var pos0 := if key in old(entries) then old(entries[key].pos) else map[];
        var neg0 := if key in old(entries) then old(entries[key].neg) else map[];
        && key in entries && entries[key].kind == PNCounter
        && entries[key].pos ==
             (if delta < 0 then pos0 else pos0[actor := delta + if actor in pos0 then pos0[actor] else 0])
        && entries[key].neg ==
             (if delta >= 0 then neg0 else neg0[actor := -delta + if actor in neg0 then neg0[actor] else 0])
        && r.value == Crdt.Sum(entries[key].pos) - Crdt.Sum(entries[key].neg)
    {
      hide Registry.View, Crdt.Sum, Crdt.Apply;
      ghost var v := View();
      var g := GetOrCreate(key, PNCounter);
      if !g.Ok? {
        NoStep(v, Crdt.PNIncr(key, actor, delta));
        return KindMismatch;
      }
      var e := g.value;
      ghost var mid, was := View(), e.View();
      label found:
      if delta >= 0 {
        e.pos := e.pos[actor := Crdt.Slot(e.pos, actor) + delta];
      } else {
        e.neg := e.neg[actor := Crdt.Slot(e.neg, actor) + -delta];
      }
      OnlyOneChanged@found(key);
      OneStep(v, Crdt.PNIncr(key, actor, delta), mid, was, View(), e.View());
      var p: int := SumOf(e.pos);
      var n: int := SumOf(e.neg);
      return Ok(p - n);
    }

    /** Add a member under a new tag; the answer is how many tags it now has. */
    method SAdd(key: string, actor: string, member: string, clock: Clock) returns (r: Outcome<nat>, ghost tag: Crdt.Tag)
      requires Valid()
      modifies this, entries.Values, clock
      ensures Valid() && View() == Crdt.Apply(old(View()), Crdt.SAdd(key, member, tag))
      ensures r.Ok? <==> Crdt.Accepted(old(View()), Crdt.SAdd(key, member, tag))
      ensures r.Ok? || (r.KindMismatch? && key in old(entries) && old(entries[key]).kind != ORSet)
      ensures r.Ok? ==> tag.at == clock.now && tag.number == Crdt.Slot(entries[key].orseq, actor)
      ensures r.Ok? && key in old(entries) ==> tag.number == old(Crdt.Slot(entries[key].orseq, actor)) + 1
      ensures r.Ok? ==> tag.actor == actor && Crdt.Member(View()[key], member) && r.value == |View()[key].tags[member]|
    {
      hide Registry.View, Crdt.Sum, Crdt.Apply;
      ghost var v := View();
      tag := Crdt.Tag(actor, 0, 0);
      var g := GetOrCreate(key, ORSet);
      if !g.Ok? {
        NoStep(v, Crdt.SAdd(key, member, tag));
        return KindMismatch, tag;
      }
      var e := g.value;
      ghost var mid, was := View(), e.View();
      label found:
      var tags := Crdt.TagsOf(e.orset, member);
      var number := Crdt.Slot(e.orseq, actor) + 1;
      e.orseq := e.orseq[actor := number];
      var now := clock.Read();
      var minted := Crdt.Tag(actor, number, now);
      tags := tags + {minted};
      e.orset := e.orset[member := tags];
      OnlyOneChanged@found(key);
      OneStep(v, Crdt.SAdd(key, member, minted), mid, was, View(), e.View());
      return Ok(|tags|), minted;
    }

    /** Drop a member with every tag it has here; the answer is how many those were. */
    method SRem(key: string, member: string) returns (r: Outcome<nat>)
      requires Valid()
      modifies entries.Values
      ensures Valid() && View() == Crdt.Apply(old(View()), Crdt.SRem(key, member))
      ensures r.Ok? <==> Crdt.Accepted(old(View()), Crdt.SRem(key, member))
      ensures r.Unknown? <==> key !in old(entries)
      ensures r.KindMismatch? <==> key in old(entries) && old(entries[key]).kind != ORSet
      ensures r.Ok? ==> r.value == |Crdt.TagsOf(old(View())[key].tags, member)| && !Crdt.Member(View()[key], member)
    {
      if key !in entries {
        return Unknown;
      }
      var e := entries[key];
      if e.kind != ORSet {
        return KindMismatch;
      }
      if member !in e.orset {
        assert e.orset - {member} == e.orset;
        assert View() == Crdt.Apply(View(), Crdt.SRem(key, member));
        return Ok(0);
      }
      var n := |e.orset[member]|;
      e.orset := e.orset - {member};
      return Ok(n);
    }

    /** Write a register, unless what it holds is as new or newer. A zero time means now. */
    method LWWSet(key: string, actor: string, value: string, ts: int, clock: Clock)
      returns (r: Outcome<()>, ghost stamp: int)
      requires Valid()
      modifies this, entries.Values, clock
      ensures stamp == if ts == 0 then clock.now else ts
      ensures Valid() && View() == Crdt.Apply(old(View()), Crdt.LWWSet(key, actor, value, stamp))
      ensures r.Ok? <==> Crdt.Accepted(old(View()), Crdt.LWWSet(key, actor, value, stamp))
      ensures r.Ok? || (r.KindMismatch? && key in old(entries) && old(entries[key]).kind != LWWRegister)
      ensures r.Ok? ==>
        var ts0 := if key in old(entries) then old(entries[key].lwwTS) else 0;
        var actor0 := if key in old(entries) then old(entries[key].lwwActor) else "";
        var value0 := if key in old(entries) then old(entries[key].lwwValue) else "";
        && key in entries && entries[key].kind == LWWRegister
        && (stamp > ts0 || (stamp == ts0 && Crdt.Precedes(actor0, actor)) ==>
             entries[key].lwwValue == value && entries[key].lwwTS == stamp && entries[key].lwwActor == actor)
        && (stamp < ts0 || (stamp == ts0 && !Crdt.Precedes(actor0, actor)) ==>
             entries[key].lwwValue == value0 && entries[key].lwwTS == ts0 && entries[key].lwwActor == actor0)
    {
      hide Registry.View, Crdt.Sum, Crdt.Apply, Crdt.Less, Crdt.Precedes;
      ghost var v := View();
      var t := ts;
      if t == 0 {
        t := clock.Read();
      }
      stamp := t;
      var g := GetOrCreate(key, LWWRegister);
      if !g.Ok? {
        NoStep(v, Crdt.LWWSet(key, actor, value, t));
        return KindMismatch, t;
      }
      var e := g.value;
      ghost var mid, was := View(), e.View();
      label found:
      Crdt.LessMeans(e.lwwActor, actor);
      if t > e.lwwTS || (t == e.lwwTS && Crdt.Less(e.lwwActor, actor)) {
        e.lwwValue, e.lwwTS, e.lwwActor := value, t, actor;
      }
      OnlyOneChanged@found(key);
      OneStep(v, Crdt.LWWSet(key, actor, value, t), mid, was, View(), e.View());
      return Ok(()), t;
    }

    /** Merge one entry into another of the same kind; the two may be the same entry. */
    method Merge(dst: string, src: string) returns (r: Outcome<()>)
      requires Valid()
      modifies entries.Values
      ensures Valid() && View() == Crdt.Apply(old(View()), Crdt.Merge(dst, src))
      ensures r.Ok? <==> Crdt.Accepted(old(View()), Crdt.Merge(dst, src))
      ensures r.Unknown? <==> dst !in old(entries) || src !in old(entries)
      ensures r.KindMismatch? ==> old(entries[dst]).kind != old(entries[src]).kind
      ensures r.Ok? ==> old(entries[dst]).kind == old(entries[src]).kind
      ensures r.Ok? && old(entries[dst]).kind == LWWRegister ==>
        var ts, actor := old(entries[src].lwwTS), old(entries[src].lwwActor);
        var ts0, actor0 := old(entries[dst].lwwTS), old(entries[dst].lwwActor);
        && (ts > ts0 || (ts == ts0 && Crdt.Precedes(actor0, actor)) ==>
             entries[dst].lwwTS == ts && entries[dst].lwwActor == actor
             && entries[dst].lwwValue == old(entries[src].lwwValue))
        && (ts < ts0 || (ts == ts0 && !Crdt.Precedes(actor0, actor)) ==>
             entries[dst].lwwTS == ts0 && entries[dst].lwwActor == actor0
             && entries[dst].lwwValue == old(entries[dst].lwwValue))
    {
      if dst !in entries || src !in entries {
        return Unknown;
      }
      var d, s := entries[dst], entries[src];
      if d.kind != s.kind {
        return KindMismatch;
      }
      label found:
      match d.kind {
        case GCounter =>
          MergePos(d, s);
        case PNCounter =>
          MergePos(d, s);
          MergeNeg(d, s);
        case ORSet =>
          MergeTags(d, s);
        case LWWRegister =>
          Crdt.LessMeans(d.lwwActor, s.lwwActor);
          if s.lwwTS > d.lwwTS || (s.lwwTS == d.lwwTS && Crdt.Less(d.lwwActor, s.lwwActor)) {
            d.lwwValue, d.lwwTS, d.lwwActor := s.lwwValue, s.lwwTS, s.lwwActor;
          }
      }
      OnlyOneChanged@found(dst);
      return Ok(());
    }

    method MergePos(d: Entry, s: Entry)
      modifies d`pos
      ensures d.pos == Crdt.JoinSlots(old(d.pos), old(s.pos))
    {
      hide Crdt.JoinSlots, JoinedUpTo;
      ghost var d0, s0 := d.pos, s.pos;
      var todo := s.pos.Keys;
      JoinStarts(d0, s0);
      while todo != {}
        invariant todo <= s0.Keys && s.pos == if s == d then d.pos else s0
        invariant s == d ==> d.pos == d0
        invariant JoinedUpTo(d.pos, d0, s0, todo)
        decreases |todo|
      {
        var a :| a in todo;
        JoinVisits(d.pos, d0, s0, todo, a);
        if s.pos[a] > Crdt.Slot(d.pos, a) {
          d.pos := d.pos[a := s.pos[a]];
        }
        todo := todo - {a};
      }
      JoinEnds(d.pos, d0, s0);
    }

    method MergeNeg(d: Entry, s: Entry)
      modifies d`neg
      ensures d.neg == Crdt.JoinSlots(old(d.neg), old(s.neg))
    {
      hide Crdt.JoinSlots, JoinedUpTo;
      ghost var d0, s0 := d.neg, s.neg;
      var todo := s.neg.Keys;
      JoinStarts(d0, s0);
      while todo != {}
        invariant todo <= s0.Keys && s.neg == if s == d then d.neg else s0
        invariant s == d ==> d.neg == d0
        invariant JoinedUpTo(d.neg, d0, s0, todo)
        decreases |todo|
      {
        var a :| a in todo;
        JoinVisits(d.neg, d0, s0, todo, a);
        if s.neg[a] > Crdt.Slot(d.neg, a) {
          d.neg := d.neg[a := s.neg[a]];
        }
        todo := todo - {a};
      }
      JoinEnds(d.neg, d0, s0);
    }

    method MergeTags(d: Entry, s: Entry)
      modifies d`orset
      ensures d.orset == Crdt.JoinTags(old(d.orset), old(s.orset))
    {
      hide Crdt.JoinTags, TagsJoinedUpTo;
      ghost var d0, s0 := d.orset, s.orset;
      var todo := s.orset.Keys;
      TagsStart(d0, s0);
      while todo != {}
        invariant todo <= s0.Keys && s.orset == if s == d then d.orset else s0
        invariant s == d ==> d.orset == d0
        invariant TagsJoinedUpTo(d.orset, d0, s0, todo)
        decreases |todo|
      {
        var e :| e in todo;
        TagsVisit(d.orset, d0, s0, todo, e);
        assert s == d ==> Crdt.TagsOf(d0, e) + s0[e] == d0[e];
        d.orset := d.orset[e := Crdt.TagsOf(d.orset, e) + s.orset[e]];
        assert s == d ==> d.orset == d0;
        todo := todo - {e};
      }
      TagsEnd(d.orset, d0, s0);
    }
  }
}
