/**
 The four replicated data types as values, the order their states form, and the join that a merge computes.

 Everything about merging follows from one fact, proved for each type: the join of two states is their least upper
 bound. A counter slot that is missing counts as zero, and so does a set element without tags.
 */
module Crdt {
  datatype Tag = Tag(actor: string, number: nat, at: int)

  datatype State =
    | GCounter(pos: map<string, nat>)
    | PNCounter(pos: map<string, nat>, neg: map<string, nat>)
    | ORSet(tags: map<string, set<Tag>>)
    | LWWRegister(value: string, ts: int, actor: string)

  // ----- the order on actors and stamps

  /** Lexicographic order. */
  predicate Less(a: string, b: string) {
    b != [] && (a == [] || a[0] < b[0] || (a[0] == b[0] && Less(a[1..], b[1..])))
  }

  lemma {:induction false} LessTotal(a: string, b: string)
    ensures Less(a, b) || a == b || Less(b, a)
    ensures !(Less(a, b) && Less(b, a))
    ensures !Less(a, a)
  {
    if a == [] {
    } else {
      LessTotal(a[1..], a[1..]);
      if b != [] {
        LessTotal(a[1..], b[1..]);
        if a[0] == b[0] && a[1..] == b[1..] {
          assert a == [a[0]] + a[1..] == b;
        }
      }
    }
  }

  lemma {:induction false} LessTransitive(a: string, b: string, c: string)
    requires Less(a, b) && Less(b, c)
    ensures Less(a, c)
  {
    if a != [] && a[0] == b[0] == c[0] {
      LessTransitive(a[1..], b[1..], c[1..]);
    }
  }

  /** The order of a dictionary: a shorter word before its extensions, else by the first character that differs. */
  ghost predicate Precedes(a: string, b: string) {
    || (|a| < |b| && a == b[..|a|])
    || exists k :: 0 <= k < |a| && k < |b| && a[..k] == b[..k] && a[k] < b[k]
  }

  lemma {:induction false} LessMeans(a: string, b: string)
    ensures Less(a, b) <==> Precedes(a, b)
    decreases |a|
  {
    if a == [] || b == [] {
    } else if a[0] != b[0] {
      FirstDiffers(a, b);
    } else {
      LessMeans(a[1..], b[1..]);
      PrecedesBehind(a, b);
    }
  }

  lemma FirstDiffers(a: string, b: string)
    requires a != [] && b != [] && a[0] != b[0]
    ensures Precedes(a, b) <==> a[0] < b[0]
  {
    assert a[..0] == b[..0];
    if |a| < |b| {
      assert b[..|a|][0] == b[0];
    }
    forall k | 0 < k < |a| && k < |b| ensures a[..k] != b[..k] {
      assert a[..k][0] == a[0] && b[..k][0] == b[0];
    }
  }

  lemma PrecedesBehind(a: string, b: string)
    requires a != [] && b != [] && a[0] == b[0]
    ensures Precedes(a, b) <==> Precedes(a[1..], b[1..])
  {
    var x, y := a[1..], b[1..];
    if |a| < |b| {
      SameBehind(a, b[..|a|]);
      assert b[..|a|][1..] == y[..|x|];
    }
    forall k | 0 <= k < |x| && k < |y| ensures a[..k + 1] == b[..k + 1] <==> x[..k] == y[..k] {
      SameBehind(a[..k + 1], b[..k + 1]);
      assert a[..k + 1][1..] == x[..k] && b[..k + 1][1..] == y[..k];
    }
    if k :| 0 <= k < |a| && k < |b| && a[..k] == b[..k] && a[k] < b[k] {
      assert x[k - 1] < y[k - 1] && a[..(k - 1) + 1] == b[..(k - 1) + 1];
    }
    if k :| 0 <= k < |x| && k < |y| && x[..k] == y[..k] && x[k] < y[k] {
      assert a[k + 1] < b[k + 1] && a[..k + 1] == b[..k + 1];
    }
  }

  lemma SameBehind(a: string, b: string)
    requires a != [] && b != [] && a[0] == b[0]
    ensures a == b <==> a[1..] == b[1..]
  {
    assert a == [a[0]] + a[1..] && b == [b[0]] + b[1..];
  }

  /** A later time wins; between equal times the greater actor does. */
  predicate Newer(ts: int, actor: string, thanTs: int, thanActor: string) {
    ts > thanTs || (ts == thanTs && Less(thanActor, actor))
  }

  // ----- states and their order

  function Slot(m: map<string, nat>, a: string): nat {
    if a in m then m[a] else 0
  }

  function TagsOf(m: map<string, set<Tag>>, e: string): set<Tag> {
    if e in m then m[e] else {}
  }

  predicate SameKind(x: State, y: State) {
    x.GCounter? == y.GCounter? && x.PNCounter? == y.PNCounter? && x.ORSet? == y.ORSet?
  }

  ghost predicate SlotsLeq(x: map<string, nat>, y: map<string, nat>) {
    forall a :: Slot(x, a) <= Slot(y, a)
  }

  ghost predicate TagsLeq(x: map<string, set<Tag>>, y: map<string, set<Tag>>) {
    forall e :: TagsOf(x, e) <= TagsOf(y, e)
  }

  /** y knows everything x knows. */
  ghost predicate Leq(x: State, y: State) {
    && SameKind(x, y)
    && match x
       case GCounter(pos) => SlotsLeq(pos, y.pos)
       case PNCounter(pos, neg) => SlotsLeq(pos, y.pos) && SlotsLeq(neg, y.neg)
       case ORSet(tags) => TagsLeq(tags, y.tags)
       case LWWRegister(_, ts, actor) => !Newer(ts, actor, y.ts, y.actor)
  }

  /** Nothing a reader or a merge can see tells the two apart. */
  ghost predicate Equiv(x: State, y: State) {
    && SameKind(x, y)
    && match x
       case GCounter(pos) => forall a :: Slot(pos, a) == Slot(y.pos, a)
       case PNCounter(pos, neg) =>
         (forall a :: Slot(pos, a) == Slot(y.pos, a)) && forall a :: Slot(neg, a) == Slot(y.neg, a)
       case ORSet(tags) => forall e :: TagsOf(tags, e) == TagsOf(y.tags, e)
       case LWWRegister(_, _, _) => x == y
  }

  /** Register values are determined by their stamp. */
  ghost predicate Obeys(x: State, table: (int, string) -> string) {
    x.LWWRegister? ==> x.value == table(x.ts, x.actor)
  }

  // ----- the join

  function JoinSlots(d: map<string, nat>, s: map<string, nat>): map<string, nat> {
    map a | a in d.Keys + s.Keys && (a in d || s[a] > 0) :: if Slot(s, a) > Slot(d, a) then s[a] else d[a]
  }

  function JoinTags(d: map<string, set<Tag>>, s: map<string, set<Tag>>): map<string, set<Tag>> {
    map e | e in d.Keys + s.Keys :: TagsOf(d, e) + TagsOf(s, e)
  }

  /** What merging s into d leaves in d. */
  function Join(d: State, s: State): State
    requires SameKind(d, s)
  {
    match d
    case GCounter(pos) => GCounter(JoinSlots(pos, s.pos))
    case PNCounter(pos, neg) => PNCounter(JoinSlots(pos, s.pos), JoinSlots(neg, s.neg))
    case ORSet(tags) => ORSet(JoinTags(tags, s.tags))
    case LWWRegister(_, ts, actor) => if Newer(s.ts, s.actor, ts, actor) then s else d
  }

  lemma JoinSlotsIsMax(d: map<string, nat>, s: map<string, nat>, a: string)
    ensures Slot(JoinSlots(d, s), a) == if Slot(s, a) > Slot(d, a) then Slot(s, a) else Slot(d, a)
  {
  }

  lemma JoinTagsIsUnion(d: map<string, set<Tag>>, s: map<string, set<Tag>>, e: string)
    ensures TagsOf(JoinTags(d, s), e) == TagsOf(d, e) + TagsOf(s, e)
  {
  }

  lemma LeqReflexive(x: State)
    ensures Leq(x, x)
  {
    if x.LWWRegister? {
      LessTotal(x.actor, x.actor);
    }
  }

  lemma NewerTotal(t: int, a: string, u: int, b: string)
    ensures Newer(t, a, u, b) || Newer(u, b, t, a) || (t == u && a == b)
    ensures !(Newer(t, a, u, b) && Newer(u, b, t, a))
  {
    LessTotal(a, b);
  }

  lemma NewerTransitive(t: int, a: string, u: int, b: string, v: int, c: string)
    requires !Newer(t, a, u, b) && !Newer(u, b, v, c)
    ensures !Newer(t, a, v, c)
  {
    LessTotal(a, b);
    LessTotal(b, c);
    LessTotal(a, c);
    if Less(a, b) && Less(b, c) {
      LessTransitive(a, b, c);
    }
  }

  lemma LeqTransitive(x: State, y: State, z: State)
    requires Leq(x, y) && Leq(y, z)
    ensures Leq(x, z)
  {
    hide Newer, Slot, TagsOf;
    if x.LWWRegister? {
      NewerTransitive(x.ts, x.actor, y.ts, y.actor, z.ts, z.actor);
    } else if x.ORSet? {
      forall e ensures TagsOf(x.tags, e) <= TagsOf(z.tags, e) {
        assert TagsOf(x.tags, e) <= TagsOf(y.tags, e) <= TagsOf(z.tags, e);
      }
    } else {
      SlotsTransitive(x.pos, y.pos, z.pos);
      if x.PNCounter? {
        SlotsTransitive(x.neg, y.neg, z.neg);
      }
    }
  }

  lemma SlotsTransitive(x: map<string, nat>, y: map<string, nat>, z: map<string, nat>)
    requires SlotsLeq(x, y) && SlotsLeq(y, z)
    ensures SlotsLeq(x, z)
  {
    hide Slot;
    forall a ensures Slot(x, a) <= Slot(z, a) {
      assert Slot(x, a) <= Slot(y, a) <= Slot(z, a);
    }
  }

  lemma LeqAntisymmetric(x: State, y: State, table: (int, string) -> string)
    requires Leq(x, y) && Leq(y, x) && Obeys(x, table) && Obeys(y, table)
    ensures Equiv(x, y)
  {
    hide Newer, Slot, TagsOf;
    if x.LWWRegister? {
      NewerTotal(x.ts, x.actor, y.ts, y.actor);
    } else if x.ORSet? {
      forall e ensures TagsOf(x.tags, e) == TagsOf(y.tags, e) {
        assert TagsOf(x.tags, e) <= TagsOf(y.tags, e) <= TagsOf(x.tags, e);
      }
    } else {
      SlotsAntisymmetric(x.pos, y.pos);
      if x.PNCounter? {
        SlotsAntisymmetric(x.neg, y.neg);
      }
    }
  }

  lemma SlotsAntisymmetric(x: map<string, nat>, y: map<string, nat>)
    requires SlotsLeq(x, y) && SlotsLeq(y, x)
    ensures forall a :: Slot(x, a) == Slot(y, a)
  {
    hide Slot;
    forall a ensures Slot(x, a) == Slot(y, a) {
      assert Slot(x, a) <= Slot(y, a) <= Slot(x, a);
    }
  }

  /** Merging loses nothing, from either side. */
  lemma JoinIsUpper(x: State, y: State)
    requires SameKind(x, y)
    ensures Leq(x, Join(x, y)) && Leq(y, Join(x, y))
  {
    hide Newer, JoinSlots, JoinTags, Slot, TagsOf;
    if x.LWWRegister? {
      NewerTotal(x.ts, x.actor, x.ts, x.actor);
      NewerTotal(y.ts, y.actor, y.ts, y.actor);
      NewerTotal(x.ts, x.actor, y.ts, y.actor);
    } else if x.ORSet? {
      forall e ensures TagsOf(JoinTags(x.tags, y.tags), e) == TagsOf(x.tags, e) + TagsOf(y.tags, e) {
        JoinTagsIsUnion(x.tags, y.tags, e);
      }
    } else {
      SlotsUpper(x.pos, y.pos);
      if x.PNCounter? {
        SlotsUpper(x.neg, y.neg);
      }
    }
  }

  lemma SlotsUpper(x: map<string, nat>, y: map<string, nat>)
    ensures SlotsLeq(x, JoinSlots(x, y)) && SlotsLeq(y, JoinSlots(x, y))
  {
    hide Slot, JoinSlots;
    forall a ensures Slot(x, a) <= Slot(JoinSlots(x, y), a) && Slot(y, a) <= Slot(JoinSlots(x, y), a) {
      JoinSlotsIsMax(x, y, a);
    }
  }

  /** And it invents nothing: whatever knows both sides knows the merge. */
  lemma JoinIsLeast(x: State, y: State, z: State)
    requires SameKind(x, y) && Leq(x, z) && Leq(y, z)
    ensures Leq(Join(x, y), z)
  {
    hide Newer, JoinSlots, JoinTags, Slot, TagsOf;
    if x.ORSet? {
      forall e ensures TagsOf(JoinTags(x.tags, y.tags), e) <= TagsOf(z.tags, e) {
        JoinTagsIsUnion(x.tags, y.tags, e);
        assert TagsOf(x.tags, e) <= TagsOf(z.tags, e) && TagsOf(y.tags, e) <= TagsOf(z.tags, e);
      }
    } else if !x.LWWRegister? {
      SlotsLeast(x.pos, y.pos, z.pos);
      if x.PNCounter? {
        SlotsLeast(x.neg, y.neg, z.neg);
      }
    }
  }

  lemma SlotsLeast(x: map<string, nat>, y: map<string, nat>, z: map<string, nat>)
    requires SlotsLeq(x, z) && SlotsLeq(y, z)
    ensures SlotsLeq(JoinSlots(x, y), z)
  {
    hide Slot, JoinSlots;
    forall a ensures Slot(JoinSlots(x, y), a) <= Slot(z, a) {
      JoinSlotsIsMax(x, y, a);
      assert Slot(x, a) <= Slot(z, a) && Slot(y, a) <= Slot(z, a);
    }
  }

  lemma JoinObeys(x: State, y: State, table: (int, string) -> string)
    requires SameKind(x, y) && Obeys(x, table) && Obeys(y, table)
    ensures Obeys(Join(x, y), table) && SameKind(Join(x, y), x)
  {
  }

  // ----- the laws of merging

  lemma JoinCommutative(x: State, y: State, table: (int, string) -> string)
    requires SameKind(x, y) && Obeys(x, table) && Obeys(y, table)
    ensures Equiv(Join(x, y), Join(y, x))
  {
    hide Leq, Join, Equiv, Obeys;
    JoinIsUpper(x, y);
    JoinIsUpper(y, x);
    JoinIsLeast(x, y, Join(y, x));
    JoinIsLeast(y, x, Join(x, y));
    JoinObeys(x, y, table);
    JoinObeys(y, x, table);
    LeqAntisymmetric(Join(x, y), Join(y, x), table);
  }

  lemma JoinAssociative(x: State, y: State, z: State, table: (int, string) -> string)
    requires SameKind(x, y) && SameKind(y, z) && Obeys(x, table) && Obeys(y, table) && Obeys(z, table)
    ensures SameKind(Join(x, y), z) && SameKind(x, Join(y, z))
    ensures Equiv(Join(Join(x, y), z), Join(x, Join(y, z)))
  {
    hide Leq, Join, Equiv, Obeys;
    JoinObeys(x, y, table);
    JoinObeys(y, z, table);
    var xy, yz := Join(x, y), Join(y, z);
    JoinObeys(xy, z, table);
    JoinObeys(x, yz, table);
    var l, r := Join(xy, z), Join(x, yz);
    JoinIsUpper(x, y);
    JoinIsUpper(y, z);
    JoinIsUpper(xy, z);
    JoinIsUpper(x, yz);
    LeqTransitive(x, xy, l);
    LeqTransitive(y, xy, l);
    LeqTransitive(y, yz, r);
    LeqTransitive(z, yz, r);
    JoinIsLeast(x, y, r);
    JoinIsLeast(xy, z, r);
    JoinIsLeast(y, z, l);
    JoinIsLeast(x, yz, l);
    LeqAntisymmetric(l, r, table);
  }

  lemma JoinIdempotent(x: State)
    ensures Equiv(Join(x, x), x)
  {
    hide Newer, JoinSlots, JoinTags, Slot, TagsOf;
    if x.LWWRegister? {
      NewerTotal(x.ts, x.actor, x.ts, x.actor);
    } else if x.ORSet? {
      forall e ensures TagsOf(JoinTags(x.tags, x.tags), e) == TagsOf(x.tags, e) {
        JoinTagsIsUnion(x.tags, x.tags, e);
      }
    } else {
      forall a ensures Slot(JoinSlots(x.pos, x.pos), a) == Slot(x.pos, a) {
        JoinSlotsIsMax(x.pos, x.pos, a);
      }
      if x.PNCounter? {
        forall a ensures Slot(JoinSlots(x.neg, x.neg), a) == Slot(x.neg, a) {
          JoinSlotsIsMax(x.neg, x.neg, a);
        }
      }
    }
  }

  // ----- convergence

  ghost predicate OneKind(xs: seq<State>) {
    forall i, j :: 0 <= i < |xs| && 0 <= j < |xs| ==> SameKind(xs[i], xs[j])
  }

  /** Merge the rest of the list, one state after the other, into the first. */
  function Fold(xs: seq<State>): (r: State)
    requires xs != [] && OneKind(xs)
    ensures SameKind(r, xs[0])
  {
    if |xs| == 1 then xs[0] else Join(Fold(xs[..|xs| - 1]), xs[|xs| - 1])
  }

  lemma {:induction false} FoldIsUpper(xs: seq<State>, i: nat)
    requires xs != [] && OneKind(xs) && i < |xs|
    ensures Leq(xs[i], Fold(xs))
    decreases |xs|
  {
    hide Leq, Join, SameKind;
    LeqReflexive(xs[0]);
    if |xs| <= 1 {
    } else {
      var f := Fold(xs[..|xs| - 1]);
      FoldKind(xs);
      JoinIsUpper(f, xs[|xs| - 1]);
      if i < |xs| - 1 {
        FoldIsUpper(xs[..|xs| - 1], i);
        LeqTransitive(xs[i], f, Fold(xs));
      }
    }
  }

  lemma FoldKind(xs: seq<State>)
    requires |xs| > 1 && OneKind(xs)
    ensures OneKind(xs[..|xs| - 1]) && SameKind(Fold(xs[..|xs| - 1]), xs[|xs| - 1])
  {
    assert SameKind(xs[0], xs[|xs| - 1]);
  }

  lemma {:induction false} FoldIsLeast(xs: seq<State>, z: State)
    requires xs != [] && OneKind(xs) && forall i :: 0 <= i < |xs| ==> Leq(xs[i], z)
    ensures Leq(Fold(xs), z)
    decreases |xs|
  {
    hide Leq, Join, SameKind;
    if |xs| <= 1 {
    } else {
      FoldKind(xs);
      FoldIsLeast(xs[..|xs| - 1], z);
      JoinIsLeast(Fold(xs[..|xs| - 1]), xs[|xs| - 1], z);
    }
  }

  lemma {:induction false} FoldObeys(xs: seq<State>, table: (int, string) -> string)
    requires xs != [] && OneKind(xs) && forall i :: 0 <= i < |xs| ==> Obeys(xs[i], table)
    ensures Obeys(Fold(xs), table)
    decreases |xs|
  {
    hide Obeys, Join, SameKind;
    if |xs| <= 1 {
    } else {
      FoldKind(xs);
      FoldObeys(xs[..|xs| - 1], table);
      JoinObeys(Fold(xs[..|xs| - 1]), xs[|xs| - 1], table);
    }
  }

  /** Replicas that have taken in the same states agree, whatever the order and however often each came in. */
  lemma ReplicasConverge(xs: seq<State>, ys: seq<State>, table: (int, string) -> string)
    requires xs != [] && ys != [] && OneKind(xs) && OneKind(ys)
    requires forall x :: x in xs <==> x in ys
    requires forall i :: 0 <= i < |xs| ==> Obeys(xs[i], table)
    ensures Equiv(Fold(xs), Fold(ys))
  {
    hide Leq, Fold, SameKind, Equiv, Obeys;
    forall i | 0 <= i < |xs| ensures Leq(xs[i], Fold(ys)) {
      assert xs[i] in ys;
      var j: nat :| j < |ys| && ys[j] == xs[i];
      FoldIsUpper(ys, j);
    }
    forall i | 0 <= i < |ys| ensures Leq(ys[i], Fold(xs)) && Obeys(ys[i], table) {
      assert ys[i] in xs;
      var j: nat :| j < |xs| && xs[j] == ys[i];
      FoldIsUpper(xs, j);
    }
    FoldIsLeast(xs, Fold(ys));
    FoldIsLeast(ys, Fold(xs));
    FoldObeys(xs, table);
    FoldObeys(ys, table);
    LeqAntisymmetric(Fold(xs), Fold(ys), table);
  }

  /**
   What the shared table of values is for: the order of merging two registers is invisible exactly when equal
   stamps come with equal values.
   */
  lemma RegistersCommuteIff(x: State, y: State)
    requires x.LWWRegister? && y.LWWRegister?
    ensures Equiv(Join(x, y), Join(y, x)) <==> (x.ts == y.ts && x.actor == y.actor ==> x.value == y.value)
  {
    hide Newer;
    NewerTotal(x.ts, x.actor, y.ts, y.actor);
  }

  predicate Member(x: State, e: string) {
    x.ORSet? && TagsOf(x.tags, e) != {}
  }

  /** An element is in the merge exactly when one side still has it: an add that a remove did not see survives. */
  lemma MergedMembers(x: State, y: State, e: string)
    requires x.ORSet? && y.ORSet?
    ensures Member(Join(x, y), e) <==> Member(x, e) || Member(y, e)
  {
  }

  // ----- counter readings

  ghost function Sum(m: map<string, nat>): nat {
    if m == map[] then 0
    else
      var a :| a in m;
      m[a] + Sum(m - {a})
  }

  /** The order in which the slots are visited does not matter. */
  lemma {:induction false} SumTakes(m: map<string, nat>, a: string)
    requires a in m
    ensures Sum(m) == m[a] + Sum(m - {a})
    decreases |m|
  {
    var b :| b in m && Sum(m) == m[b] + Sum(m - {b});
    if b != a {
      SumTakes(m - {b}, a);
      SumTakes(m - {a}, b);
      assert m - {b} - {a} == m - {a} - {b};
    }
  }

  lemma {:induction false} SumMonotone(x: map<string, nat>, y: map<string, nat>)
    requires SlotsLeq(x, y)
    ensures Sum(x) <= Sum(y)
    decreases |x|
  {
    if x == map[] {
    } else {
      var a :| a in x;
      SumTakes(x, a);
      var y1 := y - {a};
      forall b ensures Slot(x - {a}, b) <= Slot(y1, b) {
        assert Slot(x, b) <= Slot(y, b);
      }
      SumMonotone(x - {a}, y1);
      assert Slot(x, a) <= Slot(y, a);
      if a in y {
        SumTakes(y, a);
      } else {
        assert y1 == y;
      }
    }
  }

  /** Equivalent replicas answer every query alike. */
  lemma EquivReadsAlike(x: State, y: State)
    requires Equiv(x, y)
    ensures x.GCounter? <==> y.GCounter?
    ensures x.PNCounter? <==> y.PNCounter?
    ensures x.GCounter? ==> Sum(x.pos) == Sum(y.pos)
    ensures x.PNCounter? ==> Sum(x.pos) - Sum(x.neg) == Sum(y.pos) - Sum(y.neg)
    ensures forall e :: Member(x, e) == Member(y, e)
    ensures x.LWWRegister? ==> x == y
  {
    if x.GCounter? || x.PNCounter? {
      SumMonotone(x.pos, y.pos);
      SumMonotone(y.pos, x.pos);
    }
    if x.PNCounter? {
      SumMonotone(x.neg, y.neg);
      SumMonotone(y.neg, x.neg);
    }
    if x.ORSet? {
      forall e ensures Member(x, e) == Member(y, e) {
        assert TagsOf(x.tags, e) == TagsOf(y.tags, e);
      }
    }
  }

  // ----- registers, in times and names

  /** What is left when a write of this stamp, or a register with it, meets what a register holds. */
  lemma NewerMeans(ts: int, actor: string, thanTs: int, thanActor: string)
    ensures Newer(ts, actor, thanTs, thanActor) <==>
      ts > thanTs || (ts == thanTs && Precedes(thanActor, actor))
  {
    LessMeans(thanActor, actor);
  }

  /** Of two registers the one with the later time is kept; with equal times, the one whose actor comes later. */
  lemma LaterIsKept(d: State, s: State)
    requires d.LWWRegister? && s.LWWRegister?
    ensures s.ts > d.ts ==> Join(d, s) == s
    ensures s.ts < d.ts ==> Join(d, s) == d
    ensures s.ts == d.ts && Precedes(d.actor, s.actor) ==> Join(d, s) == s
    ensures s.ts == d.ts && !Precedes(d.actor, s.actor) ==> Join(d, s) == d
  {
    hide Newer;
    NewerMeans(s.ts, s.actor, d.ts, d.actor);
  }

  // ----- runs of a registry

  type Registry = map<string, State>

  datatype Op =
    | GIncr(key: string, actor: string, delta: int)
    | PNIncr(key: string, actor: string, delta: int)
    | SAdd(key: string, member: string, tag: Tag)
    | SRem(key: string, member: string)
    | LWWSet(key: string, actor: string, value: string, ts: int)
    | Merge(key: string, src: string)

  const EMPTY_REGISTER := LWWRegister("", 0, "")

  /** The entry an operation works on; an absent key gets a new one, except that a removal or merge needs it there. */
  function Entry(r: Registry, key: string, empty: State): State {
    if key in r then r[key] else empty
  }

  predicate Accepted(r: Registry, op: Op) {
    match op
    case GIncr(key, _, delta) => delta >= 0 && Entry(r, key, GCounter(map[])).GCounter?
    case PNIncr(key, _, _) => Entry(r, key, PNCounter(map[], map[])).PNCounter?
    case SAdd(key, _, _) => Entry(r, key, ORSet(map[])).ORSet?
    case SRem(key, _) => key in r && r[key].ORSet?
    case LWWSet(key, _, _, _) => Entry(r, key, EMPTY_REGISTER).LWWRegister?
    case Merge(dst, src) => dst in r && src in r && SameKind(r[dst], r[src])
  }

  function Raise(m: map<string, nat>, a: string, d: nat): map<string, nat> {
    m[a := Slot(m, a) + d]
  }

  /** What an accepted operation leaves under its key. */
  function Result(r: Registry, op: Op): State
    requires Accepted(r, op)
  {
    match op
    case GIncr(key, actor, delta) => GCounter(Raise(Entry(r, key, GCounter(map[])).pos, actor, delta))
    case PNIncr(key, actor, delta) =>
      var e := Entry(r, key, PNCounter(map[], map[]));
      if delta >= 0 then PNCounter(Raise(e.pos, actor, delta), e.neg) else PNCounter(e.pos, Raise(e.neg, actor, -delta))
    case SAdd(key, member, tag) =>
      var e := Entry(r, key, ORSet(map[]));
      ORSet(e.tags[member := TagsOf(e.tags, member) + {tag}])
    case SRem(key, member) => ORSet(r[key].tags - {member})
    case LWWSet(key, actor, value, ts) =>
      var e := Entry(r, key, EMPTY_REGISTER);
      if Newer(ts, actor, e.ts, e.actor) then LWWRegister(value, ts, actor) else e
    case Merge(dst, src) => Join(r[dst], r[src])
  }

  function Apply(r: Registry, op: Op): Registry {
    if Accepted(r, op) then r[op.key := Result(r, op)] else r
  }

  function After(ops: seq<Op>): Registry {
    if ops == [] then map[] else Apply(After(ops[..|ops| - 1]), ops[|ops| - 1])
  }

  /** The three kinds of slot: those of grow-only counters, and the rising and falling ones of the others. */
  datatype Part = Only | Rising | Falling

  function SlotsAt(r: Registry, key: string, c: Part): map<string, nat> {
    if key !in r then map[]
    else if r[key].GCounter? && c.Only? then r[key].pos
    else if r[key].PNCounter? && c.Rising? then r[key].pos
    else if r[key].PNCounter? && c.Falling? then r[key].neg
    else map[]
  }

  /** What an operation really adds to its actor's slots. */
  function Gain(r: Registry, op: Op, a: string, c: Part): nat {
    if (op.GIncr? || op.PNIncr?) && op.actor == a && Accepted(r, op)
    then if op.GIncr? then if c.Only? then op.delta else 0
      else if c.Rising? && op.delta >= 0 then op.delta
      else if c.Falling? && op.delta < 0 then -op.delta
      else 0
    else 0
  }

  function Max(x: nat, y: nat): nat {
    if x < y then y else x
  }

  /** The effect of any operation on any slot. */
  lemma SlotAfter(r: Registry, op: Op, k: string, a: string, c: Part)
    ensures Slot(SlotsAt(Apply(r, op), k, c), a)
      == if op.Merge? && Accepted(r, op) && op.key == k
        then Max(Slot(SlotsAt(r, k, c), a), Slot(SlotsAt(r, op.src, c), a))
        else Slot(SlotsAt(r, k, c), a) + if op.key == k then Gain(r, op, a, c) else 0
  {
    hide JoinSlots, JoinTags, Newer;
    if op.key == k && Accepted(r, op) {
      if op.Merge? && (r[k].GCounter? || r[k].PNCounter?) {
        JoinSlotsIsMax(r[k].pos, r[op.src].pos, a);
        if r[k].PNCounter? {
          JoinSlotsIsMax(r[k].neg, r[op.src].neg, a);
        }
      }
    }
  }

  /** An operation touches its own key only. */
  lemma OthersStay(r: Registry, op: Op, k: string)
    requires k != op.key
    ensures k in Apply(r, op) <==> k in r
    ensures k in r ==> Apply(r, op)[k] == r[k]
  {
  }

  /** The effect of any operation on the tags of any member. */
  lemma TagsAfter(r: Registry, op: Op, k: string, e: string, tag: Tag)
    requires Accepted(r, op)
    ensures HasTag(Apply(r, op), k, e, tag) <==>
      if op.key != k then HasTag(r, k, e, tag)
      else match op
        case SAdd(_, member, new_) => HasTag(r, k, e, tag) || (e == member && tag == new_)
        case SRem(_, member) => HasTag(r, k, e, tag) && e != member
        case Merge(_, src) => HasTag(r, k, e, tag) || HasTag(r, src, e, tag)
        case _ => HasTag(r, k, e, tag)
  {
    hide JoinSlots, Newer;
    if op.Merge? && op.key == k && r[k].ORSet? {
      JoinTagsIsUnion(r[k].tags, r[op.src].tags, e);
      hide JoinTags;
    }
  }

  predicate HasTag(r: Registry, k: string, e: string, tag: Tag) {
    k in r && r[k].ORSet? && e in r[k].tags && tag in r[k].tags[e]
  }

  // ----- the last writer wins

  /** Whether the write at step i has reached key k: made there, or merged in directly or through other keys. */
  predicate Reached(ops: seq<Op>, k: string, i: nat)
    requires i < |ops|
    decreases |ops|
  {
    var last := |ops| - 1;
    var before, op := ops[..last], ops[last];
    && ops[i].LWWSet?
    && ((i == last && op.key == k && Accepted(After(before), op))
        || (i < last && Reached(before, k, i))
        || (i < last && op.Merge? && op.key == k && Accepted(After(before), op) && Reached(before, op.src, i)))
  }

  /** Nothing that has reached the key is later than what it holds. */
  lemma {:induction false} NoneIsLater(ops: seq<Op>, k: string, i: nat)
    requires i < |ops| && Reached(ops, k, i)
    ensures k in After(ops) && After(ops)[k].LWWRegister?
    ensures var reg := After(ops)[k];
      ops[i].ts < reg.ts || (ops[i].ts == reg.ts && !Precedes(reg.actor, ops[i].actor))
    decreases |ops|
  {
    hide Precedes, Less;
    var last := |ops| - 1;
    var before, op := ops[..last], ops[last];
    var r := After(before);
    var reg := Entry(r, k, EMPTY_REGISTER);
    if i == last {
      NewerMeans(op.ts, op.actor, reg.ts, reg.actor);
      NotPrecedesItself(op.actor);
    } else {
      assert before[i] == ops[i];
      if Reached(before, k, i) {
        NoneIsLater(before, k, i);
        RegisterGrows(r, op, k);
        Weigh(ops[i].ts, ops[i].actor, r[k], Apply(r, op)[k]);
      } else {
        NoneIsLater(before, op.src, i);
        RegisterGrows(r, op, k);
        Weigh(ops[i].ts, ops[i].actor, r[op.src], Apply(r, op)[k]);
      }
    }
  }

  /** A step leaves a register at least as late as it was, and as what is merged into it. */
  lemma RegisterGrows(r: Registry, op: Op, k: string)
    requires k in r && r[k].LWWRegister?
    ensures k in Apply(r, op) && Apply(r, op)[k].LWWRegister?
    ensures !Newer(r[k].ts, r[k].actor, Apply(r, op)[k].ts, Apply(r, op)[k].actor)
    ensures op.Merge? && op.key == k && Accepted(r, op) ==>
      !Newer(r[op.src].ts, r[op.src].actor, Apply(r, op)[k].ts, Apply(r, op)[k].actor)
  {
    hide Newer, JoinSlots, JoinTags;
    NewerTotal(r[k].ts, r[k].actor, r[k].ts, r[k].actor);
    if op.key == k && op.LWWSet? {
      NewerTotal(op.ts, op.actor, r[k].ts, r[k].actor);
    }
    if op.key == k && op.Merge? && Accepted(r, op) {
      NewerTotal(r[op.src].ts, r[op.src].actor, r[k].ts, r[k].actor);
      NewerTotal(r[op.src].ts, r[op.src].actor, r[op.src].ts, r[op.src].actor);
    }
  }

  lemma NotPrecedesItself(a: string)
    ensures !Precedes(a, a)
  {
    LessTotal(a, a);
    LessMeans(a, a);
  }

  lemma Weigh(ts: int, actor: string, x: State, y: State)
    requires x.LWWRegister? && y.LWWRegister? && !Newer(x.ts, x.actor, y.ts, y.actor)
    requires ts < x.ts || (ts == x.ts && !Precedes(x.actor, actor))
    ensures ts < y.ts || (ts == y.ts && !Precedes(y.actor, actor))
  {
    hide Less, Precedes;
    LessMeans(x.actor, actor);
    LessMeans(y.actor, actor);
    if ts == x.ts == y.ts && Less(y.actor, actor) {
      LessTotal(x.actor, y.actor);
      LessTotal(x.actor, actor);
      if Less(y.actor, x.actor) {
      } else if Less(x.actor, y.actor) {
        LessTransitive(x.actor, y.actor, actor);
      }
    }
  }

  /** What a register holds is a write that has reached it, or it holds nothing yet. */
  lemma {:induction false} HeldIsWritten(ops: seq<Op>, k: string)
    requires k in After(ops) && After(ops)[k].LWWRegister?
    ensures After(ops)[k] == LWWRegister("", 0, "") || exists i :: IsWriteHeld(ops, k, i)
    decreases |ops|
  {
    hide Newer, JoinSlots, JoinTags;
    if ops == [] {
    } else {
      var last := |ops| - 1;
      var before, op := ops[..last], ops[last];
      var r := After(before);
      var reg := After(ops)[k];
      if k in r && reg == r[k] {
        HeldIsWritten(before, k);
        if i: nat :| IsWriteHeld(before, k, i) {
          assert IsWriteHeld(ops, k, i);
        }
      } else if op.LWWSet? && op.key == k && reg == LWWRegister(op.value, op.ts, op.actor) {
        assert IsWriteHeld(ops, k, last);
      } else if op.Merge? {
        HeldIsWritten(before, op.src);
        if i: nat :| IsWriteHeld(before, op.src, i) {
          assert IsWriteHeld(ops, k, i);
        }
      }
    }
  }

  ghost predicate IsWriteHeld(ops: seq<Op>, k: string, i: nat) {
    && i < |ops| && Reached(ops, k, i) && k in After(ops)
    && After(ops)[k] == LWWRegister(ops[i].value, ops[i].ts, ops[i].actor)
  }

  /**
   The last writer wins: over any run, a register holds a write that has reached its key, and no write that has
   reached it is later, by time and between equal times by the name of the actor.
   */
  lemma LastWriterWins(ops: seq<Op>, k: string)
    requires k in After(ops) && After(ops)[k].LWWRegister?
    ensures After(ops)[k] == LWWRegister("", 0, "") || exists i :: IsWriteHeld(ops, k, i)
    ensures forall i: nat :: i < |ops| && Reached(ops, k, i) ==>
      ops[i].ts < After(ops)[k].ts || (ops[i].ts == After(ops)[k].ts && !Precedes(After(ops)[k].actor, ops[i].actor))
  {
    HeldIsWritten(ops, k);
    forall i: nat | i < |ops| && Reached(ops, k, i)
      ensures ops[i].ts < After(ops)[k].ts
        || (ops[i].ts == After(ops)[k].ts && !Precedes(After(ops)[k].actor, ops[i].actor))
    {
      NoneIsLater(ops, k, i);
    }
  }

  /** All that an actor has added over a run. */
  function Total(ops: seq<Op>, a: string, c: Part): nat {
    if ops == [] then 0
    else Total(ops[..|ops| - 1], a, c) + Gain(After(ops[..|ops| - 1]), ops[|ops| - 1], a, c)
  }

  /** Each actor increments through one key of its own, one for each kind of counter. */
  ghost predicate OneOwner(ops: seq<Op>, owner: (Part, string) -> string) {
    forall i :: 0 <= i < |ops| ==>
      && (ops[i].GIncr? ==> ops[i].key == owner(Only, ops[i].actor))
      && (ops[i].PNIncr? ==> ops[i].key == owner(Rising, ops[i].actor) == owner(Falling, ops[i].actor))
  }

  /** No slot ever exceeds its actor's true total, and the owner's slot is exactly it. */
  lemma {:induction false} SlotsAreTrue(
    ops: seq<Op>, owner: (Part, string) -> string, k: string, a: string, c: Part)
    requires OneOwner(ops, owner)
    ensures Slot(SlotsAt(After(ops), k, c), a) <= Total(ops, a, c)
    ensures k == owner(c, a) ==> Slot(SlotsAt(After(ops), k, c), a) == Total(ops, a, c)
    decreases |ops|
  {
    hide Accepted, Result, Apply, SlotsAt;
    if ops != [] {
      var before, op := ops[..|ops| - 1], ops[|ops| - 1];
      SlotAfter(After(before), op, k, a, c);
      SlotsAreTrue(before, owner, k, a, c);
      if op.Merge? {
        SlotsAreTrue(before, owner, op.src, a, c);
      }
    } else {
      NoSlots(k, c);
    }
  }

  lemma NoSlots(k: string, c: Part)
    ensures SlotsAt(map[], k, c) == map[]
  {
  }

  /** Whether key k has taken in, directly or through other keys, everything its owner holds of actor a. */
  predicate CaughtUp(ops: seq<Op>, k: string, a: string, c: Part, owner: string)
    decreases |ops|
  {
    if ops == [] || k == owner then true
    else
      var before, op := ops[..|ops| - 1], ops[|ops| - 1];
      && Gain(After(before), op, a, c) == 0
      && (CaughtUp(before, k, a, c, owner)
          || (op.Merge? && op.key == k && Accepted(After(before), op) && CaughtUp(before, op.src, a, c, owner)))
  }

  /** A key that is caught up with an actor holds its total exactly. */
  lemma {:induction false} CaughtUpIsExact(ops: seq<Op>, owner: (Part, string) -> string, k: string, a: string, c: Part)
    requires OneOwner(ops, owner) && CaughtUp(ops, k, a, c, owner(c, a))
    ensures Slot(SlotsAt(After(ops), k, c), a) == Total(ops, a, c)
    decreases |ops|
  {
    hide Accepted, Result, Apply, SlotsAt;
    SlotsAreTrue(ops, owner, k, a, c);
    if ops == [] {
      NoSlots(k, c);
    } else if k != owner(c, a) {
      var before, op := ops[..|ops| - 1], ops[|ops| - 1];
      SlotAfter(After(before), op, k, a, c);
      SlotsAreTrue(before, owner, k, a, c);
      if CaughtUp(before, k, a, c, owner(c, a)) {
        CaughtUpIsExact(before, owner, k, a, c);
      } else {
        CaughtUpIsExact(before, owner, op.src, a, c);
      }
      if op.Merge? {
        SlotsAreTrue(before, owner, op.src, a, c);
      }
    }
  }

  /** No increments from here on. */
  ghost predicate Quiet(ops: seq<Op>) {
    forall i :: 0 <= i < |ops| ==> !ops[i].GIncr? && !ops[i].PNIncr?
  }

  /** A merge from the owner after the last increment is enough, whatever else happens around it. */
  lemma {:induction false} MergingOwnerCatchesUp(
    ops: seq<Op>, quietFrom: nat, m: nat, k: string, a: string, c: Part, owner: string)
    requires quietFrom <= m < |ops| && Quiet(ops[quietFrom..])
    requires ops[m] == Merge(k, owner) && Accepted(After(ops[..m]), ops[m])
    ensures CaughtUp(ops, k, a, c, owner)
    decreases |ops|
  {
    hide Accepted, After;
    var before := ops[..|ops| - 1];
    var op := ops[|ops| - 1];
    assert op == ops[quietFrom..][|ops| - 1 - quietFrom];
    if m < |ops| - 1 {
      assert before[quietFrom..] == ops[quietFrom..][..|ops| - 1 - quietFrom];
      assert before[..m] == ops[..m];
      MergingOwnerCatchesUp(before, quietFrom, m, k, a, c, owner);
    }
  }

  /** Every actor an operation names. */
  function Actors(ops: seq<Op>): set<string> {
    if ops == [] then {}
    else
      var op := ops[|ops| - 1];
      Actors(ops[..|ops| - 1]) + if op.GIncr? || op.PNIncr? then {op.actor} else {}
  }

  function Totals(ops: seq<Op>, c: Part): map<string, nat> {
    map a | a in Actors(ops) :: Total(ops, a, c)
  }

  lemma {:induction false} StrangersAddNothing(ops: seq<Op>, a: string, c: Part)
    requires a !in Actors(ops)
    ensures Total(ops, a, c) == 0
    decreases |ops|
  {
    if ops == [] {
    } else {
      StrangersAddNothing(ops[..|ops| - 1], a, c);
    }
  }

  lemma TotalsHold(ops: seq<Op>, a: string, c: Part)
    ensures Slot(Totals(ops, c), a) == Total(ops, a, c)
  {
    hide Total, Actors;
    if a !in Actors(ops) {
      StrangersAddNothing(ops, a, c);
    }
  }

  /** At no time and under no key does a counter's sum exceed what has been added. */
  lemma NothingCountedTwice(ops: seq<Op>, owner: (Part, string) -> string, k: string, c: Part)
    requires OneOwner(ops, owner)
    ensures Sum(SlotsAt(After(ops), k, c)) <= Sum(Totals(ops, c))
  {
    hide SlotsAt, After, Totals, Slot, Total, OneOwner;
    var slots, totals := SlotsAt(After(ops), k, c), Totals(ops, c);
    forall a ensures Slot(slots, a) <= Slot(totals, a) {
      SlotsAreTrue(ops, owner, k, a, c);
      TotalsHold(ops, a, c);
    }
    SumMonotone(slots, totals);
  }

  /** A key that is caught up with every actor shows the exact sum. */
  lemma NothingLost(ops: seq<Op>, owner: (Part, string) -> string, k: string, c: Part)
    requires OneOwner(ops, owner)
    requires forall a :: a in Actors(ops) ==> CaughtUp(ops, k, a, c, owner(c, a))
    ensures Sum(SlotsAt(After(ops), k, c)) == Sum(Totals(ops, c))
  {
    hide SlotsAt, After, Totals, Slot, Total, OneOwner, CaughtUp;
    var slots, totals := SlotsAt(After(ops), k, c), Totals(ops, c);
    forall a ensures Slot(totals, a) <= Slot(slots, a) {
      TotalsHold(ops, a, c);
      if a in Actors(ops) {
        CaughtUpIsExact(ops, owner, k, a, c);
      } else {
        StrangersAddNothing(ops, a, c);
      }
    }
    SumMonotone(totals, slots);
    NothingCountedTwice(ops, owner, k, c);
  }

  /**
   Once increments have stopped, a key that then merges in every actor's key reads the exact total, however the
   merges are ordered, repeated and mixed with others.
   */
  lemma MergedCounterIsExact(
    ops: seq<Op>, quietFrom: nat, owner: (Part, string) -> string, k: string, c: Part)
    requires OneOwner(ops, owner) && quietFrom <= |ops| && Quiet(ops[quietFrom..])
    requires forall a :: a in Actors(ops) && k != owner(c, a) ==>
      exists m :: quietFrom <= m < |ops| && ops[m] == Merge(k, owner(c, a)) && Accepted(After(ops[..m]), ops[m])
    ensures Sum(SlotsAt(After(ops), k, c)) == Sum(Totals(ops, c))
  {
    hide SlotsAt, After, OneOwner, Accepted, Quiet;
    forall a | a in Actors(ops) ensures CaughtUp(ops, k, a, c, owner(c, a)) {
      if k != owner(c, a) {
        var m: nat :| quietFrom <= m < |ops| && ops[m] == Merge(k, owner(c, a)) && Accepted(After(ops[..m]), ops[m]);
        MergingOwnerCatchesUp(ops, quietFrom, m, k, a, c, owner(c, a));
      }
    }
    NothingLost(ops, owner, k, c);
  }
}
