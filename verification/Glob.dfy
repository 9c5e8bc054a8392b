/**
 The iterative glob matcher: one pass over the subject, backtracking only to the last '*'.

 `MatchesAt` is the obvious definition, in which every star tries every suffix. `Match` is the loop of the
 program; it decides exactly that relation and stays within a quadratic number of iterations.
 */
module Glob {
  import opened Bytes

  // ----- the meaning of a pattern

  /** The first `]` at or after i, or |p| when there is none. */
  function FindClose(p: bytes, i: nat): (close: nat)
    requires i <= |p|
    ensures i <= close <= |p|
    ensures close < |p| ==> p[close] == CLOSE_BRACKET
    ensures forall j :: i <= j < close ==> p[j] != CLOSE_BRACKET
    decreases |p| - i
  {
    if i == |p| || p[i] == CLOSE_BRACKET then i else FindClose(p, i + 1)
  }

  /** A token that consumes one byte starts at pi: neither the end, nor a star, nor an unclosed bracket. */
  predicate HasToken(p: bytes, pi: nat) {
    pi < |p| && p[pi] != STAR && (p[pi] == OPEN_BRACKET ==> FindClose(p, pi + 1) < |p|)
  }

  /** The position just after the token at pi. */
  function After(p: bytes, pi: nat): (next: nat)
    requires HasToken(p, pi)
    ensures pi < next <= |p|
  {
    if p[pi] == OPEN_BRACKET then FindClose(p, pi + 1) + 1 else pi + 1
  }

  /** The token at pi accepts the byte c. */
  ghost predicate Accepts(p: bytes, pi: nat, c: byte)
    requires HasToken(p, pi)
  {
    if p[pi] == QUESTION then true
    else if p[pi] == OPEN_BRACKET then exists i :: pi < i < FindClose(p, pi + 1) && p[i] == c
    else p[pi] == c
  }

  /** Pattern p from position pi on matches the subject s from position si on. */
  ghost predicate MatchesAt(p: bytes, pi: nat, s: bytes, si: nat)
    requires pi <= |p| && si <= |s|
    decreases |p| - pi, 0
  {
    if pi == |p| then si == |s|
    else if p[pi] == STAR then SomeSuffixMatches(p, pi + 1, s, si)
    else HasToken(p, pi) && si < |s| && Accepts(p, pi, s[si]) && MatchesAt(p, After(p, pi), s, si + 1)
  }

  /** Pattern p from pi on matches some suffix of s that starts at `from` or later: what a star tries. */
  ghost predicate SomeSuffixMatches(p: bytes, pi: nat, s: bytes, from: nat)
    requires pi <= |p|
    decreases |p| - pi, 1
  {
    exists k :: from <= k <= |s| && MatchesAt(p, pi, s, k)
  }

  ghost predicate Matches(p: bytes, s: bytes) {
    MatchesAt(p, 0, s, 0)
  }

  lemma SuffixWitness(p: bytes, pi: nat, s: bytes, from: nat) returns (k: nat)
    requires pi <= |p| && SomeSuffixMatches(p, pi, s, from)
    ensures from <= k <= |s| && MatchesAt(p, pi, s, k)
  {
    k :| from <= k <= |s| && MatchesAt(p, pi, s, k);
  }

  // ----- why earlier stars never need to be revisited

  /** n tokens and no star lead from position a to position b of the pattern. */
  ghost predicate Chain(p: bytes, a: nat, b: nat, n: nat)
    requires a <= |p|
    decreases n
  {
    if n == 0 then a == b else HasToken(p, a) && Chain(p, After(p, a), b, n - 1)
  }

  lemma {:induction false} ChainExtends(p: bytes, a: nat, b: nat, n: nat)
    requires a <= |p| && Chain(p, a, b, n) && HasToken(p, b)
    ensures Chain(p, a, After(p, b), n + 1)
    decreases n
  {
    if n == 0 {
    } else {
      ChainExtends(p, After(p, a), b, n - 1);
    }
  }

  /** A match starting before a star-free segment uses up exactly one byte for each token of the segment. */
  lemma {:induction false} ChainConsumes(p: bytes, a: nat, b: nat, n: nat, s: bytes, k: nat)
    requires a <= |p| && k <= |s| && Chain(p, a, b, n) && MatchesAt(p, a, s, k)
    ensures k + n <= |s| && b <= |p| && MatchesAt(p, b, s, k + n)
    decreases n
  {
    if n == 0 {
    } else {
      ChainConsumes(p, After(p, a), b, n - 1, s, k + 1);
    }
  }

  /**
   The heart of the algorithm. When the loop reaches a new star at pi, having matched the tokens after the
   previous star against s[from..si], any later choice for the previous star is also a choice for the new one.
   */
  lemma NewStarSubsumesOld(p: bytes, body: nat, pi: nat, s: bytes, from: nat, si: nat)
    requires body <= pi < |p| && p[pi] == STAR && from <= si <= |s|
    requires Chain(p, body, pi, si - from)
    requires SomeSuffixMatches(p, body, s, from + 1)
    ensures MatchesAt(p, pi, s, si)
  {
    var k := SuffixWitness(p, body, s, from + 1);
    ChainConsumes(p, body, pi, si - from, s, k);
    assert MatchesAt(p, pi, s, k + (si - from));
    var j :| k + (si - from) <= j <= |s| && MatchesAt(p, pi + 1, s, j);
  }

  /** Once the subject is used up, moving the last star further right cannot help. */
  lemma NoLaterChoiceAtEnd(p: bytes, body: nat, pi: nat, s: bytes, from: nat)
    requires body <= |p| && from <= |s| && Chain(p, body, pi, |s| - from)
    ensures !SomeSuffixMatches(p, body, s, from + 1)
  {
    if SomeSuffixMatches(p, body, s, from + 1) {
      var k := SuffixWitness(p, body, s, from + 1);
      ChainConsumes(p, body, pi, |s| - from, s, k);
    }
  }

  lemma {:induction false} OnlyStarsMatchNothing(p: bytes, pi: nat, s: bytes)
    requires pi <= |p|
    ensures MatchesAt(p, pi, s, |s|) <==> forall j :: pi <= j < |p| ==> p[j] == STAR
    decreases |p| - pi
  {
    if pi < |p| && p[pi] == STAR {
      OnlyStarsMatchNothing(p, pi + 1, s);
    }
  }

  /** What the loop has established: the whole question is still whether one of the open choices works. */
  ghost predicate Open(p: bytes, pi: nat, s: bytes, si: nat, star: int, starS: nat)
    requires pi <= |p| && si <= |s| && -1 <= star < |p|
  {
    MatchesAt(p, pi, s, si) || (star >= 0 && SomeSuffixMatches(p, star + 1, s, starS + 1))
  }

  ghost predicate StarRecorded(p: bytes, pi: nat, si: nat, star: int, starS: nat)
    requires pi <= |p| && -1 <= star < |p|
  {
    star >= 0 ==> star < pi && starS <= si && Chain(p, star + 1, pi, si - starS)
  }

  /** Reaching a star: the open choices are exactly the choices of the new star. */
  lemma StepOntoStar(p: bytes, pi: nat, s: bytes, si: nat, star: int, starS: nat)
    requires pi < |p| && si <= |s| && -1 <= star < |p|
    requires p[pi] == STAR && StarRecorded(p, pi, si, star, starS)
    ensures Open(p, pi, s, si, star, starS) <==> Open(p, pi + 1, s, si, pi, si)
    ensures StarRecorded(p, pi + 1, si, pi, si)
  {
    if star >= 0 && SomeSuffixMatches(p, star + 1, s, starS + 1) {
      NewStarSubsumesOld(p, star + 1, pi, s, starS, si);
    }
    SuffixSplits(p, pi + 1, s, si);
  }

  lemma SuffixSplits(p: bytes, pi: nat, s: bytes, si: nat)
    requires pi <= |p| && si <= |s|
    ensures SomeSuffixMatches(p, pi, s, si) <==> MatchesAt(p, pi, s, si) || SomeSuffixMatches(p, pi, s, si + 1)
  {
    if SomeSuffixMatches(p, pi, s, si) {
      var k := SuffixWitness(p, pi, s, si);
    }
  }

  /** A token that accepts the next byte: both positions move on. */
  lemma StepOverToken(p: bytes, pi: nat, s: bytes, si: nat, star: int, starS: nat)
    requires pi <= |p| && si < |s| && -1 <= star < |p|
    requires HasToken(p, pi) && Accepts(p, pi, s[si]) && StarRecorded(p, pi, si, star, starS)
    ensures Open(p, pi, s, si, star, starS) <==> Open(p, After(p, pi), s, si + 1, star, starS)
    ensures StarRecorded(p, After(p, pi), si + 1, star, starS)
  {
    if star >= 0 {
      ChainExtends(p, star + 1, pi, si - starS);
    }
  }

  /** No token accepts the next byte: only a later choice of the last star is left. */
  lemma StepBack(p: bytes, pi: nat, s: bytes, si: nat, star: int, starS: nat)
    requires pi <= |p| && si < |s| && -1 <= star < |p| && starS <= si
    requires (pi < |p| ==> p[pi] != STAR) && !(HasToken(p, pi) && Accepts(p, pi, s[si]))
    ensures !MatchesAt(p, pi, s, si)
    ensures star >= 0 ==> (Open(p, pi, s, si, star, starS) <==> Open(p, star + 1, s, starS + 1, star, starS + 1))
  {
    if star >= 0 {
      SuffixSplits(p, star + 1, s, starS + 1);
    }
  }

  // ----- the program

  /** The single-byte token at p[pi]: whether it accepts c, its length, and whether there is one at all. */
  method MatchToken(p: bytes, pi: nat, c: byte) returns (matched: bool, tokenLen: nat, ok: bool)
    ensures ok <==> HasToken(p, pi)
    ensures ok ==> pi + tokenLen == After(p, pi)
    ensures matched <==> ok && Accepts(p, pi, c)
  {
    if pi >= |p| {
      return false, 0, false;
    }
    if p[pi] == STAR {
      return false, 0, false;
    } else if p[pi] == QUESTION {
      return true, 1, true;
    } else if p[pi] == OPEN_BRACKET {
      var closeIdx := -1;
      var i := pi + 1;
      while i < |p| && closeIdx == -1
        invariant pi < i <= |p|
        invariant closeIdx == -1 ==> FindClose(p, pi + 1) == FindClose(p, i)
        invariant closeIdx != -1 ==> closeIdx == FindClose(p, pi + 1) < |p|
        decreases |p| - i, if closeIdx == -1 then 1 else 0
      {
        if p[i] == CLOSE_BRACKET {
          closeIdx := i;
        } else {
          i := i + 1;
        }
      }
      if closeIdx == -1 {
        return false, 0, false;
      }
      i := pi + 1;
      while i < closeIdx
        invariant pi < i <= closeIdx
        invariant forall j :: pi < j < i ==> p[j] != c
      {
        if p[i] == c {
          return true, closeIdx - pi + 1, true;
        }
        i := i + 1;
      }
      return false, closeIdx - pi + 1, true;
    } else {
      return p[pi] == c, 1, true;
    }
  }

  /** m + 1 iterations for each of the n bytes the last star has swallowed. */
  ghost function Budget(n: nat, m: nat): nat {
    if n == 0 then 0 else Budget(n - 1, m) + m + 1
  }

  lemma {:induction false} BudgetIsProduct(n: nat, m: nat)
    ensures Budget(n, m) == n * (m + 1)
  {
    if n == 0 {
    } else {
      BudgetIsProduct(n - 1, m);
      assert n * (m + 1) == (n - 1) * (m + 1) + (m + 1);
    }
  }

  lemma {:induction false} BudgetMonotone(a: nat, b: nat, m: nat)
    requires a <= b
    ensures Budget(a, m) <= Budget(b, m)
    decreases b - a
  {
    if a < b {
      BudgetMonotone(a + 1, b, m);
    }
  }

  lemma LoneStarMatchesAll(s: bytes)
    ensures Matches([STAR], s)
  {
    var p := [STAR];
    assert MatchesAt(p, 1, s, |s|);
    assert SomeSuffixMatches(p, 1, s, 0);
  }

  /** The matcher. `steps` counts the iterations of its main loop. */
  method Match(p: bytes, s: bytes) returns (r: bool, ghost steps: nat)
    ensures r <==> Matches(p, s)
    ensures steps <= |s| * (|p| + 1) + |p|
  {
    steps := 0;
    BudgetIsProduct(|s|, |p|);
    if p == [STAR] {
      LoneStarMatchesAll(s);
      return true, 0;
    }
    var pi, si := 0, 0;
    var star, starS := -1, 0;
    while si < |s|
      invariant 0 <= pi <= |p| && 0 <= si <= |s|
      invariant -1 <= star < |p| && 0 <= starS <= |s|
      invariant star < 0 ==> starS == 0
      invariant StarRecorded(p, pi, si, star, starS)
      invariant Matches(p, s) <==> Open(p, pi, s, si, star, starS)
      invariant steps <= Budget(starS, |p|) + pi && Budget(starS, |p|) <= Budget(|s|, |p|)
      decreases |s| - starS, |p| - pi
    {
      steps := steps + 1;
      if pi < |p| && p[pi] == STAR {
        StepOntoStar(p, pi, s, si, star, starS);
        BudgetMonotone(starS, si, |p|);
        BudgetMonotone(si, |s|, |p|);
        star, starS := pi, si;
        pi := pi + 1;
        continue;
      }
      var matched, tokenLen, ok := MatchToken(p, pi, s[si]);
      if ok && matched {
        StepOverToken(p, pi, s, si, star, starS);
        pi := pi + tokenLen;
        si := si + 1;
        continue;
      }
      StepBack(p, pi, s, si, star, starS);
      if star >= 0 {
        BudgetMonotone(starS + 1, |s|, |p|);
        starS := starS + 1;
        si := starS;
        pi := star + 1;
        continue;
      }
      return false, steps;
    }
    if star >= 0 {
      NoLaterChoiceAtEnd(p, star + 1, pi, s, starS);
    }
    OnlyStarsMatchNothing(p, pi, s);
    ghost var rest := pi;
    while pi < |p| && p[pi] == STAR
      invariant rest <= pi <= |p|
      invariant forall j :: rest <= j < pi ==> p[j] == STAR
    {
      pi := pi + 1;
    }
    return pi == |p|, steps;
  }

  // ----- consequences

  /** A bracket that is never closed makes the pattern match nothing at all. */
  lemma {:induction false} UnclosedBracketNeverMatches(p: bytes, pi: nat, s: bytes, si: nat, open: nat)
    requires pi <= open < |p| && si <= |s|
    requires p[open] == OPEN_BRACKET && FindClose(p, open + 1) == |p|
    requires forall j :: pi <= j < open ==> p[j] != OPEN_BRACKET
    ensures !MatchesAt(p, pi, s, si)
    decreases |p| - pi
  {
    if pi == open {
    } else if p[pi] == STAR {
      if SomeSuffixMatches(p, pi + 1, s, si) {
        var k := SuffixWitness(p, pi + 1, s, si);
        UnclosedBracketNeverMatches(p, pi + 1, s, k, open);
      }
    } else if si < |s| {
      UnclosedBracketNeverMatches(p, pi + 1, s, si + 1, open);
    }
  }

  /** A pattern without special bytes matches exactly itself. */
  lemma {:induction false} LiteralMatchesItself(p: bytes, pi: nat, s: bytes, si: nat)
    requires pi <= |p| && si <= |s|
    requires forall j :: pi <= j < |p| ==> p[j] != STAR && p[j] != QUESTION && p[j] != OPEN_BRACKET
    ensures MatchesAt(p, pi, s, si) <==> p[pi..] == s[si..]
    decreases |p| - pi
  {
    if pi < |p| && si < |s| {
      LiteralMatchesItself(p, pi + 1, s, si + 1);
      assert p[pi..] == [p[pi]] + p[pi + 1..];
      assert s[si..] == [s[si]] + s[si + 1..];
    }
  }

  // ----- patterns as lists of elements

  datatype Element = Run | Any | OneOf(choice: bytes) | Text(text: bytes)

  datatype Elements = End | Next(first: Element, later: Elements)

  /** A choice cannot hold the bracket that ends it; literal text holds none of '*', '?' and '['. */
  predicate Spellable(e: Element) {
    match e
    case OneOf(choice) => 93 !in choice
    case Text(text) => 42 !in text && 63 !in text && 91 !in text
    case _ => true
  }

  predicate AllSpellable(es: Elements) {
    es.End? || (Spellable(es.first) && AllSpellable(es.later))
  }

  function Spelled(e: Element): bytes {
    match e
    case Run => [42]
    case Any => [63]
    case OneOf(choice) => [91] + choice + [93]
    case Text(text) => text
  }

  function Pattern(es: Elements): bytes {
    if es.End? then [] else Spelled(es.first) + Pattern(es.later)
  }

  /** Which part of a subject an element stands for. */
  predicate Fits(e: Element, piece: bytes) {
    match e
    case Run => true
    case Any => |piece| == 1
    case OneOf(choice) => |piece| == 1 && piece[0] in choice
    case Text(text) => piece == text
  }

  /** The subject can be cut into pieces, one for each element and fitting it. */
  ghost predicate Cuts(es: Elements, s: bytes) {
    if es.End? then s == []
    else exists k :: 0 <= k <= |s| && Fits(es.first, s[..k]) && Cuts(es.later, s[k..])
  }

  /** A pattern matches exactly the subjects that can be cut into pieces fitting its elements. */
  lemma MatchesIffCut(es: Elements, s: bytes)
    requires AllSpellable(es)
    ensures Matches(Pattern(es), s) <==> Cuts(es, s)
  {
    var p := Pattern(es);
    assert p[0..] == p && s[0..] == s;
    MatchesCuts(p, 0, es, s, 0);
  }

  lemma {:induction false} MatchesCuts(p: bytes, pi: nat, es: Elements, s: bytes, si: nat)
    requires pi <= |p| && si <= |s| && p[pi..] == Pattern(es) && AllSpellable(es)
    ensures MatchesAt(p, pi, s, si) <==> Cuts(es, s[si..])
    decreases es
  {
    if es.Next? {
      var e := es.first;
      var next := pi + |Spelled(e)|;
      assert next <= |p| && p[next..] == Pattern(es.later) by {
        Behind(p, pi, Spelled(e), Pattern(es.later));
      }
      forall k | si <= k <= |s| ensures MatchesAt(p, next, s, k) <==> Cuts(es.later, s[k..]) {
        MatchesCuts(p, next, es.later, s, k);
      }
      ElementMatches(p, pi, e, Pattern(es.later), s, si);
      hide MatchesAt, Pattern, Fits, Spelled;
      CutFrom(es, s, si);
    }
  }

  lemma Behind(p: bytes, pi: nat, front: bytes, rest: bytes)
    requires pi <= |p| && p[pi..] == front + rest
    ensures pi + |front| <= |p| && p[pi + |front|..] == rest
    ensures forall j :: 0 <= j < |front| ==> p[pi + j] == front[j]
  {
    assert p[pi + |front|..] == p[pi..][|front|..];
    assert forall j :: 0 <= j < |front| ==> p[pi + j] == p[pi..][j];
  }

  /** Cutting at a position of the subject. */
  lemma CutFrom(es: Elements, s: bytes, si: nat)
    requires es.Next? && si <= |s|
    ensures Cuts(es, s[si..]) <==> exists k :: si <= k <= |s| && Fits(es.first, s[si..k]) && Cuts(es.later, s[k..])
  {
    hide Fits;
    var t := s[si..];
    if k :| 0 <= k <= |t| && Fits(es.first, t[..k]) && Cuts(es.later, t[k..]) {
      assert t[..k] == s[si..si + k] && t[k..] == s[si + k..];
    }
    if k :| si <= k <= |s| && Fits(es.first, s[si..k]) && Cuts(es.later, s[k..]) {
      assert t[..k - si] == s[si..k] && t[k - si..] == s[k..];
    }
  }

  /** One element of a pattern: it takes a piece that fits it, and the rest of the pattern matches the rest. */
  lemma ElementMatches(p: bytes, pi: nat, e: Element, later: bytes, s: bytes, si: nat)
    requires pi <= |p| && si <= |s| && p[pi..] == Spelled(e) + later && Spellable(e)
    ensures pi + |Spelled(e)| <= |p|
    ensures MatchesAt(p, pi, s, si) <==>
      exists k :: si <= k <= |s| && Fits(e, s[si..k]) && MatchesAt(p, pi + |Spelled(e)|, s, k)
  {
    Behind(p, pi, Spelled(e), later);
    match e
    case Run =>
      assert MatchesAt(p, pi, s, si) <==> SomeSuffixMatches(p, pi + 1, s, si);
      if SomeSuffixMatches(p, pi + 1, s, si) {
        var k := SuffixWitness(p, pi + 1, s, si);
        assert Fits(e, s[si..k]);
      }
    case Any =>
      assert p[pi] == 63;
      OneByte(e, p, pi, s, si);
    case OneOf(choice) =>
      ChoiceAt(p, pi, choice);
      OneByte(e, p, pi, s, si);
    case Text(text) =>
      var n := |text|;
      assert p[pi..pi + n] == text;
      forall j | pi <= j < pi + n ensures p[j] !in {STAR, QUESTION, OPEN_BRACKET} {
        assert p[j] == text[j - pi] && text[j - pi] in text;
      }
      TextMatches(p, pi, n, s, si);
      forall k | si <= k <= |s| && s[si..k] == text ensures k == si + n {
        assert |s[si..k]| == k - si;
      }
      if MatchesAt(p, pi, s, si) {
        assert Fits(e, s[si..si + n]);
      }
  }

  /** A token that stands for one byte. */
  lemma OneByte(e: Element, p: bytes, pi: nat, s: bytes, si: nat)
    requires si <= |s| && HasToken(p, pi) && After(p, pi) == pi + |Spelled(e)|
    requires forall piece :: Fits(e, piece) <==> |piece| == 1 && Accepts(p, pi, piece[0])
    ensures MatchesAt(p, pi, s, si) <==>
      exists k :: si <= k <= |s| && Fits(e, s[si..k]) && MatchesAt(p, pi + |Spelled(e)|, s, k)
  {
    hide Fits, Spelled, After, Accepts, FindClose;
    if si < |s| {
      assert |s[si..si + 1]| == 1 && s[si..si + 1][0] == s[si];
    }
    forall k | si <= k <= |s| && Fits(e, s[si..k]) ensures k == si + 1 {
      assert |s[si..k]| == k - si;
    }
    if MatchesAt(p, pi, s, si) {
      assert Fits(e, s[si..si + 1]);
    }
  }

  lemma {:induction false} TextMatches(p: bytes, pi: nat, n: nat, s: bytes, si: nat)
    requires pi + n <= |p| && si <= |s|
    requires forall j :: pi <= j < pi + n ==> p[j] !in {STAR, QUESTION, OPEN_BRACKET}
    ensures MatchesAt(p, pi, s, si) <==>
      si + n <= |s| && p[pi..pi + n] == s[si..si + n] && MatchesAt(p, pi + n, s, si + n)
    decreases n
  {
    if n == 0 {
    } else if si < |s| {
      TextMatches(p, pi + 1, n - 1, s, si + 1);
      if si + n <= |s| {
        assert p[pi..pi + n] == [p[pi]] + p[pi + 1..pi + n];
        assert s[si..si + n] == [s[si]] + s[si + 1..si + n];
        SameFirst(p[pi], p[pi + 1..pi + n], s[si], s[si + 1..si + n]);
      }
    }
  }

  lemma SameFirst(a: byte, x: bytes, b: byte, y: bytes)
    ensures [a] + x == [b] + y <==> a == b && x == y
  {
    if [a] + x == [b] + y {
      assert ([a] + x)[0] == ([b] + y)[0] && ([a] + x)[1..] == ([b] + y)[1..];
    }
  }

  lemma ChoiceAt(p: bytes, pi: nat, choice: bytes)
    requires pi + |choice| + 2 <= |p| && 93 !in choice && p[pi] == 91 && p[pi + 1 + |choice|] == 93
    requires forall j :: 0 <= j < |choice| ==> p[pi + 1 + j] == choice[j]
    ensures HasToken(p, pi) && After(p, pi) == pi + |choice| + 2
    ensures forall c :: Accepts(p, pi, c) <==> c in choice
  {
    var close := pi + 1 + |choice|;
    forall j | pi + 1 <= j < close ensures p[j] != 93 {
      assert p[j] == choice[j - pi - 1];
    }
    CloseIs(p, pi + 1, close);
    forall c ensures Accepts(p, pi, c) <==> c in choice {
      if c in choice {
        var j :| 0 <= j < |choice| && choice[j] == c;
        assert p[pi + 1 + j] == c;
      }
      if Accepts(p, pi, c) {
        var i :| pi < i < close && p[i] == c;
        assert choice[i - pi - 1] == c;
      }
    }
  }

  lemma CloseIs(p: bytes, i: nat, at: nat)
    requires i <= at < |p| && p[at] == 93 && forall j :: i <= j < at ==> p[j] != 93
    ensures FindClose(p, i) == at
  {
  }

  /** Every pattern is a list of elements, or one with a bracket after it that is never closed: that matches nothing. */
  lemma EveryPattern(p: bytes) returns (es: Elements, rest: bytes)
    ensures p == Pattern(es) + rest && AllSpellable(es)
    ensures rest == [] || (rest[0] == 91 && 93 !in rest[1..] && forall s :: !Matches(p, s))
  {
    es, rest := ElementsFrom(p);
    if rest != [] {
      forall s ensures !Matches(p, s) {
        assert p[0..] == p;
        NeverMatches(p, 0, es, rest, s, 0);
      }
    }
  }

  lemma {:induction false} ElementsFrom(p: bytes) returns (es: Elements, rest: bytes)
    ensures p == Pattern(es) + rest && AllSpellable(es)
    ensures rest == [] || (rest[0] == 91 && 93 !in rest[1..])
    decreases |p|
  {
    if p == [] {
      return End, [];
    }
    var e := Text([p[0]]);
    if p[0] == 42 {
      e := Run;
    } else if p[0] == 63 {
      e := Any;
    } else if p[0] == 91 {
      var close := FindClose(p, 1);
      if close == |p| {
        assert forall j :: 0 <= j < |p[1..]| ==> p[1..][j] == p[j + 1];
        return End, p;
      }
      e := OneOf(p[1..close]);
      assert forall j :: 0 <= j < |p[1..close]| ==> p[1..close][j] == p[j + 1];
    }
    var n := |Spelled(e)|;
    assert p[..n] == Spelled(e);
    es, rest := ElementsFrom(p[n..]);
    Regroup(p, n, Pattern(es), rest);
    es := Next(e, es);
  }

  lemma Regroup(p: bytes, n: nat, middle: bytes, rest: bytes)
    requires n <= |p| && p[n..] == middle + rest
    ensures p == (p[..n] + middle) + rest
  {
    assert p == p[..n] + p[n..];
  }

  lemma {:induction false} NeverMatches(p: bytes, pi: nat, es: Elements, rest: bytes, s: bytes, si: nat)
    requires pi <= |p| && si <= |s| && p[pi..] == Pattern(es) + rest && AllSpellable(es)
    requires rest != [] && rest[0] == 91 && 93 !in rest[1..]
    ensures !MatchesAt(p, pi, s, si)
    decreases es
  {
    if es.End? {
      NoTokenAt(p, pi, rest);
    } else {
      FirstSpelled(es, rest);
      hide MatchesAt, Pattern, Fits, Spelled;
      var front, later := Spelled(es.first), Pattern(es.later) + rest;
      ElementMatches(p, pi, es.first, later, s, si);
      Behind(p, pi, front, later);
      var next := pi + |front|;
      forall k | si <= k <= |s| ensures !MatchesAt(p, next, s, k) {
        NeverMatches(p, next, es.later, rest, s, k);
      }
    }
  }

  lemma FirstSpelled(es: Elements, rest: bytes)
    requires es.Next?
    ensures Pattern(es) + rest == Spelled(es.first) + (Pattern(es.later) + rest)
  {
    hide Spelled;
  }

  lemma NoTokenAt(p: bytes, pi: nat, rest: bytes)
    requires pi <= |p| && p[pi..] == rest && rest != [] && rest[0] == 91 && 93 !in rest[1..]
    ensures pi < |p| && p[pi] != STAR && !HasToken(p, pi)
  {
    assert p[pi] == p[pi..][0];
    forall j | pi + 1 <= j < |p| ensures p[j] != 93 {
      assert p[j] == p[pi..][j - pi] == rest[1..][j - pi - 1];
    }
  }

  // ----- one special element between two texts

  predicate Plain(text: bytes) {
    42 !in text && 63 !in text && 91 !in text
  }

  lemma AroundOne(pre: bytes, e: Element, post: bytes, s: bytes)
    requires Plain(pre) && Plain(post) && Spellable(e)
    ensures Matches(pre + Spelled(e) + post, s) <==> exists piece :: Fits(e, piece) && s == pre + piece + post
  {
    var es := Next(Text(pre), Next(e, Next(Text(post), End)));
    assert AllSpellable(es) by {
      assert Spellable(Text(pre)) && Spellable(Text(post));
      assert AllSpellable(Next(Text(post), End));
      assert AllSpellable(Next(e, Next(Text(post), End)));
    }
    PatternOfThree(pre, e, post);
    hide Fits, Spelled, Pattern, Matches, Cuts;
    MatchesIffCut(es, s);
    if Cuts(es, s) {
      var piece := PieceBetween(pre, e, post, s);
    }
    if piece :| Fits(e, piece) && s == pre + piece + post {
      CutAround(pre, e, piece, post);
    }
  }

  lemma PieceBetween(pre: bytes, e: Element, post: bytes, s: bytes) returns (piece: bytes)
    requires Cuts(Next(Text(pre), Next(e, Next(Text(post), End))), s)
    ensures Fits(e, piece) && s == pre + piece + post
  {
    hide Fits;
    var last := Next(Text(post), End);
    var es := Next(Text(pre), Next(e, last));
    var k :| 0 <= k <= |s| && Fits(es.first, s[..k]) && Cuts(es.later, s[k..]);
    var t := s[k..];
    var m :| 0 <= m <= |t| && Fits(e, t[..m]) && Cuts(last, t[m..]);
    LastCut(post, t[m..]);
    TextFits(pre, s[..k]);
    piece := t[..m];
    assert s == s[..k] + t && t == t[..m] + t[m..];
  }

  lemma CutAround(pre: bytes, e: Element, piece: bytes, post: bytes)
    requires Fits(e, piece)
    ensures Cuts(Next(Text(pre), Next(e, Next(Text(post), End))), pre + piece + post)
  {
    hide Fits;
    var last := Next(Text(post), End);
    LastCut(post, post);
    CutOff(e, piece, last, post);
    TextFits(pre, pre);
    CutOff(Text(pre), pre, Next(e, last), piece + post);
    assert pre + piece + post == pre + (piece + post);
  }

  lemma CutOff(e: Element, piece: bytes, later: Elements, rest: bytes)
    requires Fits(e, piece) && Cuts(later, rest)
    ensures Cuts(Next(e, later), piece + rest)
  {
    hide Fits;
    var s := piece + rest;
    assert s[..|piece|] == piece && s[|piece|..] == rest;
  }

  lemma TextFits(text: bytes, piece: bytes)
    ensures Fits(Text(text), piece) <==> piece == text
  {
  }

  lemma PatternOfThree(pre: bytes, e: Element, post: bytes)
    ensures Pattern(Next(Text(pre), Next(e, Next(Text(post), End)))) == pre + Spelled(e) + post
  {
    var last := Next(Text(post), End);
    assert Pattern(last) == post + [] == post;
    assert Pattern(Next(e, last)) == Spelled(e) + post;
    assert pre + (Spelled(e) + post) == pre + Spelled(e) + post;
  }

  lemma LastCut(post: bytes, t: bytes)
    ensures Cuts(Next(Text(post), End), t) <==> t == post
  {
    assert t[..|t|] == t && t[|t|..] == [];
    var es := Next(Text(post), End);
    if k :| 0 <= k <= |t| && Fits(es.first, t[..k]) && Cuts(es.later, t[k..]) {
      assert k == |t|;
    }
  }

  /** Brackets stand for one of the bytes between them. */
  lemma BracketsMatch(pre: bytes, choice: bytes, post: bytes, s: bytes)
    requires Plain(pre) && Plain(post) && 93 !in choice
    ensures Matches(pre + ([91] + choice + [93]) + post, s) <==> exists c :: c in choice && s == pre + [c] + post
  {
    AroundOne(pre, OneOf(choice), post, s);
    if piece :| Fits(OneOf(choice), piece) && s == pre + piece + post {
      assert piece == [piece[0]];
    }
    if c :| c in choice && s == pre + [c] + post {
      assert Fits(OneOf(choice), [c]);
    }
  }

  /** A question mark stands for any one byte. */
  lemma QuestionMatches(pre: bytes, post: bytes, s: bytes)
    requires Plain(pre) && Plain(post)
    ensures Matches(pre + [63] + post, s) <==> exists c :: s == pre + [c] + post
  {
    AroundOne(pre, Any, post, s);
    if piece :| Fits(Any, piece) && s == pre + piece + post {
      assert piece == [piece[0]];
    }
    if c :| s == pre + [c] + post {
      assert Fits(Any, [c]);
    }
  }

  /** A star stands for any run of bytes, also none. */
  lemma StarMatches(pre: bytes, post: bytes, s: bytes)
    requires Plain(pre) && Plain(post)
    ensures Matches(pre + [42] + post, s) <==> exists run :: s == pre + run + post
  {
    AroundOne(pre, Run, post, s);
    if run :| s == pre + run + post {
      assert Fits(Run, run);
    }
  }
}
