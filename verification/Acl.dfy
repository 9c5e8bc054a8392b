/**
 Access control rules: what each rule does to a user, what a user may then do, and the rule list a user is saved as.

 Strings are byte strings, taken to be ASCII where case is folded. The command table maps each known command to its
 categories; no category is called "all". The password digest is a parameter that yields lower-case text.
 */
module Acl {
  import opened Bytes
  import Glob
  import Words

  const ON: bytes := [111, 110] // "on"
  const OFF: bytes := [111, 102, 102] // "off"
  const NOPASS: bytes := [110, 111, 112, 97, 115, 115] // "nopass"
  const RESETPASS: bytes := [114, 101, 115, 101, 116, 112, 97, 115, 115] // "resetpass"
  const RESETKEYS: bytes := [114, 101, 115, 101, 116, 107, 101, 121, 115] // "resetkeys"
  const RESETCHANNELS: bytes := [114, 101, 115, 101, 116, 99, 104, 97, 110, 110, 101, 108, 115] // "resetchannels"
  const RESET: bytes := [114, 101, 115, 101, 116] // "reset"
  const ALLCOMMANDS: bytes := [97, 108, 108, 99, 111, 109, 109, 97, 110, 100, 115] // "allcommands"
  const NOCOMMANDS: bytes := [110, 111, 99, 111, 109, 109, 97, 110, 100, 115] // "nocommands"
  const ALLKEYS: bytes := [97, 108, 108, 107, 101, 121, 115] // "allkeys"
  const ALLCHANNELS: bytes := [97, 108, 108, 99, 104, 97, 110, 110, 101, 108, 115] // "allchannels"

  const BANG: byte := 33 // '!'
  const HASH: byte := 35 // '#'
  const AMP: byte := 38 // '&'
  const LESS: byte := 60 // '<'
  const GREATER: byte := 62 // '>'
  const AT: byte := 64 // '@'
  const TILDE: byte := 126 // '~'

  // ----- a user's permissions

  datatype Perms = Perms(
    enabled: bool,
    noPass: bool,
    passwords: seq<bytes>,
    allCommands: bool,
    allowedCmds: set<bytes>,
    deniedCmds: set<bytes>,
    allowedCats: set<bytes>,
    deniedCats: set<bytes>,
    allKeys: bool,
    keyPatterns: seq<bytes>,
    allChannels: bool,
    channelPatterns: seq<bytes>)

  /** What a new user starts with, and what the default user does. */
  const FRESH_PERMS := Perms(true, false, [], false, {}, {}, {}, {}, false, [], false, [])
  const OPEN_PERMS := Perms(true, true, [], true, {}, {}, {}, {}, true, [], true, [])

  function AppendUnique(xs: seq<bytes>, v: bytes): seq<bytes> {
    if v in xs then xs else xs + [v]
  }

  function Without(xs: seq<bytes>, v: bytes): seq<bytes> {
    if xs == [] then [] else (if xs[0] == v then [] else [xs[0]]) + Without(xs[1..], v)
  }

  predicate Starts(raw: bytes, c: byte) {
    raw != [] && raw[0] == c
  }

  predicate StartsAt(raw: bytes, c: byte) {
    |raw| >= 2 && raw[0] == c && raw[1] == AT
  }

  datatype Word =
    | On | Off | NoPass | ResetPass | ResetKeys | ResetChannels | Reset
    | AllCommands | NoCommands | AllKeys | AllChannels | NotAWord

  function WordOf(raw: bytes): Word {
    if raw == ON then On
    else if raw == OFF then Off
    else if raw == NOPASS then NoPass
    else if raw == RESETPASS then ResetPass
    else if raw == RESETKEYS then ResetKeys
    else if raw == RESETCHANNELS then ResetChannels
    else if raw == RESET then Reset
    else if raw == ALLCOMMANDS then AllCommands
    else if raw == NOCOMMANDS then NoCommands
    else if raw == ALLKEYS then AllKeys
    else if raw == ALLCHANNELS then AllChannels
    else NotAWord
  }

  /** Every word starts with a letter, so no rule with a sign is one. */
  lemma WordsHaveNoSign(raw: bytes)
    requires raw != [] && raw[0] in {GREATER, LESS, HASH, BANG, PLUS, MINUS, TILDE, AMP}
    ensures WordOf(raw) == NotAWord
  {
  }

  /** Rules that are not a syntax error. */
  predicate WellFormed(raw: bytes) {
    raw == [] || WordOf(raw) != NotAWord || raw[0] in {GREATER, LESS, HASH, BANG, PLUS, MINUS, TILDE, AMP}
  }

  function WordRule(p: Perms, word: Word): Perms {
    match word
    case On => p.(enabled := true)
    case Off => p.(enabled := false)
    case NoPass => p.(noPass := true, passwords := [])
    case ResetPass => p.(noPass := false, passwords := [])
    case ResetKeys => p.(allKeys := false, keyPatterns := [])
    case ResetChannels => p.(allChannels := false, channelPatterns := [])
    case Reset => FRESH_PERMS
    case AllCommands => p.(allCommands := true)
    case NoCommands => p.(allCommands := false, allowedCmds := {}, allowedCats := {})
    case AllKeys => p.(allKeys := true)
    case AllChannels => p.(allChannels := true)
    case NotAWord => p
  }

  function PasswordRule(p: Perms, raw: bytes, hash: bytes -> bytes): Perms
    requires raw != []
  {
    if raw[0] == GREATER then p.(noPass := false, passwords := AppendUnique(p.passwords, hash(raw[1..])))
    else if raw[0] == LESS then p.(passwords := Without(p.passwords, hash(raw[1..])))
    else if raw[0] == HASH then p.(noPass := false, passwords := AppendUnique(p.passwords, Lower(raw[1..])))
    else if raw[0] == BANG then p.(passwords := Without(p.passwords, Lower(raw[1..])))
    else p
  }

  function CategoryRule(p: Perms, plus: bool, cat: bytes): Perms {
    if plus && cat == ALL then p.(allCommands := true)
    else if cat == ALL then p.(allCommands := false, allowedCmds := {}, allowedCats := {})
    else if plus then p.(allowedCats := p.allowedCats + {Lower(cat)})
    else p.(deniedCats := p.deniedCats + {Lower(cat)}, allowedCats := p.allowedCats - {Lower(cat)})
  }

  function CommandRule(p: Perms, plus: bool, cmd: bytes): Perms {
    if plus then p.(allowedCmds := p.allowedCmds + {Upper(cmd)}, deniedCmds := p.deniedCmds - {Upper(cmd)})
    else p.(deniedCmds := p.deniedCmds + {Upper(cmd)}, allowedCmds := p.allowedCmds - {Upper(cmd)})
  }

  function PatternRule(p: Perms, forKeys: bool, pat: bytes): Perms {
    if forKeys then
      if pat == [STAR] then p.(allKeys := true) else p.(keyPatterns := AppendUnique(p.keyPatterns, pat))
    else
      if pat == [STAR] then p.(allChannels := true) else p.(channelPatterns := AppendUnique(p.channelPatterns, pat))
  }

  /** What one rule does. */
  function Rule(p: Perms, raw: bytes, hash: bytes -> bytes): Perms {
    if raw == [] then p
    else if WordOf(raw) != NotAWord then WordRule(p, WordOf(raw))
    else if raw[0] in {GREATER, LESS, HASH, BANG} then PasswordRule(p, raw, hash)
    else if StartsAt(raw, PLUS) || StartsAt(raw, MINUS) then CategoryRule(p, raw[0] == PLUS, raw[2..])
    else if raw[0] == PLUS || raw[0] == MINUS then CommandRule(p, raw[0] == PLUS, raw[1..])
    else if raw[0] == TILDE || raw[0] == AMP then PatternRule(p, raw[0] == TILDE, raw[1..])
    else p
  }

  /** What a list of rules does: everything before the first malformed one takes effect. */
  function ApplyAll(p: Perms, rules: seq<bytes>, hash: bytes -> bytes): Perms
    decreases |rules|
  {
    if rules == [] || !WellFormed(rules[0]) then p else ApplyAll(Rule(p, rules[0], hash), rules[1..], hash)
  }

  // ----- what rule sequences keep

  ghost predicate Unique(xs: seq<bytes>) {
    forall i, j :: 0 <= i < j < |xs| ==> xs[i] != xs[j]
  }

  /** The digest is written in lower case, as hexadecimal text is. */
  ghost predicate LowerDigest(hash: bytes -> bytes) {
    forall x :: Lower(hash(x)) == hash(x)
  }

  ghost predicate PlainPasswords(noPass: bool, hs: seq<bytes>) {
    (noPass ==> hs == []) && Unique(hs) && forall h :: h in hs ==> Lower(h) == h
  }

  ghost predicate PlainCommands(allowed: set<bytes>, denied: set<bytes>) {
    allowed !! denied && forall c :: c in allowed + denied ==> Upper(c) == c && !Starts(c, AT)
  }

  ghost predicate PlainCategories(allowed: set<bytes>, denied: set<bytes>) {
    forall c :: c in allowed + denied ==> Lower(c) == c
  }

  ghost predicate PlainPatterns(ps: seq<bytes>) {
    Unique(ps) && [STAR] !in ps
  }

  ghost predicate Regular(p: Perms) {
    && PlainPasswords(p.noPass, p.passwords)
    && PlainCommands(p.allowedCmds, p.deniedCmds)
    && PlainCategories(p.allowedCats, p.deniedCats)
    && PlainPatterns(p.keyPatterns) && PlainPatterns(p.channelPatterns)
  }

  lemma {:induction false} WithoutIs(xs: seq<bytes>, v: bytes)
    ensures forall x :: x in Without(xs, v) <==> x in xs && x != v
    ensures Unique(xs) ==> Unique(Without(xs, v))
  {
    if xs == [] {
    } else {
      WithoutIs(xs[1..], v);
      assert xs == [xs[0]] + xs[1..];
      var t := Without(xs[1..], v);
      if Unique(xs) {
        assert Unique(xs[1..]);
        forall i | 0 <= i < |t| ensures t[i] != xs[0] {
          assert t[i] in t;
        }
      }
    }
  }

  lemma WithoutKeeps(noPass: bool, hs: seq<bytes>, v: bytes)
    requires PlainPasswords(noPass, hs)
    ensures PlainPasswords(noPass, Without(hs, v))
  {
    hide Lower;
    WithoutIs(hs, v);
  }

  lemma AppendKeeps(noPass: bool, hs: seq<bytes>, v: bytes)
    requires PlainPasswords(noPass, hs) && Lower(v) == v
    ensures PlainPasswords(false, AppendUnique(hs, v))
  {
    hide Lower;
  }

  lemma PasswordRuleKeeps(p: Perms, raw: bytes, hash: bytes -> bytes)
    requires Regular(p) && LowerDigest(hash) && raw != []
    ensures Regular(PasswordRule(p, raw, hash))
  {
    hide Upper, Lower, PlainPasswords, PlainCommands, PlainCategories, PlainPatterns, AppendUnique, Without;
    FoldTwice(raw[1..]);
    WithoutKeeps(p.noPass, p.passwords, hash(raw[1..]));
    WithoutKeeps(p.noPass, p.passwords, Lower(raw[1..]));
    AppendKeeps(p.noPass, p.passwords, hash(raw[1..]));
    AppendKeeps(p.noPass, p.passwords, Lower(raw[1..]));
  }

  lemma CommandRuleKeeps(p: Perms, plus: bool, cmd: bytes)
    requires Regular(p) && !Starts(cmd, AT)
    ensures Regular(CommandRule(p, plus, cmd))
  {
    assert !Starts(Upper(cmd), AT);
    FoldTwice(cmd);
    hide Upper, Lower, PlainPasswords, PlainCategories, PlainPatterns;
  }

  lemma CategoryRuleKeeps(p: Perms, plus: bool, cat: bytes)
    requires Regular(p)
    ensures Regular(CategoryRule(p, plus, cat))
  {
    hide Upper, Lower, PlainPasswords, PlainPatterns;
    FoldTwice(cat);
  }

  lemma PatternKeeps(ps: seq<bytes>, pat: bytes)
    requires PlainPatterns(ps) && pat != [STAR]
    ensures PlainPatterns(AppendUnique(ps, pat))
  {
  }

  lemma PatternRuleKeeps(p: Perms, forKeys: bool, pat: bytes)
    requires Regular(p)
    ensures Regular(PatternRule(p, forKeys, pat))
  {
    hide PlainPasswords, PlainCommands, PlainCategories, PlainPatterns, AppendUnique;
    if pat != [STAR] {
      PatternKeeps(p.keyPatterns, pat);
      PatternKeeps(p.channelPatterns, pat);
    }
  }

  lemma WordRuleKeeps(p: Perms, word: Word)
    requires Regular(p)
    ensures Regular(WordRule(p, word))
  {
    EmptyIsPlain(p);
    hide Upper, Lower, PlainPasswords, PlainCommands, PlainCategories, PlainPatterns;
  }

  lemma EmptyIsPlain(p: Perms)
    requires Regular(p)
    ensures (forall b :: PlainPasswords(b, [])) && PlainPatterns([])
    ensures PlainCommands({}, p.deniedCmds) && PlainCommands({}, {})
    ensures PlainCategories({}, p.deniedCats) && PlainCategories({}, {})
  {
    hide Upper, Lower;
  }

  lemma RuleKeeps(p: Perms, raw: bytes, hash: bytes -> bytes)
    requires Regular(p) && LowerDigest(hash)
    ensures Regular(Rule(p, raw, hash))
  {
    hide Upper, Lower, WordOf, Regular, WordRule, PasswordRule, CategoryRule, CommandRule, PatternRule;
    if raw != [] {
      if WordOf(raw) != NotAWord {
        WordRuleKeeps(p, WordOf(raw));
      } else if raw[0] in {GREATER, LESS, HASH, BANG} {
        PasswordRuleKeeps(p, raw, hash);
      } else if StartsAt(raw, PLUS) || StartsAt(raw, MINUS) {
        CategoryRuleKeeps(p, raw[0] == PLUS, raw[2..]);
      } else if raw[0] == PLUS || raw[0] == MINUS {
        CommandRuleKeeps(p, raw[0] == PLUS, raw[1..]);
      } else {
        PatternRuleKeeps(p, raw[0] == TILDE, raw[1..]);
      }
    }
  }

  /** Every user any rule list can lead to is regular. */
  lemma {:induction false} RulesKeep(p: Perms, rules: seq<bytes>, hash: bytes -> bytes)
    requires Regular(p) && LowerDigest(hash)
    ensures Regular(ApplyAll(p, rules, hash))
    decreases |rules|
  {
    hide Regular, Rule, WellFormed;
    if rules != [] && WellFormed(rules[0]) {
      RuleKeeps(p, rules[0], hash);
      RulesKeep(Rule(p, rules[0], hash), rules[1..], hash);
    }
  }

  // ----- rejected rule lists

  /** Every rule before the first malformed one is empty. */
  predicate NothingTakesEffect(rules: seq<bytes>)
    decreases |rules|
  {
    rules == [] || !WellFormed(rules[0]) || (rules[0] == [] && NothingTakesEffect(rules[1..]))
  }

  lemma {:induction false} NothingChanges(p: Perms, rules: seq<bytes>, hash: bytes -> bytes)
    requires NothingTakesEffect(rules)
    ensures ApplyAll(p, rules, hash) == p
    decreases |rules|
  {
    hide WellFormed;
    if rules == [] || !WellFormed(rules[0]) {
    } else {
      NothingChanges(p, rules[1..], hash);
    }
  }

  lemma WithoutTwice(xs: seq<bytes>, v: bytes)
    ensures v !in xs ==> Without(xs, v) == xs
    ensures Without(Without(xs, v), v) == Without(xs, v)
  {
    WithoutIs(xs, v);
    AbsentIsKept(xs, v);
    AbsentIsKept(Without(xs, v), v);
  }

  lemma {:induction false} AbsentIsKept(xs: seq<bytes>, v: bytes)
    ensures v !in xs ==> Without(xs, v) == xs
  {
    if xs == [] {
    } else {
      AbsentIsKept(xs[1..], v);
      assert xs == [xs[0]] + xs[1..];
    }
  }

  lemma AppendTwice(xs: seq<bytes>, v: bytes)
    ensures AppendUnique(AppendUnique(xs, v), v) == AppendUnique(xs, v)
  {
  }

  lemma PasswordRuleTwice(p: Perms, raw: bytes, hash: bytes -> bytes)
    requires raw != []
    ensures PasswordRule(PasswordRule(p, raw, hash), raw, hash) == PasswordRule(p, raw, hash)
  {
    hide Lower, Without, AppendUnique;
    var v := if raw[0] == GREATER || raw[0] == LESS then hash(raw[1..]) else Lower(raw[1..]);
    if raw[0] == GREATER || raw[0] == HASH {
      AppendTwice(p.passwords, v);
      assert PasswordRule(p, raw, hash) == p.(noPass := false, passwords := AppendUnique(p.passwords, v));
    } else if raw[0] == LESS || raw[0] == BANG {
      WithoutTwice(p.passwords, v);
      assert PasswordRule(p, raw, hash) == p.(passwords := Without(p.passwords, v));
    }
  }

  lemma CategoryRuleTwice(p: Perms, plus: bool, cat: bytes)
    ensures CategoryRule(CategoryRule(p, plus, cat), plus, cat) == CategoryRule(p, plus, cat)
  {
    hide Lower;
    var l := Lower(cat);
    assert p.allowedCats + {l} + {l} == p.allowedCats + {l} && p.deniedCats + {l} + {l} == p.deniedCats + {l};
    assert p.allowedCats - {l} - {l} == p.allowedCats - {l};
  }

  lemma CommandRuleTwice(p: Perms, plus: bool, cmd: bytes)
    ensures CommandRule(CommandRule(p, plus, cmd), plus, cmd) == CommandRule(p, plus, cmd)
  {
    hide Upper;
    var u := Upper(cmd);
    assert p.allowedCmds + {u} + {u} == p.allowedCmds + {u} && p.deniedCmds + {u} + {u} == p.deniedCmds + {u};
    assert p.allowedCmds - {u} - {u} == p.allowedCmds - {u} && p.deniedCmds - {u} - {u} == p.deniedCmds - {u};
  }

  lemma PatternRuleTwice(p: Perms, forKeys: bool, pat: bytes)
    ensures PatternRule(PatternRule(p, forKeys, pat), forKeys, pat) == PatternRule(p, forKeys, pat)
  {
    hide AppendUnique;
    if pat == [STAR] {
    } else if forKeys {
      AppendTwice(p.keyPatterns, pat);
      assert PatternRule(p, forKeys, pat) == p.(keyPatterns := AppendUnique(p.keyPatterns, pat));
    } else {
      AppendTwice(p.channelPatterns, pat);
      assert PatternRule(p, forKeys, pat) == p.(channelPatterns := AppendUnique(p.channelPatterns, pat));
    }
  }

  lemma WordRuleTwice(p: Perms, word: Word)
    ensures WordRule(WordRule(p, word), word) == WordRule(p, word)
  {
  }

  /** A rule said twice is a rule said once. */
  lemma RuleTwice(p: Perms, raw: bytes, hash: bytes -> bytes)
    ensures Rule(Rule(p, raw, hash), raw, hash) == Rule(p, raw, hash)
  {
    hide WordOf, WordRule, PasswordRule, CategoryRule, CommandRule, PatternRule;
    if raw != [] {
      WordRuleTwice(p, WordOf(raw));
      PasswordRuleTwice(p, raw, hash);
      if |raw| >= 2 {
        CategoryRuleTwice(p, raw[0] == PLUS, raw[2..]);
      }
      CommandRuleTwice(p, raw[0] == PLUS, raw[1..]);
      PatternRuleTwice(p, raw[0] == TILDE, raw[1..]);
    }
  }

  lemma NameChangesSome(plus: bool, name: bytes)
    ensures CategoryRule(FRESH_PERMS, plus, name) != FRESH_PERMS
      || CategoryRule(OPEN_PERMS, plus, name) != OPEN_PERMS
    ensures CommandRule(FRESH_PERMS, plus, name) != FRESH_PERMS
    ensures PatternRule(FRESH_PERMS, plus, name) != FRESH_PERMS
  {
    hide Lower, Upper;
    assert Lower(name) in FRESH_PERMS.allowedCats + {Lower(name)};
    assert Lower(name) in FRESH_PERMS.deniedCats + {Lower(name)};
    assert Upper(name) in FRESH_PERMS.allowedCmds + {Upper(name)};
    assert Upper(name) in FRESH_PERMS.deniedCmds + {Upper(name)};
  }

  lemma PasswordChangesSome(raw: bytes, hash: bytes -> bytes) returns (p: Perms)
    requires raw != [] && raw[0] in {GREATER, LESS, HASH, BANG}
    ensures PasswordRule(p, raw, hash) != p
  {
    hide Lower;
    if raw[0] == GREATER || raw[0] == HASH {
      p := OPEN_PERMS;
    } else {
      var v := if raw[0] == LESS then hash(raw[1..]) else Lower(raw[1..]);
      p := FRESH_PERMS.(passwords := [v]);
      WithoutIs([v], v);
      assert v in p.passwords && v !in Without([v], v);
    }
  }

  /** Each rule that is not empty changes some user. */
  lemma RuleChangesSome(raw: bytes, hash: bytes -> bytes) returns (p: Perms)
    requires WellFormed(raw) && raw != []
    ensures Rule(p, raw, hash) != p
  {
    hide WordOf, WordRule, PasswordRule, CategoryRule, CommandRule, PatternRule;
    p := FRESH_PERMS;
    if WordOf(raw) != NotAWord {
      p := WordChangesSome(WordOf(raw));
    } else if raw[0] in {GREATER, LESS, HASH, BANG} {
      p := PasswordChangesSome(raw, hash);
    } else if StartsAt(raw, PLUS) || StartsAt(raw, MINUS) {
      NameChangesSome(raw[0] == PLUS, raw[2..]);
      if CategoryRule(p, raw[0] == PLUS, raw[2..]) == p {
        p := OPEN_PERMS;
      }
    } else {
      NameChangesSome(raw[0] == PLUS, raw[1..]);
      NameChangesSome(raw[0] == TILDE, raw[1..]);
    }
  }

  lemma WordChangesSome(word: Word) returns (p: Perms)
    requires word != NotAWord
    ensures WordRule(p, word) != p
  {
    if word == On {
      p := FRESH_PERMS.(enabled := false);
    } else if word == Off || word == NoPass || word == AllCommands || word == AllKeys || word == AllChannels {
      p := FRESH_PERMS;
    } else {
      p := OPEN_PERMS;
    }
  }

  /** The last rule that takes effect has the last word. */
  lemma {:induction false} LastWord(rules: seq<bytes>, hash: bytes -> bytes) returns (raw: bytes)
    requires !NothingTakesEffect(rules)
    ensures WellFormed(raw) && raw != []
    ensures forall p :: Rule(ApplyAll(p, rules, hash), raw, hash) == ApplyAll(p, rules, hash)
    decreases |rules|
  {
    hide Rule, WellFormed;
    if NothingTakesEffect(rules[1..]) {
      raw := rules[0];
      forall p ensures Rule(ApplyAll(p, rules, hash), raw, hash) == ApplyAll(p, rules, hash) {
        NothingChanges(Rule(p, raw, hash), rules[1..], hash);
        RuleTwice(p, raw, hash);
      }
    } else {
      raw := LastWord(rules[1..], hash);
    }
  }

  /** A rule list leaves every user as it was exactly when nothing stands before its first malformed rule. */
  lemma HarmlessIff(rules: seq<bytes>, hash: bytes -> bytes)
    ensures (forall p :: ApplyAll(p, rules, hash) == p) <==> NothingTakesEffect(rules)
  {
    hide NothingTakesEffect, ApplyAll, Rule, WellFormed;
    if NothingTakesEffect(rules) {
      forall p ensures ApplyAll(p, rules, hash) == p {
        NothingChanges(p, rules, hash);
      }
    } else {
      var raw := LastWord(rules, hash);
      var p := RuleChangesSome(raw, hash);
      assert ApplyAll(p, rules, hash) != p;
    }
  }

  /** A rejected list that has disabled a user all the same: "off" and then a word that is no rule. */
  lemma RejectedYetApplied(hash: bytes -> bytes)
    ensures !WellFormed([120]) && ApplyAll(FRESH_PERMS, [OFF, [120]], hash) == FRESH_PERMS.(enabled := false)
  {
    SavedWords(FRESH_PERMS, hash);
    assert [OFF, [120]][1..] == [[120]];
    assert WordOf([120]) == NotAWord;
  }

  // ----- decisions

  /** The categories of each known command. */
  type Table = map<bytes, set<bytes>>

  function CategoriesFor(table: Table, cmd: bytes): set<bytes> {
    if cmd in table then table[cmd] else {}
  }

  ghost predicate SomePatternMatches(ps: seq<bytes>, s: bytes) {
    exists i :: 0 <= i < |ps| && Glob.Matches(ps[i], s)
  }

  predicate Denied(p: Perms, table: Table, cmd: bytes) {
    cmd in p.deniedCmds || !(CategoriesFor(table, cmd) !! p.deniedCats)
  }

  predicate Granted(p: Perms, table: Table, cmd: bytes) {
    p.allCommands || cmd in p.allowedCmds || !(CategoriesFor(table, cmd) !! p.allowedCats)
  }

  predicate MayRun(p: Perms, table: Table, cmd: bytes) {
    !Denied(p, table, cmd) && Granted(p, table, cmd)
  }

  ghost predicate Allows(p: Perms, table: Table, cmd: bytes, keys: seq<bytes>, channels: seq<bytes>) {
    && p.enabled && MayRun(p, table, Upper(cmd))
    && (p.allKeys || forall i :: 0 <= i < |keys| ==> SomePatternMatches(p.keyPatterns, keys[i]))
    && (p.allChannels || forall i :: 0 <= i < |channels| ==> SomePatternMatches(p.channelPatterns, channels[i]))
  }

  predicate Accepts(p: Perms, password: bytes, hash: bytes -> bytes) {
    p.enabled && (p.noPass || hash(password) in p.passwords)
  }

  // ----- the saved form

  function Prefixed(prefix: bytes, xs: seq<bytes>): (r: seq<bytes>) {
    if xs == [] then [] else [prefix + xs[0]] + Prefixed(prefix, xs[1..])
  }

  function LowerAll(xs: seq<bytes>): seq<bytes> {
    if xs == [] then [] else [Lower(xs[0])] + LowerAll(xs[1..])
  }

  /** xs lists the members of a set, in some order. */
  ghost predicate Lists(xs: seq<bytes>, s: set<bytes>) {
    Unique(xs) && forall x :: x in xs <==> x in s
  }

  /** The rules before the categories: whether enabled, and how to get in. */
  function SavedHead(p: Perms): seq<bytes> {
    [if p.enabled then ON else OFF]
      + (if p.noPass then [NOPASS] else Prefixed([HASH], p.passwords))
      + (if p.allCommands then [[PLUS, AT] + ALL] else [])
  }

  function SavedTail(p: Perms): seq<bytes> {
    (if p.allKeys then [[TILDE, STAR]] else Prefixed([TILDE], p.keyPatterns))
      + (if p.allChannels then [[AMP, STAR]] else Prefixed([AMP], p.channelPatterns))
  }

  function Saved(p: Perms, ac: seq<bytes>, dc: seq<bytes>, am: seq<bytes>, dm: seq<bytes>): seq<bytes> {
    SavedHead(p) + Prefixed([PLUS, AT], ac) + Prefixed([MINUS, AT], dc)
      + Prefixed([PLUS], LowerAll(am)) + Prefixed([MINUS], LowerAll(dm)) + SavedTail(p)
  }

  /** A rule list the user may be saved as, whatever order its maps are walked in. */
  ghost predicate IsSaved(out: seq<bytes>, p: Perms) {
    exists ac, dc, am, dm ::
      && Lists(ac, p.allowedCats) && Lists(dc, p.deniedCats) && Lists(am, p.allowedCmds) && Lists(dm, p.deniedCmds)
      && out == Saved(p, ac, dc, am, dm)
  }

  // ----- loading it again

  lemma {:induction false} ApplyAppend(p: Perms, a: seq<bytes>, b: seq<bytes>, hash: bytes -> bytes)
    requires forall i :: 0 <= i < |a| ==> WellFormed(a[i])
    ensures ApplyAll(p, a + b, hash) == ApplyAll(ApplyAll(p, a, hash), b, hash)
    decreases |a|
  {
    hide Rule, WellFormed;
    if a == [] {
      assert a + b == b;
    } else {
      assert (a + b)[1..] == a[1..] + b;
      ApplyAppend(Rule(p, a[0], hash), a[1..], b, hash);
    }
  }

  lemma {:induction false} PrefixedFormed(prefix: bytes, xs: seq<bytes>)
    requires prefix != [] && prefix[0] in {HASH, PLUS, MINUS, TILDE, AMP}
    ensures |Prefixed(prefix, xs)| == |xs|
    ensures forall i :: 0 <= i < |xs| ==> Prefixed(prefix, xs)[i] == prefix + xs[i] && WellFormed(prefix + xs[i])
  {
    hide WordOf;
    if xs == [] {
    } else {
      PrefixedFormed(prefix, xs[1..]);
    }
  }

  function ToSet(xs: seq<bytes>): set<bytes> {
    set x | x in xs
  }

  lemma HashToken(p: Perms, h: bytes, hash: bytes -> bytes)
    requires Lower(h) == h && h !in p.passwords
    ensures WellFormed([HASH] + h) && Rule(p, [HASH] + h, hash) == p.(noPass := false, passwords := p.passwords + [h])
  {
    hide WordOf, Lower;
    WordsHaveNoSign([HASH] + h);
  }

  lemma PatternToken(p: Perms, forKeys: bool, pat: bytes, hash: bytes -> bytes)
    ensures WellFormed([if forKeys then TILDE else AMP] + pat)
    ensures Rule(p, [if forKeys then TILDE else AMP] + pat, hash) == PatternRule(p, forKeys, pat)
  {
    hide WordOf, PatternRule;
    var raw := [if forKeys then TILDE else AMP] + pat;
    WordsHaveNoSign(raw);
    assert raw[1..] == pat;
  }

  lemma CategoryToken(p: Perms, plus: bool, cat: bytes, hash: bytes -> bytes)
    ensures WellFormed([if plus then PLUS else MINUS, AT] + cat)
    ensures Rule(p, [if plus then PLUS else MINUS, AT] + cat, hash) == CategoryRule(p, plus, cat)
  {
    hide WordOf, CategoryRule;
    var raw := [if plus then PLUS else MINUS, AT] + cat;
    WordsHaveNoSign(raw);
    assert raw[2..] == cat;
  }

  lemma CommandToken(p: Perms, plus: bool, cmd: bytes, hash: bytes -> bytes)
    requires !Starts(cmd, AT)
    ensures WellFormed([if plus then PLUS else MINUS] + cmd)
    ensures Rule(p, [if plus then PLUS else MINUS] + cmd, hash) == CommandRule(p, plus, cmd)
  {
    hide WordOf, CommandRule;
    var raw := [if plus then PLUS else MINUS] + cmd;
    WordsHaveNoSign(raw);
    assert raw[1..] == cmd;
  }

  /** The first of a group of rules, then the others. */
  lemma ApplyGroup(p: Perms, prefix: bytes, xs: seq<bytes>, hash: bytes -> bytes)
    ensures xs == [] ==> ApplyAll(p, Prefixed(prefix, xs), hash) == p
    ensures xs != [] && WellFormed(prefix + xs[0]) ==>
      ApplyAll(p, Prefixed(prefix, xs), hash)
        == ApplyAll(Rule(p, prefix + xs[0], hash), Prefixed(prefix, xs[1..]), hash)
  {
    hide Rule, WellFormed;
    if xs != [] {
      assert Prefixed(prefix, xs)[1..] == Prefixed(prefix, xs[1..]);
    }
  }

  /** Saved passwords come back one by one. */
  lemma {:induction false} LoadPasswords(p: Perms, xs: seq<bytes>, hash: bytes -> bytes)
    requires Unique(xs) && forall h :: h in xs ==> Lower(h) == h && h !in p.passwords
    ensures ApplyAll(p, Prefixed([HASH], xs), hash) == p.(noPass := p.noPass && xs == [], passwords := p.passwords + xs)
    decreases |xs|
  {
    hide Lower, ApplyAll, Rule, Prefixed, WellFormed;
    ApplyGroup(p, [HASH], xs, hash);
    if xs != [] {
      assert xs[0] in xs;
      HashToken(p, xs[0], hash);
      var q := p.(noPass := false, passwords := p.passwords + [xs[0]]);
      LoadPasswords(q, xs[1..], hash);
      assert p.passwords + [xs[0]] + xs[1..] == p.passwords + xs;
    } else {
      assert p.passwords + xs == p.passwords;
    }
  }

  lemma {:induction false} LoadKeyPatterns(p: Perms, xs: seq<bytes>, hash: bytes -> bytes)
    requires PlainPatterns(xs) && forall x :: x in xs ==> x !in p.keyPatterns
    ensures ApplyAll(p, Prefixed([TILDE], xs), hash) == p.(keyPatterns := p.keyPatterns + xs)
    decreases |xs|
  {
    hide ApplyAll, Rule, Prefixed, WellFormed;
    ApplyGroup(p, [TILDE], xs, hash);
    if xs != [] {
      assert xs[0] in xs;
      PatternToken(p, true, xs[0], hash);
      var q := p.(keyPatterns := p.keyPatterns + [xs[0]]);
      LoadKeyPatterns(q, xs[1..], hash);
      assert p.keyPatterns + [xs[0]] + xs[1..] == p.keyPatterns + xs;
    } else {
      assert p.keyPatterns + xs == p.keyPatterns;
    }
  }

  lemma {:induction false} LoadChannelPatterns(p: Perms, xs: seq<bytes>, hash: bytes -> bytes)
    requires PlainPatterns(xs) && forall x :: x in xs ==> x !in p.channelPatterns
    ensures ApplyAll(p, Prefixed([AMP], xs), hash) == p.(channelPatterns := p.channelPatterns + xs)
    decreases |xs|
  {
    hide ApplyAll, Rule, Prefixed, WellFormed;
    ApplyGroup(p, [AMP], xs, hash);
    if xs != [] {
      assert xs[0] in xs;
      PatternToken(p, false, xs[0], hash);
      var q := p.(channelPatterns := p.channelPatterns + [xs[0]]);
      LoadChannelPatterns(q, xs[1..], hash);
      assert p.channelPatterns + [xs[0]] + xs[1..] == p.channelPatterns + xs;
    } else {
      assert p.channelPatterns + xs == p.channelPatterns;
    }
  }

  lemma ToSetStep(xs: seq<bytes>)
    ensures xs == [] ==> ToSet(xs) == {}
    ensures xs != [] ==> ToSet(xs) == {xs[0]} + ToSet(xs[1..]) && forall x :: x in xs <==> x == xs[0] || x in xs[1..]
  {
    if xs != [] {
      assert xs == [xs[0]] + xs[1..];
    }
  }

  /** What remains of allowed categories; one named "all" turns into all commands. */
  function WithAllowedCats(p: Perms, cs: set<bytes>): Perms {
    p.(allCommands := p.allCommands || ALL in cs, allowedCats := p.allowedCats + (cs - {ALL}))
  }

  lemma {:induction false} LoadAllowedCats(p: Perms, xs: seq<bytes>, hash: bytes -> bytes)
    requires forall x :: x in xs ==> Lower(x) == x
    ensures ApplyAll(p, Prefixed([PLUS, AT], xs), hash) == WithAllowedCats(p, ToSet(xs))
    decreases |xs|
  {
    hide Lower, ApplyAll, Rule, Prefixed, WellFormed, ToSet;
    ApplyGroup(p, [PLUS, AT], xs, hash);
    ToSetStep(xs);
    if xs == [] {
      assert p.allowedCats + ({} - {ALL}) == p.allowedCats;
    } else {
      CategoryToken(p, true, xs[0], hash);
      var q := CategoryRule(p, true, xs[0]);
      LoadAllowedCats(q, xs[1..], hash);
      assert q.allowedCats + (ToSet(xs[1..]) - {ALL}) == p.allowedCats + (ToSet(xs) - {ALL});
    }
  }

  /** What remains of denied categories; one named "all" wipes every grant made so far. */
  function WithDeniedCats(p: Perms, cs: set<bytes>): Perms {
    p.(
      allCommands := p.allCommands && ALL !in cs,
      allowedCmds := if ALL in cs then {} else p.allowedCmds,
      allowedCats := if ALL in cs then {} else p.allowedCats - cs,
      deniedCats := p.deniedCats + (cs - {ALL}))
  }

  lemma {:induction false} LoadDeniedCats(p: Perms, xs: seq<bytes>, hash: bytes -> bytes)
    requires forall x :: x in xs ==> Lower(x) == x
    ensures ApplyAll(p, Prefixed([MINUS, AT], xs), hash) == WithDeniedCats(p, ToSet(xs))
    decreases |xs|
  {
    hide Lower, ApplyAll, Rule, Prefixed, WellFormed, ToSet;
    ApplyGroup(p, [MINUS, AT], xs, hash);
    ToSetStep(xs);
    if xs == [] {
      assert p.deniedCats + ({} - {ALL}) == p.deniedCats && p.allowedCats - {} == p.allowedCats;
    } else {
      CategoryToken(p, false, xs[0], hash);
      var q := CategoryRule(p, false, xs[0]);
      LoadDeniedCats(q, xs[1..], hash);
      DenyStep(p, xs[0], ToSet(xs[1..]));
    }
  }

  lemma DenyStep(p: Perms, c: bytes, cs: set<bytes>)
    requires Lower(c) == c
    ensures WithDeniedCats(CategoryRule(p, false, c), cs) == WithDeniedCats(p, {c} + cs)
  {
    hide Lower;
    var q, all := CategoryRule(p, false, c), {c} + cs;
    assert q.deniedCats + (cs - {ALL}) == p.deniedCats + (all - {ALL});
    if ALL !in all {
      assert q.allowedCats - cs == p.allowedCats - all;
    }
  }

  function WithCommands(p: Perms, plus: bool, cs: set<bytes>): Perms {
    if plus then p.(allowedCmds := p.allowedCmds + cs, deniedCmds := p.deniedCmds - cs)
    else p.(deniedCmds := p.deniedCmds + cs, allowedCmds := p.allowedCmds - cs)
  }

  lemma {:induction false} LoadCommands(p: Perms, plus: bool, xs: seq<bytes>, hash: bytes -> bytes)
    requires forall x :: x in xs ==> Upper(x) == x && !Starts(x, AT)
    ensures ApplyAll(p, Prefixed([if plus then PLUS else MINUS], LowerAll(xs)), hash)
         == WithCommands(p, plus, ToSet(xs))
    decreases |xs|
  {
    hide Lower, Upper, ApplyAll, Rule, Prefixed, WellFormed, ToSet, Starts;
    ApplyGroup(p, [if plus then PLUS else MINUS], LowerAll(xs), hash);
    ToSetStep(xs);
    if xs == [] {
      assert p.allowedCmds + {} == p.allowedCmds == p.allowedCmds - {};
      assert p.deniedCmds + {} == p.deniedCmds == p.deniedCmds - {};
    } else {
      LoweredCommand(xs[0]);
      CommandToken(p, plus, Lower(xs[0]), hash);
      var q := CommandRule(p, plus, Lower(xs[0]));
      assert LowerAll(xs)[1..] == LowerAll(xs[1..]);
      LoadCommands(q, plus, xs[1..], hash);
      CommandStep(p, plus, xs[0], Lower(xs[0]), ToSet(xs[1..]));
    }
  }

  lemma CommandStep(p: Perms, plus: bool, c: bytes, lowered: bytes, cs: set<bytes>)
    requires Upper(lowered) == c
    ensures WithCommands(CommandRule(p, plus, lowered), plus, cs) == WithCommands(p, plus, {c} + cs)
  {
    hide Upper;
    assert p.allowedCmds + {c} + cs == p.allowedCmds + ({c} + cs);
    assert p.allowedCmds - {c} - cs == p.allowedCmds - ({c} + cs);
    assert p.deniedCmds + {c} + cs == p.deniedCmds + ({c} + cs) && p.deniedCmds - {c} - cs == p.deniedCmds - ({c} + cs);
  }

  lemma LoweredCommand(c: bytes)
    requires Upper(c) == c && !Starts(c, AT)
    ensures Upper(Lower(c)) == c && !Starts(Lower(c), AT)
  {
    FoldTwice(c);
  }

  /** No rules have been given to this user yet; only the four sweeping grants may hold. */
  ghost predicate Untouched(base: Perms) {
    && base.passwords == [] == base.keyPatterns && base.channelPatterns == []
    && base.allowedCmds == {} == base.deniedCmds && base.allowedCats == {} == base.deniedCats
  }

  /** The user a saved rule list makes of such a one, worked out in one go. */
  function Reloaded(p: Perms, base: Perms): Perms {
    var wiped := ALL in p.deniedCats;
    Perms(
      p.enabled, p.noPass || (base.noPass && p.passwords == []), p.passwords,
      (base.allCommands || p.allCommands || ALL in p.allowedCats) && !wiped,
      p.allowedCmds, p.deniedCmds,
      if wiped then {} else p.allowedCats - {ALL} - p.deniedCats,
      p.deniedCats - {ALL},
      base.allKeys || p.allKeys, if p.allKeys then [] else p.keyPatterns,
      base.allChannels || p.allChannels, if p.allChannels then [] else p.channelPatterns)
  }

  /** How to get in. */
  lemma LoadLogin(p: Perms, q: Perms, hash: bytes -> bytes)
    requires PlainPasswords(p.noPass, p.passwords) && q.passwords == []
    ensures var b := if p.noPass then [NOPASS] else Prefixed([HASH], p.passwords);
      && (forall i :: 0 <= i < |b| ==> WellFormed(b[i]))
      && ApplyAll(q, b, hash)
        == q.(noPass := p.noPass || (q.noPass && p.passwords == []), passwords := p.passwords)
  {
    hide Lower, ApplyAll, Rule, Prefixed, WellFormed;
    if p.noPass {
      SavedWords(q, hash);
      ApplyOne(q, [NOPASS], hash);
    } else {
      PrefixedFormed([HASH], p.passwords);
      LoadPasswords(q, p.passwords, hash);
      assert q.passwords + p.passwords == p.passwords;
    }
  }

  lemma LoadHead(p: Perms, base: Perms, hash: bytes -> bytes)
    requires PlainPasswords(p.noPass, p.passwords) && base.passwords == []
    ensures forall i :: 0 <= i < |SavedHead(p)| ==> WellFormed(SavedHead(p)[i])
    ensures ApplyAll(base, SavedHead(p), hash) == base.(
      enabled := p.enabled, noPass := p.noPass || (base.noPass && p.passwords == []), passwords := p.passwords,
      allCommands := base.allCommands || p.allCommands)
  {
    hide PlainPasswords, ApplyAll, Rule, Prefixed, WellFormed;
    var a := [if p.enabled then ON else OFF];
    var b := if p.noPass then [NOPASS] else Prefixed([HASH], p.passwords);
    var c := if p.allCommands then [[PLUS, AT] + ALL] else [];
    SavedWords(base, hash);
    ApplyOne(base, a, hash);
    var q := base.(enabled := p.enabled);
    ApplyAppend(base, a, b, hash);
    LoadLogin(p, q, hash);
    var r := q.(noPass := p.noPass || (base.noPass && p.passwords == []), passwords := p.passwords);
    ApplyAppend(base, a + b, c, hash);
    CategoryToken(r, true, ALL, hash);
    ApplyOne(r, c, hash);
  }

  /** The words a saved list can hold. */
  lemma SavedWords(p: Perms, hash: bytes -> bytes)
    ensures WellFormed(ON) && Rule(p, ON, hash) == p.(enabled := true)
    ensures WellFormed(OFF) && Rule(p, OFF, hash) == p.(enabled := false)
    ensures WellFormed(NOPASS) && Rule(p, NOPASS, hash) == p.(noPass := true, passwords := [])
  {
  }

  lemma ApplyOne(p: Perms, rules: seq<bytes>, hash: bytes -> bytes)
    requires |rules| <= 1
    ensures rules == [] ==> ApplyAll(p, rules, hash) == p
    ensures |rules| == 1 && WellFormed(rules[0]) ==> ApplyAll(p, rules, hash) == Rule(p, rules[0], hash)
  {
    hide Rule, WellFormed;
  }

  lemma LoadTail(q: Perms, p: Perms, hash: bytes -> bytes)
    requires PlainPatterns(p.keyPatterns) && PlainPatterns(p.channelPatterns)
    requires q.keyPatterns == [] == q.channelPatterns
    ensures ApplyAll(q, SavedTail(p), hash) == q.(
      allKeys := q.allKeys || p.allKeys, keyPatterns := if p.allKeys then [] else p.keyPatterns,
      allChannels := q.allChannels || p.allChannels, channelPatterns := if p.allChannels then [] else p.channelPatterns)
  {
    hide ApplyAll, Rule, Prefixed, WordOf, PlainPatterns;
    var a := if p.allKeys then [[TILDE, STAR]] else Prefixed([TILDE], p.keyPatterns);
    var b := if p.allChannels then [[AMP, STAR]] else Prefixed([AMP], p.channelPatterns);
    PrefixedFormed([TILDE], p.keyPatterns);
    PatternToken(q, true, [STAR], hash);
    assert [if true then TILDE else AMP] + [STAR] == [TILDE, STAR];
    assert [if false then TILDE else AMP] + [STAR] == [AMP, STAR];
    assert q.keyPatterns + p.keyPatterns == p.keyPatterns && q.channelPatterns + p.channelPatterns == p.channelPatterns;
    ApplyAppend(q, a, b, hash);
    ApplyOne(q, [[TILDE, STAR]], hash);
    LoadKeyPatterns(q, p.keyPatterns, hash);
    var r := q.(allKeys := q.allKeys || p.allKeys, keyPatterns := if p.allKeys then [] else p.keyPatterns);
    PatternToken(r, false, [STAR], hash);
    ApplyOne(r, [[AMP, STAR]], hash);
    LoadChannelPatterns(r, p.channelPatterns, hash);
  }

  lemma ListedSet(xs: seq<bytes>, s: set<bytes>)
    requires Lists(xs, s)
    ensures ToSet(xs) == s
  {
  }

  /** Loading a saved list, whatever order the maps were walked in. */
  lemma LoadSaved(
    p: Perms, base: Perms, ac: seq<bytes>, dc: seq<bytes>, am: seq<bytes>, dm: seq<bytes>, hash: bytes -> bytes)
    requires Regular(p) && Untouched(base)
    requires Lists(ac, p.allowedCats) && Lists(dc, p.deniedCats) && Lists(am, p.allowedCmds) && Lists(dm, p.deniedCmds)
    ensures ApplyAll(base, Saved(p, ac, dc, am, dm), hash) == Reloaded(p, base)
  {
    hide Lower, Upper, ApplyAll, Rule, Prefixed, WellFormed, ToSet, SavedHead, SavedTail, Starts, Unique,
      PlainPasswords, PlainPatterns;
    ListedSet(ac, p.allowedCats);
    ListedSet(dc, p.deniedCats);
    ListedSet(am, p.allowedCmds);
    ListedSet(dm, p.deniedCmds);
    PrefixedFormed([PLUS, AT], ac);
    PrefixedFormed([MINUS, AT], dc);
    PrefixedFormed([PLUS], LowerAll(am));
    PrefixedFormed([MINUS], LowerAll(dm));
    LoadHead(p, base, hash);
    var l0 := SavedHead(p);
    var l1 := l0 + Prefixed([PLUS, AT], ac);
    var l2 := l1 + Prefixed([MINUS, AT], dc);
    var l3 := l2 + Prefixed([PLUS], LowerAll(am));
    var l4 := l3 + Prefixed([MINUS], LowerAll(dm));
    var q0 := ApplyAll(base, l0, hash);
    ApplyAppend(base, l0, Prefixed([PLUS, AT], ac), hash);
    LoadAllowedCats(q0, ac, hash);
    var q1 := WithAllowedCats(q0, p.allowedCats);
    ApplyAppend(base, l1, Prefixed([MINUS, AT], dc), hash);
    LoadDeniedCats(q1, dc, hash);
    var q2 := WithDeniedCats(q1, p.deniedCats);
    ApplyAppend(base, l2, Prefixed([PLUS], LowerAll(am)), hash);
    LoadCommands(q2, true, am, hash);
    var q3 := WithCommands(q2, true, p.allowedCmds);
    ApplyAppend(base, l3, Prefixed([MINUS], LowerAll(dm)), hash);
    LoadCommands(q3, false, dm, hash);
    var q4 := WithCommands(q3, false, p.deniedCmds);
    ApplyAppend(base, l4, SavedTail(p), hash);
    LoadTail(q4, p, hash);
    assert q4.allowedCmds == p.allowedCmds && q4.deniedCmds == p.deniedCmds;
  }

  // ----- what saving and loading preserves

  lemma LoadFresh(p: Perms, out: seq<bytes>, hash: bytes -> bytes)
    requires Regular(p) && IsSaved(out, p)
    ensures ApplyAll(FRESH_PERMS, out, hash) == Reloaded(p, FRESH_PERMS)
  {
    hide Regular, Lists, Saved, ApplyAll;
    var ac, dc, am, dm :| Lists(ac, p.allowedCats) && Lists(dc, p.deniedCats)
      && Lists(am, p.allowedCmds) && Lists(dm, p.deniedCmds) && out == Saved(p, ac, dc, am, dm);
    LoadSaved(p, FRESH_PERMS, ac, dc, am, dm, hash);
  }

  /** Signing in is unaffected. */
  lemma ReloadKeepsLogin(p: Perms, out: seq<bytes>, password: bytes, hash: bytes -> bytes)
    requires Regular(p) && IsSaved(out, p)
    ensures Accepts(ApplyAll(FRESH_PERMS, out, hash), password, hash) <==> Accepts(p, password, hash)
  {
    hide Regular, Lists, Saved, ApplyAll;
    var ac, dc, am, dm :| Lists(ac, p.allowedCats) && Lists(dc, p.deniedCats)
      && Lists(am, p.allowedCmds) && Lists(dm, p.deniedCmds) && out == Saved(p, ac, dc, am, dm);
    LoadSaved(p, FRESH_PERMS, ac, dc, am, dm, hash);
  }

  ghost predicate NoneCalledAll(table: Table) {
    forall c :: c in table ==> ALL !in table[c]
  }

  /**
   When a category set holds "all", which only "+@ALL" or "-@All" and the like can bring about, the saved list
   means something else than the user: what has to be checked for no decision to change.
   */
  ghost predicate SaveSafe(p: Perms, table: Table) {
    if ALL in p.deniedCats then
      && !p.allCommands
      && forall c :: c in table && Upper(c) == c && !Denied(p, table, c) && !(table[c] !! p.allowedCats) ==>
        c in p.allowedCmds
    else ALL in p.allowedCats ==> p.allCommands
  }

  lemma SameCommands(p: Perms, table: Table, cmd: bytes)
    requires NoneCalledAll(table) && SaveSafe(p, table) && Upper(cmd) == cmd
    ensures MayRun(Reloaded(p, FRESH_PERMS), table, cmd) == MayRun(p, table, cmd)
  {
    hide Upper;
  }

  /** A name that is in none of finitely many places. */
  lemma {:induction false} LongerThanAll(s: set<bytes>) returns (n: nat)
    ensures forall x :: x in s ==> |x| < n
    decreases |s|
  {
    n := 0;
    if s == {} {
    } else {
      var x :| x in s;
      n := LongerThanAll(s - {x});
      if |x| >= n {
        n := |x| + 1;
      }
    }
  }

  lemma FreshName(s: set<bytes>) returns (f: bytes)
    ensures f !in s && Upper(f) == f
  {
    var n := LongerThanAll(s);
    f := seq(n, _ => 65);
  }

  lemma UnsafeShows(p: Perms, table: Table) returns (cmd: bytes)
    requires !SaveSafe(p, table)
    ensures Upper(cmd) == cmd && MayRun(Reloaded(p, FRESH_PERMS), table, cmd) != MayRun(p, table, cmd)
  {
    hide Upper;
    if ALL in p.deniedCats && !p.allCommands {
      cmd :| cmd in table && Upper(cmd) == cmd && !Denied(p, table, cmd) && !(table[cmd] !! p.allowedCats)
        && cmd !in p.allowedCmds;
    } else {
      cmd := FreshName(p.allowedCmds + p.deniedCmds + table.Keys);
    }
  }

  /** Such users exist: one rule in capitals is enough to gain every command by a reload, or to lose every one. */
  lemma CapitalsAreUnsafe(table: Table, hash: bytes -> bytes)
    requires LowerDigest(hash)
    ensures var p := ApplyAll(FRESH_PERMS, [[PLUS, AT, 65, 76, 76]], hash);
      Regular(p) && ALL in p.allowedCats && !p.allCommands && p.enabled && !SaveSafe(p, table)
    ensures var p := ApplyAll(FRESH_PERMS, [ALLCOMMANDS, [MINUS, AT, 65, 76, 76]], hash);
      Regular(p) && ALL in p.deniedCats && p.allCommands && p.enabled && !SaveSafe(p, table)
  {
    hide Regular, LowerDigest;
    var plus, minus := [PLUS, AT, 65, 76, 76], [MINUS, AT, 65, 76, 76];
    assert FRESH_PERMS.noPass == false;
    FreshIsRegular();
    RulesKeep(FRESH_PERMS, [plus], hash);
    RulesKeep(FRESH_PERMS, [ALLCOMMANDS, minus], hash);
    CapitalTokens(FRESH_PERMS, hash);
    CapitalTokens(FRESH_PERMS.(allCommands := true), hash);
    ApplyOne(FRESH_PERMS, [plus], hash);
    ApplyOne(FRESH_PERMS.(allCommands := true), [minus], hash);
    assert Rule(FRESH_PERMS, ALLCOMMANDS, hash) == FRESH_PERMS.(allCommands := true);
    assert [ALLCOMMANDS, minus][1..] == [minus];
  }

  lemma FreshIsRegular()
    ensures Regular(FRESH_PERMS)
  {
  }

  lemma CapitalTokens(p: Perms, hash: bytes -> bytes)
    ensures WellFormed([PLUS, AT, 65, 76, 76]) && WellFormed([MINUS, AT, 65, 76, 76])
    ensures ALL in Rule(p, [PLUS, AT, 65, 76, 76], hash).allowedCats
    ensures Rule(p, [PLUS, AT, 65, 76, 76], hash).allCommands == p.allCommands
    ensures Rule(p, [PLUS, AT, 65, 76, 76], hash).enabled == p.enabled
    ensures ALL !in p.deniedCats ==> ALL !in Rule(p, [PLUS, AT, 65, 76, 76], hash).deniedCats
    ensures ALL in Rule(p, [MINUS, AT, 65, 76, 76], hash).deniedCats
    ensures Rule(p, [MINUS, AT, 65, 76, 76], hash).allCommands == p.allCommands
    ensures Rule(p, [MINUS, AT, 65, 76, 76], hash).enabled == p.enabled
  {
    var cat: bytes := [65, 76, 76];
    assert [if true then PLUS else MINUS, AT] + cat == [PLUS, AT, 65, 76, 76];
    assert [if false then PLUS else MINUS, AT] + cat == [MINUS, AT, 65, 76, 76];
    CategoryToken(p, true, cat, hash);
    CategoryToken(p, false, cat, hash);
    assert Lower(cat) == ALL;
    hide WordOf, Rule, WellFormed, Lower;
  }

  /** Every decision survives saving and loading exactly when the user is safe to save, or disabled anyway. */
  lemma ReloadKeepsDecisions(p: Perms, table: Table, out: seq<bytes>, hash: bytes -> bytes)
    requires Regular(p) && NoneCalledAll(table) && IsSaved(out, p)
    ensures (forall cmd, keys, channels ::
        Allows(ApplyAll(FRESH_PERMS, out, hash), table, cmd, keys, channels) == Allows(p, table, cmd, keys, channels))
      <==> (p.enabled ==> SaveSafe(p, table))
  {
    hide Regular, Lists, Saved, ApplyAll, SaveSafe, MayRun, Upper, SomePatternMatches, NoneCalledAll;
    var ac, dc, am, dm :| Lists(ac, p.allowedCats) && Lists(dc, p.deniedCats)
      && Lists(am, p.allowedCmds) && Lists(dm, p.deniedCmds) && out == Saved(p, ac, dc, am, dm);
    LoadSaved(p, FRESH_PERMS, ac, dc, am, dm, hash);
    if p.enabled && !SaveSafe(p, table) {
      var cmd := UnsafeShows(p, table);
      assert Allows(Reloaded(p, FRESH_PERMS), table, cmd, [], []) != Allows(p, table, cmd, [], []);
    } else if p.enabled {
      forall cmd ensures MayRun(Reloaded(p, FRESH_PERMS), table, Upper(cmd)) == MayRun(p, table, Upper(cmd)) {
        FoldTwice(cmd);
        SameCommands(p, table, Upper(cmd));
      }
    }
  }

  // ----- rules that spell category names in lower case

  predicate LowerCaseName(raw: bytes) {
    StartsAt(raw, PLUS) || StartsAt(raw, MINUS) ==> Lower(raw[2..]) == raw[2..]
  }

  ghost predicate SameCats(p: Perms, q: Perms) {
    p.allowedCats == q.allowedCats && p.deniedCats == q.deniedCats
  }

  lemma OtherRulesLeaveCats(p: Perms, raw: bytes, plus: bool, text: bytes, hash: bytes -> bytes)
    requires raw != []
    ensures SameCats(PasswordRule(p, raw, hash), p)
    ensures SameCats(CommandRule(p, plus, text), p)
    ensures SameCats(PatternRule(p, plus, text), p)
  {
    hide Lower, Upper, AppendUnique, Without;
  }

  lemma WordsAvoidAll(p: Perms, word: Word)
    requires ALL !in p.allowedCats + p.deniedCats
    ensures ALL !in WordRule(p, word).allowedCats + WordRule(p, word).deniedCats
  {
  }

  lemma RuleAvoidsAll(p: Perms, raw: bytes, hash: bytes -> bytes)
    requires ALL !in p.allowedCats + p.deniedCats && LowerCaseName(raw)
    ensures ALL !in Rule(p, raw, hash).allowedCats + Rule(p, raw, hash).deniedCats
  {
    hide WordOf, Lower, Upper, WordRule, PasswordRule, CommandRule, PatternRule;
    if raw != [] {
      WordsAvoidAll(p, WordOf(raw));
      OtherRulesLeaveCats(p, raw, raw[0] == PLUS, raw[1..], hash);
      OtherRulesLeaveCats(p, raw, raw[0] == TILDE, raw[1..], hash);
    }
  }

  /** From such rules no category set ever holds "all". */
  lemma {:induction false} LowerCaseNamesAvoidAll(p: Perms, rules: seq<bytes>, hash: bytes -> bytes)
    requires ALL !in p.allowedCats + p.deniedCats
    requires forall i :: 0 <= i < |rules| ==> LowerCaseName(rules[i])
    ensures ALL !in ApplyAll(p, rules, hash).allowedCats + ApplyAll(p, rules, hash).deniedCats
    decreases |rules|
  {
    hide Rule, WellFormed;
    if rules != [] && WellFormed(rules[0]) {
      RuleAvoidsAll(p, rules[0], hash);
      LowerCaseNamesAvoidAll(Rule(p, rules[0], hash), rules[1..], hash);
    }
  }

  /** So for them a save and a load change no decision, in particular for categories both allowed and denied. */
  lemma LowerCaseRulesReload(rules: seq<bytes>, table: Table, out: seq<bytes>, hash: bytes -> bytes)
    requires LowerDigest(hash) && NoneCalledAll(table)
    requires forall i :: 0 <= i < |rules| ==> LowerCaseName(rules[i])
    requires IsSaved(out, ApplyAll(FRESH_PERMS, rules, hash))
    ensures forall cmd, keys, channels ::
      Allows(ApplyAll(FRESH_PERMS, out, hash), table, cmd, keys, channels)
        == Allows(ApplyAll(FRESH_PERMS, rules, hash), table, cmd, keys, channels)
  {
    hide ApplyAll, Allows, IsSaved, LowerCaseName, LowerDigest, NoneCalledAll;
    RulesKeep(FRESH_PERMS, rules, hash);
    LowerCaseNamesAvoidAll(FRESH_PERMS, rules, hash);
    ReloadKeepsDecisions(ApplyAll(FRESH_PERMS, rules, hash), table, out, hash);
  }

  // ----- the default user

  /**
   The default user's line is loaded over the default user's own sweeping grants, which no saved rule takes back
   (unless the denied categories hold "all").
   */
  lemma LoadDefault(p: Perms, out: seq<bytes>, hash: bytes -> bytes)
    requires Regular(p) && IsSaved(out, p)
    ensures ApplyAll(OPEN_PERMS, out, hash) == Reloaded(p, OPEN_PERMS)
  {
    hide Regular, Lists, Saved, ApplyAll;
    var ac, dc, am, dm :| Lists(ac, p.allowedCats) && Lists(dc, p.deniedCats)
      && Lists(am, p.allowedCmds) && Lists(dm, p.deniedCmds) && out == Saved(p, ac, dc, am, dm);
    LoadSaved(p, OPEN_PERMS, ac, dc, am, dm, hash);
  }

  /** The default user's passwords survive a restart exactly unless there is none to save and one was needed. */
  lemma DefaultKeepsLogin(p: Perms, out: seq<bytes>, hash: bytes -> bytes)
    requires Regular(p) && IsSaved(out, p)
    ensures (forall w :: Accepts(ApplyAll(OPEN_PERMS, out, hash), w, hash) == Accepts(p, w, hash))
      <==> (p.enabled ==> p.noPass || p.passwords != [])
  {
    hide Regular, IsSaved, ApplyAll;
    LoadDefault(p, out, hash);
    assert Accepts(Reloaded(p, OPEN_PERMS), [], hash) == Accepts(p, [], hash)
      || (p.enabled && !p.noPass && p.passwords == []);
  }

  /** No key and no channel is out of the user's reach. */
  ghost predicate Unlimited(p: Perms) {
    && (p.allKeys || forall s :: SomePatternMatches(p.keyPatterns, s))
    && (p.allChannels || forall s :: SomePatternMatches(p.channelPatterns, s))
  }

  /**
   What has to be checked for no decision about the default user to change: it must have had the sweeping grants,
   in effect, that loading gives it; where a denied "all" wipes those again, the commands allowed one by one must be
   all there is, and unlimited if there are any.
   */
  ghost predicate DefaultSafe(p: Perms, table: Table) {
    if ALL in p.deniedCats then
      SaveSafe(p, table) && ((exists c :: c in p.allowedCmds && !Denied(p, table, c)) ==> Unlimited(p))
    else p.allCommands && Unlimited(p)
  }

  /** What the reloaded default user may run. */
  lemma DefaultMayRun(p: Perms, table: Table, cmd: bytes)
    requires NoneCalledAll(table)
    ensures MayRun(Reloaded(p, OPEN_PERMS), table, cmd)
      <==> !Denied(p, table, cmd) && (ALL in p.deniedCats ==> cmd in p.allowedCmds)
    ensures ALL in p.deniedCats ==>
      MayRun(Reloaded(p, OPEN_PERMS), table, cmd) == MayRun(Reloaded(p, FRESH_PERMS), table, cmd)
  {
  }

  lemma DefaultSafeKeeps(p: Perms, table: Table, cmd: bytes, keys: seq<bytes>, channels: seq<bytes>)
    requires Regular(p) && NoneCalledAll(table) && (p.enabled ==> DefaultSafe(p, table))
    ensures Allows(Reloaded(p, OPEN_PERMS), table, cmd, keys, channels) == Allows(p, table, cmd, keys, channels)
  {
    hide Upper, Regular, SomePatternMatches, Denied, NoneCalledAll, MayRun, SaveSafe;
    FoldTwice(cmd);
    DefaultMayRun(p, table, Upper(cmd));
    if p.enabled && ALL in p.deniedCats {
      SameCommands(p, table, Upper(cmd));
    } else {
      AllCommandsRun(p, table, Upper(cmd));
    }
  }

  lemma AllCommandsRun(p: Perms, table: Table, cmd: bytes)
    ensures p.allCommands ==> MayRun(p, table, cmd) == !Denied(p, table, cmd)
  {
  }

  /** A command the unsafe default user would be treated differently for, with the key or channel it takes. */
  lemma DefaultUnsafeShows(p: Perms, table: Table) returns (cmd: bytes, keys: seq<bytes>, channels: seq<bytes>)
    requires Regular(p) && NoneCalledAll(table) && p.enabled && !DefaultSafe(p, table)
    ensures Allows(Reloaded(p, OPEN_PERMS), table, cmd, keys, channels) != Allows(p, table, cmd, keys, channels)
  {
    hide SomePatternMatches, SaveSafe, NoneCalledAll;
    keys, channels := [], [];
    if ALL in p.deniedCats && !SaveSafe(p, table) {
      cmd := UnsafeShows(p, table);
      DefaultMayRun(p, table, cmd);
    } else {
      if ALL in p.deniedCats {
        cmd :| cmd in p.allowedCmds && !Denied(p, table, cmd);
      } else {
        cmd := UnmentionedName(p, table);
      }
      assert Upper(cmd) == cmd;
      DefaultMayRun(p, table, cmd);
      if ALL in p.deniedCats || p.allCommands {
        keys, channels := OutOfReach(p);
      }
    }
  }

  /** A command that no rule and no category speaks of. */
  lemma UnmentionedName(p: Perms, table: Table) returns (cmd: bytes)
    ensures Upper(cmd) == cmd && !Denied(p, table, cmd) && (MayRun(p, table, cmd) <==> p.allCommands)
  {
    cmd := FreshName(p.allowedCmds + p.deniedCmds + table.Keys);
  }

  lemma OutOfReach(p: Perms) returns (keys: seq<bytes>, channels: seq<bytes>)
    requires !Unlimited(p)
    ensures !((p.allKeys || forall i :: 0 <= i < |keys| ==> SomePatternMatches(p.keyPatterns, keys[i]))
      && (p.allChannels || forall i :: 0 <= i < |channels| ==> SomePatternMatches(p.channelPatterns, channels[i])))
  {
    hide SomePatternMatches;
    keys, channels := [], [];
    if !p.allKeys && exists s :: !SomePatternMatches(p.keyPatterns, s) {
      var s :| !SomePatternMatches(p.keyPatterns, s);
      keys := [s];
      assert !SomePatternMatches(p.keyPatterns, keys[0]);
    } else {
      var s :| !SomePatternMatches(p.channelPatterns, s);
      channels := [s];
      assert !SomePatternMatches(p.channelPatterns, channels[0]);
    }
  }

  /** Every decision about the default user survives a restart exactly when it is safe to save, or disabled anyway. */
  lemma DefaultKeepsDecisions(p: Perms, table: Table, out: seq<bytes>, hash: bytes -> bytes)
    requires Regular(p) && NoneCalledAll(table) && IsSaved(out, p)
    ensures (forall cmd, keys, channels ::
        Allows(ApplyAll(OPEN_PERMS, out, hash), table, cmd, keys, channels) == Allows(p, table, cmd, keys, channels))
      <==> (p.enabled ==> DefaultSafe(p, table))
  {
    hide Regular, IsSaved, ApplyAll, DefaultSafe, Allows, NoneCalledAll, Reloaded;
    LoadDefault(p, out, hash);
    if p.enabled && !DefaultSafe(p, table) {
      var cmd, keys, channels := DefaultUnsafeShows(p, table);
      assert Allows(Reloaded(p, OPEN_PERMS), table, cmd, keys, channels) != Allows(p, table, cmd, keys, channels);
    } else {
      forall cmd, keys, channels
        ensures Allows(Reloaded(p, OPEN_PERMS), table, cmd, keys, channels) == Allows(p, table, cmd, keys, channels)
      {
        DefaultSafeKeeps(p, table, cmd, keys, channels);
      }
    }
  }

  /** Two rules for the default user that a restart undoes: "resetpass" and "nocommands". */
  lemma DefaultForgets(table: Table, out: seq<bytes>, hash: bytes -> bytes)
    requires LowerDigest(hash) && NoneCalledAll(table)
    ensures var p := ApplyAll(OPEN_PERMS, [RESETPASS], hash);
      IsSaved(out, p) ==> !Accepts(p, [], hash) && Accepts(ApplyAll(OPEN_PERMS, out, hash), [], hash)
    ensures var p := ApplyAll(OPEN_PERMS, [NOCOMMANDS], hash);
      IsSaved(out, p) ==> exists cmd ::
        !Allows(p, table, cmd, [], []) && Allows(ApplyAll(OPEN_PERMS, out, hash), table, cmd, [], [])
  {
    hide IsSaved, LowerDigest, NoneCalledAll, Regular, SomePatternMatches;
    OpenIsRegular();
    RulesKeep(OPEN_PERMS, [RESETPASS], hash);
    RulesKeep(OPEN_PERMS, [NOCOMMANDS], hash);
    TwoWords(hash);
    var p := ApplyAll(OPEN_PERMS, [RESETPASS], hash);
    if IsSaved(out, p) {
      LoadDefault(p, out, hash);
    }
    var q := ApplyAll(OPEN_PERMS, [NOCOMMANDS], hash);
    if IsSaved(out, q) {
      LoadDefault(q, out, hash);
      var cmd := UnmentionedName(q, table);
      DefaultMayRun(q, table, cmd);
      assert !Allows(q, table, cmd, [], []);
    }
  }

  lemma OpenIsRegular()
    ensures Regular(OPEN_PERMS)
  {
  }

  lemma TwoWords(hash: bytes -> bytes)
    ensures ApplyAll(OPEN_PERMS, [RESETPASS], hash) == OPEN_PERMS.(noPass := false)
    ensures ApplyAll(OPEN_PERMS, [NOCOMMANDS], hash) == OPEN_PERMS.(allCommands := false)
  {
    ApplyOne(OPEN_PERMS, [RESETPASS], hash);
    ApplyOne(OPEN_PERMS, [NOCOMMANDS], hash);
    assert Rule(OPEN_PERMS, RESETPASS, hash) == OPEN_PERMS.(noPass := false);
    assert Rule(OPEN_PERMS, NOCOMMANDS, hash) == OPEN_PERMS.(allCommands := false);
  }

  // ----- the line in the file

  const USER: bytes := [117, 115, 101, 114] // "user"

  function SavedLine(name: bytes, rules: seq<bytes>): bytes {
    Words.Join([USER, name] + rules)
  }

  datatype Line = Ignored | UserLine(name: bytes, rules: seq<bytes>)

  /** What loading makes of a line: blank lines, comments and anything but a user are passed over. */
  function ReadLine(line: bytes): Line {
    var tokens := Words.Fields(line, Words.WHITE_SPACE);
    if tokens == [] || Starts(tokens[0], HASH) || |tokens| < 2 || Lower(tokens[0]) != USER then Ignored
    else UserLine(tokens[1], tokens[2..])
  }

  /** A user whose name and rules hold no blanks is read back from the line written for it. */
  lemma LineRoundTrip(name: bytes, rules: seq<bytes>)
    requires Words.IsWord(name, Words.WHITE_SPACE)
    requires forall i :: 0 <= i < |rules| ==> Words.IsWord(rules[i], Words.WHITE_SPACE)
    ensures ReadLine(SavedLine(name, rules)) == UserLine(name, rules)
  {
    var tokens := [USER, name] + rules;
    assert Words.IsWord(USER, Words.WHITE_SPACE);
    Words.FieldsOfJoin(tokens, Words.WHITE_SPACE);
    assert Lower(USER) == USER;
    assert tokens[2..] == rules;
  }

  /** The rules that are read where these have been written: a blank ends one and begins the next. */
  function Split(rules: seq<bytes>): seq<bytes> {
    Words.FieldsOfEach(rules, Words.WHITE_SPACE)
  }

  /** In general the first word after "user" is taken for the name, and every further one for a rule. */
  lemma LineReads(name: bytes, rules: seq<bytes>)
    requires Split(rules) != []
    ensures
      var words := Words.Fields(name, Words.WHITE_SPACE) + Split(rules);
      ReadLine(SavedLine(name, rules)) == UserLine(words[0], words[1..])
  {
    var parts := [USER, name] + rules;
    Words.FieldsOfJoined(parts, Words.WHITE_SPACE);
    Words.FieldsOfWord(USER, Words.WHITE_SPACE);
    assert parts[1..] == [name] + rules && ([name] + rules)[1..] == rules;
    assert Lower(USER) == USER;
    var words := Words.Fields(name, Words.WHITE_SPACE) + Split(rules);
    assert Words.Fields(SavedLine(name, rules), Words.WHITE_SPACE) == [USER] + words;
    assert ([USER] + words)[2..] == words[1..];
  }

  // ----- rules without blanks

  predicate Solid(x: bytes) {
    Words.BlankFree(x, Words.WHITE_SPACE)
  }

  ghost predicate AllSolid(xs: seq<bytes>) {
    forall x :: x in xs ==> Solid(x)
  }

  ghost predicate SolidSet(xs: set<bytes>) {
    forall x :: x in xs ==> Solid(x)
  }

  /** Nothing that gets saved for this user holds a blank. */
  ghost predicate NoBlanks(p: Perms) {
    && AllSolid(p.passwords) && AllSolid(p.keyPatterns) && AllSolid(p.channelPatterns)
    && SolidSet(p.allowedCmds) && SolidSet(p.deniedCmds) && SolidSet(p.allowedCats) && SolidSet(p.deniedCats)
  }

  lemma FoldKeepsSolid(x: bytes)
    requires Solid(x)
    ensures Solid(Lower(x)) && Solid(Upper(x))
  {
  }

  lemma TailIsSolid(x: bytes, k: nat)
    requires Solid(x) && k <= |x|
    ensures Solid(x[k..])
  {
  }

  lemma AppendIsSolid(xs: seq<bytes>, v: bytes)
    requires AllSolid(xs) && Solid(v)
    ensures AllSolid(AppendUnique(xs, v))
  {
    hide Solid;
  }

  lemma WithoutIsSolid(xs: seq<bytes>, v: bytes)
    requires AllSolid(xs)
    ensures AllSolid(Without(xs, v))
  {
    hide Solid;
    WithoutIs(xs, v);
  }

  lemma PasswordRuleIsSolid(p: Perms, raw: bytes, hash: bytes -> bytes)
    requires NoBlanks(p) && Solid(raw) && raw != [] && forall x :: Solid(hash(x))
    ensures NoBlanks(PasswordRule(p, raw, hash))
  {
    hide Solid, AllSolid, SolidSet, AppendUnique, Without, Lower;
    var v := raw[1..];
    TailIsSolid(raw, 1);
    FoldKeepsSolid(v);
    AppendIsSolid(p.passwords, hash(v));
    AppendIsSolid(p.passwords, Lower(v));
    WithoutIsSolid(p.passwords, hash(v));
    WithoutIsSolid(p.passwords, Lower(v));
  }

  lemma NameRulesAreSolid(p: Perms, plus: bool, name: bytes)
    requires NoBlanks(p) && Solid(name)
    ensures NoBlanks(CategoryRule(p, plus, name)) && NoBlanks(CommandRule(p, plus, name))
  {
    hide Solid, AllSolid, Lower, Upper;
    FoldKeepsSolid(name);
  }

  lemma PatternRuleIsSolid(p: Perms, forKeys: bool, pat: bytes)
    requires NoBlanks(p) && Solid(pat)
    ensures NoBlanks(PatternRule(p, forKeys, pat))
  {
    hide Solid, AllSolid, SolidSet, AppendUnique;
    AppendIsSolid(p.keyPatterns, pat);
    AppendIsSolid(p.channelPatterns, pat);
  }

  lemma WordRuleIsSolid(p: Perms, word: Word)
    requires NoBlanks(p)
    ensures NoBlanks(WordRule(p, word))
  {
    NothingIsSolid();
    hide Solid, AllSolid, SolidSet;
  }

  lemma NothingIsSolid()
    ensures AllSolid([]) && SolidSet({}) && NoBlanks(FRESH_PERMS)
  {
  }

  lemma RuleIsSolid(p: Perms, raw: bytes, hash: bytes -> bytes)
    requires NoBlanks(p) && Solid(raw) && forall x :: Solid(hash(x))
    ensures NoBlanks(Rule(p, raw, hash))
  {
    hide NoBlanks, Solid, WordOf, WordRule, PasswordRule, CategoryRule, CommandRule, PatternRule;
    if raw != [] {
      TailIsSolid(raw, 1);
      if WordOf(raw) != NotAWord {
        WordRuleIsSolid(p, WordOf(raw));
      } else if raw[0] in {GREATER, LESS, HASH, BANG} {
        PasswordRuleIsSolid(p, raw, hash);
      } else if StartsAt(raw, PLUS) || StartsAt(raw, MINUS) {
        TailIsSolid(raw, 2);
        NameRulesAreSolid(p, raw[0] == PLUS, raw[2..]);
      } else {
        NameRulesAreSolid(p, raw[0] == PLUS, raw[1..]);
        PatternRuleIsSolid(p, raw[0] == TILDE, raw[1..]);
      }
    }
  }

  /** Rules without blanks make users without blanks. */
  lemma {:induction false} RulesAreSolid(p: Perms, rules: seq<bytes>, hash: bytes -> bytes)
    requires NoBlanks(p) && AllSolid(rules) && forall x :: Solid(hash(x))
    ensures NoBlanks(ApplyAll(p, rules, hash))
    decreases |rules|
  {
    hide NoBlanks, Solid, Rule, WellFormed;
    if rules != [] && WellFormed(rules[0]) {
      RuleIsSolid(p, rules[0], hash);
      RulesAreSolid(Rule(p, rules[0], hash), rules[1..], hash);
    }
  }

  lemma {:induction false} PrefixedIsSolid(prefix: bytes, xs: seq<bytes>)
    requires prefix != [] && Solid(prefix)
    ensures AllWords(Prefixed(prefix, xs)) <==> AllSolid(xs)
    decreases |xs|
  {
    if xs == [] {
    } else {
      PrefixedIsSolid(prefix, xs[1..]);
      FirstIsSolid(xs);
      JoinedIsSolid(prefix, xs[0]);
      var first := [prefix + xs[0]];
      assert AllWords(first) <==> Words.IsWord(first[0], Words.WHITE_SPACE);
      WordsOfBoth(first, Prefixed(prefix, xs[1..]));
    }
  }

  lemma FirstIsSolid(xs: seq<bytes>)
    requires xs != []
    ensures AllSolid(xs) <==> Solid(xs[0]) && AllSolid(xs[1..])
  {
    hide Solid;
    assert xs == [xs[0]] + xs[1..];
  }

  lemma JoinedIsSolid(a: bytes, b: bytes)
    requires Solid(a)
    ensures Solid(a + b) <==> Solid(b)
  {
    if Solid(a + b) {
      forall i | 0 <= i < |b| ensures b[i] !in Words.WHITE_SPACE {
        assert (a + b)[|a| + i] == b[i];
      }
    }
  }

  lemma WordsOfBoth(a: seq<bytes>, b: seq<bytes>)
    ensures AllWords(a + b) <==> AllWords(a) && AllWords(b)
  {
    if AllWords(a + b) {
      assert forall i :: 0 <= i < |a| ==> a[i] == (a + b)[i];
      forall i | 0 <= i < |b| ensures Words.IsWord(b[i], Words.WHITE_SPACE) {
        assert (a + b)[|a| + i] == b[i];
      }
    }
  }

  ghost predicate AllWords(xs: seq<bytes>) {
    forall i :: 0 <= i < |xs| ==> Words.IsWord(xs[i], Words.WHITE_SPACE)
  }

  lemma {:induction false} LowerAllIsSolid(xs: seq<bytes>)
    ensures AllSolid(LowerAll(xs)) <==> AllSolid(xs)
    decreases |xs|
  {
    hide Lower, Solid;
    if xs == [] {
    } else {
      LowerIsSolid(xs[0]);
      LowerAllIsSolid(xs[1..]);
      FirstIsSolid(xs);
      FirstIsSolid(LowerAll(xs));
    }
  }

  lemma LowerIsSolid(x: bytes)
    ensures Solid(Lower(x)) <==> Solid(x)
  {
    if Solid(Lower(x)) {
      forall i | 0 <= i < |x| ensures x[i] !in Words.WHITE_SPACE {
        assert Lower(x)[i] == LowerByte(x[i]);
      }
    }
  }

  /** Nothing that is written for this user holds a blank. */
  ghost predicate Blankless(p: Perms) {
    && (p.noPass || AllSolid(p.passwords))
    && (p.allKeys || AllSolid(p.keyPatterns)) && (p.allChannels || AllSolid(p.channelPatterns))
    && SolidSet(p.allowedCmds) && SolidSet(p.deniedCmds) && SolidSet(p.allowedCats) && SolidSet(p.deniedCats)
  }

  /** Exactly such users are saved as rules without blanks. */
  lemma SavedRulesAreWordsIff(p: Perms, out: seq<bytes>)
    requires IsSaved(out, p)
    ensures AllWords(out) <==> Blankless(p)
  {
    SignsAreSolid();
    hide Solid, Saved, Prefixed, LowerAll, Unique;
    var ac, dc, am, dm :| Lists(ac, p.allowedCats) && Lists(dc, p.deniedCats)
      && Lists(am, p.allowedCmds) && Lists(dm, p.deniedCmds) && out == Saved(p, ac, dc, am, dm);
    hide AllWords;
    LowerAllIsSolid(am);
    LowerAllIsSolid(dm);
    HeadAndTailAreWords(p);
    PrefixedIsSolid([PLUS, AT], ac);
    PrefixedIsSolid([MINUS, AT], dc);
    PrefixedIsSolid([PLUS], LowerAll(am));
    PrefixedIsSolid([MINUS], LowerAll(dm));
    SavedIsWords(p, ac, dc, am, dm);
  }

  lemma SavedIsWords(p: Perms, ac: seq<bytes>, dc: seq<bytes>, am: seq<bytes>, dm: seq<bytes>)
    ensures AllWords(Saved(p, ac, dc, am, dm)) <==>
      && AllWords(SavedHead(p)) && AllWords(Prefixed([PLUS, AT], ac)) && AllWords(Prefixed([MINUS, AT], dc))
      && AllWords(Prefixed([PLUS], LowerAll(am))) && AllWords(Prefixed([MINUS], LowerAll(dm)))
      && AllWords(SavedTail(p))
  {
    hide Prefixed, LowerAll, SavedHead, SavedTail, AllWords;
    var l1 := SavedHead(p) + Prefixed([PLUS, AT], ac);
    var l2 := l1 + Prefixed([MINUS, AT], dc);
    var l3 := l2 + Prefixed([PLUS], LowerAll(am));
    var l4 := l3 + Prefixed([MINUS], LowerAll(dm));
    WordsOfBoth(SavedHead(p), Prefixed([PLUS, AT], ac));
    WordsOfBoth(l1, Prefixed([MINUS, AT], dc));
    WordsOfBoth(l2, Prefixed([PLUS], LowerAll(am)));
    WordsOfBoth(l3, Prefixed([MINUS], LowerAll(dm)));
    WordsOfBoth(l4, SavedTail(p));
  }

  lemma SignsAreSolid()
    ensures Solid([HASH]) && Solid([PLUS, AT]) && Solid([MINUS, AT]) && Solid([PLUS]) && Solid([MINUS])
    ensures Solid([TILDE]) && Solid([AMP])
    ensures AllWords([ON]) && AllWords([OFF]) && AllWords([NOPASS]) && AllWords([[PLUS, AT] + ALL])
    ensures AllWords([[TILDE, STAR]]) && AllWords([[AMP, STAR]])
  {
  }

  lemma HeadAndTailAreWords(p: Perms)
    ensures AllWords(SavedHead(p)) <==> p.noPass || AllSolid(p.passwords)
    ensures AllWords(SavedTail(p)) <==>
      (p.allKeys || AllSolid(p.keyPatterns)) && (p.allChannels || AllSolid(p.channelPatterns))
  {
    SignsAreSolid();
    hide Solid, Prefixed, AllSolid, AllWords;
    PrefixedIsSolid([HASH], p.passwords);
    PrefixedIsSolid([TILDE], p.keyPatterns);
    PrefixedIsSolid([AMP], p.channelPatterns);
    var first, all := [if p.enabled then ON else OFF], if p.allCommands then [[PLUS, AT] + ALL] else [];
    var pass := if p.noPass then [NOPASS] else Prefixed([HASH], p.passwords);
    NoWords();
    WordsOfBoth(first, pass);
    WordsOfBoth(first + pass, all);
    WordsOfBoth(if p.allKeys then [[TILDE, STAR]] else Prefixed([TILDE], p.keyPatterns),
      if p.allChannels then [[AMP, STAR]] else Prefixed([AMP], p.channelPatterns));
  }

  lemma NoBlanksIsBlankless(p: Perms)
    requires NoBlanks(p)
    ensures Blankless(p)
  {
  }

  lemma WordsAre(xs: seq<bytes>)
    ensures AllWords(xs) <==> forall i :: 0 <= i < |xs| ==> Words.IsWord(xs[i], Words.WHITE_SPACE)
  {
  }

  lemma NoWords()
    ensures AllWords([])
  {
  }

  /**
   Saving and loading is a no-op: for every non-default user made by rules without blanks that spell category names
   in lower case, reading back the line written for it makes a user whom every command is allowed or refused alike,
   and whom the same passwords let in.
   */
  lemma SaveAndLoadIsNoOp(name: bytes, rules: seq<bytes>, table: Table, out: seq<bytes>, hash: bytes -> bytes)
    requires LowerDigest(hash) && NoneCalledAll(table) && (forall x :: Solid(hash(x)))
    requires Words.IsWord(name, Words.WHITE_SPACE) && AllSolid(rules)
    requires forall i :: 0 <= i < |rules| ==> LowerCaseName(rules[i])
    requires IsSaved(out, ApplyAll(FRESH_PERMS, rules, hash))
    ensures ReadLine(SavedLine(name, out)) == UserLine(name, out)
    ensures forall cmd, keys, channels ::
      Allows(ApplyAll(FRESH_PERMS, out, hash), table, cmd, keys, channels)
        == Allows(ApplyAll(FRESH_PERMS, rules, hash), table, cmd, keys, channels)
    ensures forall w ::
      Accepts(ApplyAll(FRESH_PERMS, out, hash), w, hash) == Accepts(ApplyAll(FRESH_PERMS, rules, hash), w, hash)
  {
    hide ApplyAll, Allows, IsSaved, LowerCaseName, LowerDigest, NoneCalledAll, Solid, Accepts, NoBlanks, SavedLine,
      ReadLine, AllWords, Blankless;
    var p := ApplyAll(FRESH_PERMS, rules, hash);
    NothingIsSolid();
    RulesAreSolid(FRESH_PERMS, rules, hash);
    NoBlanksIsBlankless(p);
    SavedRulesAreWordsIff(p, out);
    WordsAre(out);
    LineRoundTrip(name, out);
    LowerCaseRulesReload(rules, table, out, hash);
    FreshIsRegular();
    RulesKeep(FRESH_PERMS, rules, hash);
    forall w ensures Accepts(ApplyAll(FRESH_PERMS, out, hash), w, hash) == Accepts(p, w, hash) {
      ReloadKeepsLogin(p, out, w, hash);
    }
  }
}
