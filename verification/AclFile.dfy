/**
 The users file as a whole: one line for each user, read back line by line into a registry that knows the default user
 only. Which users survive a restart unchanged is the question here, for all of them at once.
 */
module AclFile {
  import opened Bytes
  import opened Acl
  import Words

  const DEFAULT: bytes := [100, 101, 102, 97, 117, 108, 116] // "default"

  /** The users by their names in lower case. */
  type Registry = map<bytes, Perms>

  datatype Loaded = Loaded(users: Registry, ok: bool)

  predicate AllFormed(rules: seq<bytes>) {
    forall i :: 0 <= i < |rules| ==> WellFormed(rules[i])
  }

  /** The user a line's rules are applied to. */
  function Base(users: Registry, key: bytes): Perms {
    if key in users then users[key] else FRESH_PERMS
  }

  /** One rule list applied to one user, who is made if there is none of that name. */
  function SetUser(users: Registry, name: bytes, rules: seq<bytes>, hash: bytes -> bytes): Registry {
    users[Lower(name) := ApplyAll(Base(users, Lower(name)), rules, hash)]
  }

  /** Reading stops at the first line with a malformed rule, whose earlier rules have taken effect. */
  function LoadLines(users: Registry, lines: seq<bytes>, hash: bytes -> bytes): Loaded
    decreases |lines|
  {
    if lines == [] then Loaded(users, true)
    else
      match ReadLine(lines[0])
      case Ignored => LoadLines(users, lines[1..], hash)
      case UserLine(name, rules) =>
        var next := SetUser(users, name, rules, hash);
        if AllFormed(rules) then LoadLines(next, lines[1..], hash) else Loaded(next, false)
  }

  // ----- what any file says

  datatype Entry = Entry(name: bytes, rules: seq<bytes>)

  /** The users' lines that are acted on: all up to the first with a malformed rule. */
  function Entries(lines: seq<bytes>): seq<Entry>
    decreases |lines|
  {
    if lines == [] then []
    else
      match ReadLine(lines[0])
      case Ignored => Entries(lines[1..])
      case UserLine(name, rules) => [Entry(name, rules)] + if AllFormed(rules) then Entries(lines[1..]) else []
  }

  predicate AllGood(es: seq<Entry>) {
    forall i :: 0 <= i < |es| ==> AllFormed(es[i].rules)
  }

  function KeysOf(es: seq<Entry>): set<bytes> {
    if es == [] then {} else {Lower(es[0].name)} + KeysOf(es[1..])
  }

  /** All that is said about one user, in order. */
  function RulesFor(key: bytes, es: seq<Entry>): seq<bytes> {
    if es == [] then []
    else (if Lower(es[0].name) == key then es[0].rules else []) + RulesFor(key, es[1..])
  }

  /** What each user becomes by all that is said about him. */
  function Told(users: Registry, es: seq<Entry>, hash: bytes -> bytes): Registry {
    map k | k in users.Keys + KeysOf(es) :: ApplyAll(Base(users, k), RulesFor(k, es), hash)
  }

  /**
   Whatever a file holds, loading it does to each user what its lines say about him, taken together, and succeeds
   exactly when none of them has a malformed rule.
   */
  lemma {:induction false} LoadGives(users: Registry, lines: seq<bytes>, hash: bytes -> bytes)
    ensures LoadLines(users, lines, hash) == Loaded(Told(users, Entries(lines), hash), AllGood(Entries(lines)))
    decreases |lines|
  {
    hide ReadLine, AllFormed, ApplyAll, Lower, Told, AllGood;
    if lines == [] {
      NothingTold(users, hash);
    } else {
      match ReadLine(lines[0])
      case Ignored =>
        LoadGives(users, lines[1..], hash);
      case UserLine(name, rules) =>
        var next := SetUser(users, name, rules, hash);
        var later := if AllFormed(rules) then Entries(lines[1..]) else [];
        ToldOne(users, Entry(name, rules), later, hash);
        if AllFormed(rules) {
          LoadGives(next, lines[1..], hash);
        } else {
          NothingTold(next, hash);
        }
    }
  }

  lemma NothingTold(users: Registry, hash: bytes -> bytes)
    ensures Told(users, [], hash) == users && AllGood([])
  {
  }

  lemma ToldOne(users: Registry, e: Entry, later: seq<Entry>, hash: bytes -> bytes)
    requires AllFormed(e.rules) || later == []
    ensures Told(users, [e] + later, hash) == Told(SetUser(users, e.name, e.rules, hash), later, hash)
    ensures AllGood([e] + later) <==> AllFormed(e.rules) && AllGood(later)
  {
    hide AllFormed, ApplyAll, Lower, SetUser, KeysOf, RulesFor, Base;
    var es, next := [e] + later, SetUser(users, e.name, e.rules, hash);
    assert es[1..] == later && es[0] == e;
    GoodOneByOne(e, later);
    forall k
      ensures ApplyAll(Base(users, k), RulesFor(k, es), hash) == ApplyAll(Base(next, k), RulesFor(k, later), hash)
    {
      ToldOneKey(users, e, later, k, hash);
    }
    KeysOneMore(users, e, later, hash);
  }

  lemma KeysOneMore(users: Registry, e: Entry, later: seq<Entry>, hash: bytes -> bytes)
    ensures users.Keys + KeysOf([e] + later) == SetUser(users, e.name, e.rules, hash).Keys + KeysOf(later)
  {
    hide ApplyAll, Lower, Base;
    assert ([e] + later)[1..] == later;
  }

  lemma ToldOneKey(users: Registry, e: Entry, later: seq<Entry>, k: bytes, hash: bytes -> bytes)
    requires AllFormed(e.rules) || later == []
    ensures ApplyAll(Base(users, k), RulesFor(k, [e] + later), hash)
      == ApplyAll(Base(SetUser(users, e.name, e.rules, hash), k), RulesFor(k, later), hash)
  {
    hide AllFormed, ApplyAll, Lower;
    assert ([e] + later)[1..] == later;
    if Lower(e.name) == k {
      if AllFormed(e.rules) {
        FormedThen(Base(users, k), e.rules, RulesFor(k, later), hash);
      } else {
        assert e.rules + [] == e.rules;
        NoRules(ApplyAll(Base(users, k), e.rules, hash), hash);
      }
    } else {
      assert [] + RulesFor(k, later) == RulesFor(k, later);
    }
  }

  lemma NoRules(p: Perms, hash: bytes -> bytes)
    ensures ApplyAll(p, [], hash) == p
  {
  }

  lemma FormedThen(p: Perms, a: seq<bytes>, b: seq<bytes>, hash: bytes -> bytes)
    requires AllFormed(a)
    ensures ApplyAll(p, a + b, hash) == ApplyAll(ApplyAll(p, a, hash), b, hash)
  {
    ApplyAppend(p, a, b, hash);
  }

  // ----- the file as bytes

  function FileOf(lines: seq<bytes>): bytes {
    if lines == [] then [] else lines[0] + [LF] + FileOf(lines[1..])
  }

  /** The lines of a file, the last being what follows the last line feed. */
  function LinesOf(file: bytes): seq<bytes> {
    LinesAfter(file, [])
  }

  function LinesAfter(file: bytes, open: bytes): seq<bytes>
    decreases |file|
  {
    if file == [] then [open]
    else if file[0] == LF then [open] + LinesAfter(file[1..], [])
    else LinesAfter(file[1..], open + [file[0]])
  }

  predicate OneLine(s: bytes) {
    LF !in s
  }

  lemma {:induction false} LineEnds(line: bytes, open: bytes, rest: bytes)
    requires OneLine(line)
    ensures LinesAfter(line + [LF] + rest, open) == [open + line] + LinesOf(rest)
    decreases |line|
  {
    if line == [] {
      assert (line + [LF] + rest)[1..] == rest && open + line == open;
    } else {
      assert (line + [LF] + rest)[1..] == line[1..] + [LF] + rest;
      assert open + line == (open + [line[0]]) + line[1..];
      LineEnds(line[1..], open + [line[0]], rest);
    }
  }

  lemma {:induction false} LinesOfFile(lines: seq<bytes>)
    requires forall i :: 0 <= i < |lines| ==> OneLine(lines[i])
    ensures LinesOf(FileOf(lines)) == lines + [[]]
    decreases |lines|
  {
    if lines == [] {
    } else {
      LineEnds(lines[0], [], FileOf(lines[1..]));
      LinesOfFile(lines[1..]);
      assert [] + lines[0] == lines[0];
      assert [lines[0]] + (lines[1..] + [[]]) == lines + [[]];
    }
  }

  /** What a restart starts from. */
  const INITIAL_USERS: Registry := map[DEFAULT := OPEN_PERMS]

  // ----- what is written

  /** The lines for these users, one for each, in some order, each user's maps walked in some order. */
  ghost predicate IsFile(
    lines: seq<bytes>, users: Registry, names: map<bytes, bytes>, order: seq<bytes>, outs: seq<seq<bytes>>)
  {
    && |order| == |outs| == |lines| && Lists(order, users.Keys) && names.Keys == users.Keys
    && (forall k :: k in users ==> Lower(names[k]) == k)
    && (forall i :: 0 <= i < |lines| ==>
      order[i] in users && IsSaved(outs[i], users[order[i]]) && lines[i] == SavedLine(names[order[i]], outs[i]))
  }

  /** Names and whatever else is written hold no blanks. */
  ghost predicate Writable(users: Registry, names: map<bytes, bytes>) {
    forall k :: k in users ==> k in names && IsName(names[k]) && Blankless(users[k])
  }

  predicate IsName(name: bytes) {
    Words.IsWord(name, Words.WHITE_SPACE)
  }

  ghost predicate AllRegular(users: Registry) {
    forall k :: k in users ==> Regular(users[k])
  }

  /** Every registry that starts as a restart does and is changed by rule lists alone has regular users. */
  lemma SetUserKeepsRegular(users: Registry, name: bytes, rules: seq<bytes>, hash: bytes -> bytes)
    requires AllRegular(users) && LowerDigest(hash)
    ensures AllRegular(INITIAL_USERS) && AllRegular(SetUser(users, name, rules, hash))
  {
    hide Regular, ApplyAll, Lower;
    FreshIsRegular();
    OpenIsRegular();
    RulesKeep(Base(users, Lower(name)), rules, hash);
  }

  /** Saved rules are never malformed. */
  lemma SavedIsFormed(p: Perms, out: seq<bytes>)
    requires IsSaved(out, p) && Regular(p)
    ensures AllFormed(out)
  {
    hide Regular, Lists, Prefixed, LowerAll, WellFormed, Unique;
    var ac, dc, am, dm :| Lists(ac, p.allowedCats) && Lists(dc, p.deniedCats)
      && Lists(am, p.allowedCmds) && Lists(dm, p.deniedCmds) && out == Saved(p, ac, dc, am, dm);
    PrefixedFormed([PLUS, AT], ac);
    PrefixedFormed([MINUS, AT], dc);
    PrefixedFormed([PLUS], LowerAll(am));
    PrefixedFormed([MINUS], LowerAll(dm));
    HeadAndTailFormed(p);
    hide SavedHead, SavedTail;
    var l1 := SavedHead(p) + Prefixed([PLUS, AT], ac);
    var l2 := l1 + Prefixed([MINUS, AT], dc);
    var l3 := l2 + Prefixed([PLUS], LowerAll(am));
    var l4 := l3 + Prefixed([MINUS], LowerAll(dm));
    assert AllFormed(l1) && AllFormed(l2) && AllFormed(l3) && AllFormed(l4);
  }

  lemma HeadAndTailFormed(p: Perms)
    requires Regular(p)
    ensures AllFormed(SavedHead(p)) && AllFormed(SavedTail(p))
  {
    LoadHead(p, FRESH_PERMS, x => x);
    PrefixedFormed([TILDE], p.keyPatterns);
    PrefixedFormed([AMP], p.channelPatterns);
    assert WellFormed([TILDE, STAR]) && WellFormed([AMP, STAR]);
    hide WellFormed, Prefixed, Regular;
  }

  // ----- what a restart makes of it

  /** What becomes of one user. */
  function Restarted(key: bytes, p: Perms): Perms {
    Reloaded(p, if key == DEFAULT then OPEN_PERMS else FRESH_PERMS)
  }

  function RestartedAll(users: Registry): Registry {
    map k | k in users :: Restarted(k, users[k])
  }

  /** What is said by the line of a user: with blanks, not what was written. */
  function Said(name: bytes, out: seq<bytes>): Entry {
    var words := Words.Fields(name, Words.WHITE_SPACE) + Split(out);
    if words == [] then Entry([], []) else Entry(words[0], words[1..])
  }

  /** The first word of what is saved says whether the user is enabled. */
  lemma SavedSplits(p: Perms, out: seq<bytes>)
    requires IsSaved(out, p)
    ensures Split(out) != []
  {
    hide SavedTail, Prefixed, LowerAll;
    assert out[0] == ON || out[0] == OFF;
    Words.FieldsOfWord(ON, Words.WHITE_SPACE);
    Words.FieldsOfWord(OFF, Words.WHITE_SPACE);
  }

  /** Lines that are all understood as these entries, and whatever is the matter with one, is found where it is said. */
  lemma {:induction false} EntriesAre(lines: seq<bytes>, es: seq<Entry>)
    requires |lines| == |es|
    requires forall i :: 0 <= i < |lines| ==> ReadLine(lines[i]) == UserLine(es[i].name, es[i].rules)
    ensures AllGood(es) || AllGood(Entries(lines + [[]])) ==> Entries(lines + [[]]) == es
    ensures AllGood(es) <==> AllGood(Entries(lines + [[]]))
    decreases |lines|
  {
    hide ReadLine, AllFormed;
    var all := lines + [[]];
    if lines == [] {
      EmptyIsIgnored();
      assert all[1..] == [];
    } else {
      assert all[0] == lines[0] && all[1..] == lines[1..] + [[]];
      EntriesAre(lines[1..], es[1..]);
      GoodOneByOne(es[0], es[1..]);
      assert es == [es[0]] + es[1..];
      GoodOneByOne(es[0], if AllFormed(es[0].rules) then Entries(all[1..]) else []);
    }
  }

  lemma EmptyIsIgnored()
    ensures ReadLine([]) == Ignored
  {
  }

  lemma GoodOneByOne(e: Entry, later: seq<Entry>)
    ensures AllGood([e] + later) <==> AllFormed(e.rules) && AllGood(later)
  {
    hide AllFormed;
    var es := [e] + later;
    assert es[0] == e && forall i :: 0 <= i < |later| ==> later[i] == es[i + 1];
  }

  lemma {:induction false} KeysAre(es: seq<Entry>)
    ensures forall k :: k in KeysOf(es) <==> exists i :: 0 <= i < |es| && Lower(es[i].name) == k
    decreases |es|
  {
    hide Lower;
    if es == [] {
    } else {
      KeysAre(es[1..]);
      forall k ensures k in KeysOf(es) <==> exists i :: 0 <= i < |es| && Lower(es[i].name) == k {
        if i :| 0 <= i < |es| && Lower(es[i].name) == k {
          if i > 0 {
            assert es[1..][i - 1] == es[i];
          }
        }
        if k in KeysOf(es[1..]) {
          var i :| 0 <= i < |es| - 1 && Lower(es[1..][i].name) == k;
          assert es[i + 1] == es[1..][i];
        }
      }
    }
  }

  lemma {:induction false} NotMentioned(key: bytes, es: seq<Entry>)
    requires forall i :: 0 <= i < |es| ==> Lower(es[i].name) != key
    ensures RulesFor(key, es) == []
    decreases |es|
  {
    hide Lower;
    if es == [] {
    } else {
      NotMentioned(key, es[1..]);
    }
  }

  /** A user mentioned once. */
  lemma {:induction false} MentionedOnce(key: bytes, es: seq<Entry>, i: nat)
    requires i < |es| && forall j :: 0 <= j < |es| ==> (Lower(es[j].name) == key <==> j == i)
    ensures RulesFor(key, es) == es[i].rules
    decreases |es|
  {
    hide Lower;
    if i == 0 {
      NotMentioned(key, es[1..]);
    } else {
      MentionedOnce(key, es[1..], i - 1);
    }
  }

  /** All the entries as they are read, and as they were written. */
  function SaidAll(names: map<bytes, bytes>, order: seq<bytes>, outs: seq<seq<bytes>>): seq<Entry>
    requires |order| == |outs| && forall i :: 0 <= i < |order| ==> order[i] in names
  {
    seq(|outs|, i requires 0 <= i < |outs| => Said(names[order[i]], outs[i]))
  }

  function WrittenAll(names: map<bytes, bytes>, order: seq<bytes>, outs: seq<seq<bytes>>): seq<Entry>
    requires |order| == |outs| && forall i :: 0 <= i < |order| ==> order[i] in names
  {
    seq(|outs|, i requires 0 <= i < |outs| => Entry(names[order[i]], outs[i]))
  }

  lemma SaidAsWritten(name: bytes, out: seq<bytes>)
    ensures IsName(name) ==> Said(name, out) == Entry(name, Split(out))
    ensures AllWords(out) ==> Split(out) == out
  {
    hide Words.FieldsOfEach, Words.Fields;
    if IsName(name) {
      Words.FieldsOfWord(name, Words.WHITE_SPACE);
    }
    if AllWords(out) {
      WordsAre(out);
      Words.FieldsOfWords(out, Words.WHITE_SPACE);
    }
  }

  lemma {:induction false} JoinIsOneLine(parts: seq<bytes>)
    requires forall i :: 0 <= i < |parts| ==> OneLine(parts[i])
    ensures OneLine(Words.Join(parts))
    decreases |parts|
  {
    if |parts| > 1 {
      JoinIsOneLine(parts[1..]);
    }
  }

  lemma WordIsOneLine(w: bytes)
    requires IsName(w)
    ensures OneLine(w)
  {
  }

  /** Lines without line feeds are read back one by one. */
  lemma FileSays(
    users: Registry, names: map<bytes, bytes>, lines: seq<bytes>, order: seq<bytes>, outs: seq<seq<bytes>>)
    requires IsFile(lines, users, names, order, outs) && forall i :: 0 <= i < |lines| ==> OneLine(lines[i])
    ensures
      var es, found := SaidAll(names, order, outs), Entries(LinesOf(FileOf(lines)));
      (AllGood(found) <==> AllGood(es)) && (AllGood(es) ==> found == es)
  {
    hide ReadLine, SavedLine, IsSaved, AllGood, Lists, OneLine, Split, Said, Entries;
    var es := SaidAll(names, order, outs);
    LinesOfFile(lines);
    forall i | 0 <= i < |lines| ensures ReadLine(lines[i]) == UserLine(es[i].name, es[i].rules) {
      SavedSplits(users[order[i]], outs[i]);
      LineIsSaid(names[order[i]], outs[i]);
    }
    EntriesAre(lines, es);
  }

  lemma LineIsSaid(name: bytes, out: seq<bytes>)
    requires Split(out) != []
    ensures ReadLine(SavedLine(name, out)) == UserLine(Said(name, out).name, Said(name, out).rules)
  {
    hide ReadLine, SavedLine, Split;
    LineReads(name, out);
  }

  ghost predicate OfWords(es: seq<Entry>) {
    forall i :: 0 <= i < |es| ==> IsName(es[i].name) && AllWords(es[i].rules)
  }

  lemma {:induction false} EntriesAreWords(lines: seq<bytes>)
    ensures OfWords(Entries(lines))
    decreases |lines|
  {
    hide AllFormed, ReadLine, IsName, AllWords;
    if lines == [] {
    } else {
      EntriesAreWords(lines[1..]);
      LineIsWords(lines[0]);
    }
  }

  lemma LineIsWords(line: bytes)
    ensures match ReadLine(line)
      case Ignored => true
      case UserLine(name, rules) => IsName(name) && AllWords(rules)
  {
    Words.FieldsAreWords(line, [], Words.WHITE_SPACE);
  }

  /** The file says what was written exactly when nothing that was written holds a blank. */
  lemma FileSaysIff(
    users: Registry, names: map<bytes, bytes>, lines: seq<bytes>, order: seq<bytes>, outs: seq<seq<bytes>>)
    requires IsFile(lines, users, names, order, outs) && AllRegular(users)
    ensures Entries(LinesOf(FileOf(lines))) == WrittenAll(names, order, outs) <==> Writable(users, names)
  {
    hide AllFormed, AllWords, Blankless, IsSaved, Regular, Lower, Entries, LinesOf, FileOf, IsName, Split, SavedLine,
      Said;
    var written := WrittenAll(names, order, outs);
    if Writable(users, names) {
      forall i | 0 <= i < |lines|
        ensures OneLine(lines[i]) && SaidAll(names, order, outs)[i] == written[i] && AllFormed(outs[i])
      {
        WritableLine(names[order[i]], users[order[i]], outs[i]);
      }
      assert SaidAll(names, order, outs) == written;
      FileSays(users, names, lines, order, outs);
    } else if Entries(LinesOf(FileOf(lines))) == written {
      EntriesAreWords(LinesOf(FileOf(lines)));
      forall k | k in users ensures k in names && IsName(names[k]) && Blankless(users[k]) {
        assert k in order;
        var i :| 0 <= i < |order| && order[i] == k;
        assert written[i] == Entry(names[k], outs[i]);
        SavedRulesAreWordsIff(users[k], outs[i]);
      }
    }
  }

  lemma WritableLine(name: bytes, p: Perms, out: seq<bytes>)
    requires IsSaved(out, p) && Regular(p) && IsName(name) && Blankless(p)
    ensures OneLine(SavedLine(name, out)) && Said(name, out) == Entry(name, out) && AllFormed(out)
  {
    hide Blankless, IsSaved, Regular, AllFormed, AllWords, OneLine, IsName, Split, Said;
    SavedRulesAreWordsIff(p, out);
    SaidAsWritten(name, out);
    SavedIsFormed(p, out);
    WordsAre(out);
    var parts := [USER, name] + out;
    UserIsName();
    forall i | 0 <= i < |parts| ensures OneLine(parts[i]) {
      if i >= 2 {
        assert parts[i] == out[i - 2];
        IsNameIs(parts[i]);
      }
      WordIsOneLine(parts[i]);
    }
    JoinIsOneLine(parts);
  }

  lemma UserIsName()
    ensures IsName(USER)
  {
  }

  lemma IsNameIs(w: bytes)
    ensures IsName(w) <==> Words.IsWord(w, Words.WHITE_SPACE)
  {
  }

  // ----- what a restart makes of a registry

  /** With proper names, each user is told what his own line says, and nobody else. */
  lemma ToldByName(
    users: Registry, names: map<bytes, bytes>, lines: seq<bytes>, order: seq<bytes>, outs: seq<seq<bytes>>,
    es: seq<Entry>, hash: bytes -> bytes)
    requires IsFile(lines, users, names, order, outs) && DEFAULT in users && |es| == |order|
    requires forall i :: 0 <= i < |order| ==> es[i].name == names[order[i]]
    ensures Told(INITIAL_USERS, es, hash).Keys == users.Keys
    ensures forall i :: 0 <= i < |order| ==>
      Told(INITIAL_USERS, es, hash)[order[i]] == ApplyAll(Base(INITIAL_USERS, order[i]), es[i].rules, hash)
  {
    hide Lower, ApplyAll, IsSaved, SavedLine, Told, KeysOf, Base;
    assert forall j :: 0 <= j < |es| ==> Lower(es[j].name) == order[j];
    KeysListed(order, es, users.Keys);
    ToldIs(INITIAL_USERS, es, hash);
    forall i | 0 <= i < |order|
      ensures Told(INITIAL_USERS, es, hash)[order[i]] == ApplyAll(Base(INITIAL_USERS, order[i]), es[i].rules, hash)
    {
      MentionedOnce(order[i], es, i);
    }
  }

  lemma ToldIs(users: Registry, es: seq<Entry>, hash: bytes -> bytes)
    ensures Told(users, es, hash).Keys == users.Keys + KeysOf(es)
    ensures forall k :: k in Told(users, es, hash) ==>
      Told(users, es, hash)[k] == ApplyAll(Base(users, k), RulesFor(k, es), hash)
  {
    hide ApplyAll, KeysOf, RulesFor, Base;
  }

  lemma KeysListed(order: seq<bytes>, es: seq<Entry>, keys: set<bytes>)
    requires Lists(order, keys) && |es| == |order| && DEFAULT in keys
    requires forall j :: 0 <= j < |es| ==> Lower(es[j].name) == order[j]
    ensures INITIAL_USERS.Keys + KeysOf(es) == keys
  {
    hide Lower, Unique, KeysOf;
    KeysAre(es);
    forall k | k in KeysOf(es) ensures k in keys {
      var i :| 0 <= i < |es| && Lower(es[i].name) == k;
      assert order[i] in order;
    }
    forall k | k in keys ensures k in KeysOf(es) {
      assert k in order;
      var i :| 0 <= i < |order| && order[i] == k;
      assert Lower(es[i].name) == k;
    }
    assert INITIAL_USERS.Keys == {DEFAULT};
  }

  lemma RestartedIs(key: bytes, p: Perms, out: seq<bytes>, hash: bytes -> bytes)
    requires Regular(p) && IsSaved(out, p)
    ensures ApplyAll(Base(INITIAL_USERS, key), out, hash) == Restarted(key, p)
  {
    hide Regular, IsSaved, ApplyAll, Reloaded;
    if key == DEFAULT {
      LoadDefault(p, out, hash);
    } else {
      LoadFresh(p, out, hash);
    }
  }

  /**
   Without blanks, every user comes back and no other; each is what its saved rules make of a new or of the default
   user.
   */
  lemma RestartGives(
    users: Registry, names: map<bytes, bytes>, lines: seq<bytes>, order: seq<bytes>, outs: seq<seq<bytes>>,
    hash: bytes -> bytes)
    requires IsFile(lines, users, names, order, outs) && AllRegular(users) && DEFAULT in users
    ensures
      var r, es := LoadLines(INITIAL_USERS, LinesOf(FileOf(lines)), hash), Entries(LinesOf(FileOf(lines)));
      && r == Loaded(Told(INITIAL_USERS, es, hash), AllGood(es))
      && (Writable(users, names) ==> r == Loaded(RestartedAll(users), true))
  {
    hide LoadLines, IsFile, AllRegular, Told, Entries, LinesOf, FileOf, RestartedAll, AllGood, Writable;
    LoadGives(INITIAL_USERS, LinesOf(FileOf(lines)), hash);
    if Writable(users, names) {
      FileSaysIff(users, names, lines, order, outs);
      WrittenGives(users, names, lines, order, outs, hash);
    }
  }

  lemma WrittenGives(
    users: Registry, names: map<bytes, bytes>, lines: seq<bytes>, order: seq<bytes>, outs: seq<seq<bytes>>,
    hash: bytes -> bytes)
    requires IsFile(lines, users, names, order, outs) && AllRegular(users) && DEFAULT in users
    ensures AllGood(WrittenAll(names, order, outs))
    ensures Told(INITIAL_USERS, WrittenAll(names, order, outs), hash) == RestartedAll(users)
  {
    hide IsSaved, SavedLine, Lower, Told, Regular, Restarted, AllFormed, ApplyAll, Base;
    var es := WrittenAll(names, order, outs);
    ToldByName(users, names, lines, order, outs, es, hash);
    forall i | 0 <= i < |order| ensures AllFormed(es[i].rules) {
      SavedIsFormed(users[order[i]], outs[i]);
    }
    forall k | k in users ensures Told(INITIAL_USERS, es, hash)[k] == Restarted(k, users[k]) {
      assert k in order;
      var i :| 0 <= i < |order| && order[i] == k;
      RestartedIs(k, users[k], outs[i], hash);
    }
  }

  // ----- who survives a restart

  /** The two users decide every command alike and let in the same passwords. */
  ghost predicate Alike(p: Perms, q: Perms, table: Table, hash: bytes -> bytes) {
    && (forall cmd, keys, channels :: Allows(p, table, cmd, keys, channels) == Allows(q, table, cmd, keys, channels))
    && (forall w :: Accepts(p, w, hash) == Accepts(q, w, hash))
  }

  /** What has to be checked of a user before a restart. */
  ghost predicate Survives(key: bytes, p: Perms, table: Table) {
    p.enabled ==>
      if key == DEFAULT then DefaultSafe(p, table) && (p.noPass || p.passwords != []) else SaveSafe(p, table)
  }

  lemma SurvivesIff(key: bytes, p: Perms, out: seq<bytes>, table: Table, hash: bytes -> bytes)
    requires Regular(p) && NoneCalledAll(table) && IsSaved(out, p)
    ensures Alike(Restarted(key, p), p, table, hash) <==> Survives(key, p, table)
  {
    hide Regular, NoneCalledAll, IsSaved, Allows, Accepts, DefaultSafe, SaveSafe, ApplyAll, Reloaded;
    if key == DEFAULT {
      LoadDefault(p, out, hash);
      DefaultKeepsDecisions(p, table, out, hash);
      DefaultKeepsLogin(p, out, hash);
    } else {
      LoadFresh(p, out, hash);
      ReloadKeepsDecisions(p, table, out, hash);
      forall w ensures Accepts(Reloaded(p, FRESH_PERMS), w, hash) == Accepts(p, w, hash) {
        ReloadKeepsLogin(p, out, w, hash);
      }
    }
  }

  /**
   A user comes back as before: under its own name, and safe to save; or, if something that is written holds a blank,
   so that it is read as other rules, these are well-formed and happen to make the same of it.
   */
  ghost predicate Returns(key: bytes, name: bytes, p: Perms, out: seq<bytes>, table: Table, hash: bytes -> bytes) {
    && IsName(name)
    && if Blankless(p) then Survives(key, p, table)
       else AllFormed(Split(out)) && Alike(ApplyAll(Base(INITIAL_USERS, key), Split(out), hash), p, table, hash)
  }

  lemma ReturnsMeans(key: bytes, name: bytes, p: Perms, out: seq<bytes>, table: Table, hash: bytes -> bytes)
    requires Regular(p) && NoneCalledAll(table) && IsSaved(out, p)
    ensures Returns(key, name, p, out, table, hash) <==>
      && IsName(name) && AllFormed(Split(out))
      && Alike(ApplyAll(Base(INITIAL_USERS, key), Split(out), hash), p, table, hash)
  {
    hide Regular, NoneCalledAll, IsSaved, Blankless, Survives, AllFormed, Alike, ApplyAll, Split, Restarted, IsName,
      Base, AllWords;
    if Blankless(p) {
      SavedRulesAreWordsIff(p, out);
      SaidAsWritten(name, out);
      SavedIsFormed(p, out);
      RestartedIs(key, p, out, hash);
      SurvivesIff(key, p, out, table, hash);
    }
  }

  /** Users that have come back can only do so under names that are words. */
  lemma NamesAreWords(
    users: Registry, names: map<bytes, bytes>, lines: seq<bytes>, order: seq<bytes>, outs: seq<seq<bytes>>,
    i: nat, hash: bytes -> bytes)
    requires IsFile(lines, users, names, order, outs) && i < |order|
    requires Told(INITIAL_USERS, Entries(LinesOf(FileOf(lines))), hash).Keys == users.Keys
    ensures IsName(names[order[i]])
  {
    hide ApplyAll, IsSaved, SavedLine, Entries, LinesOf, FileOf, Lower, IsName, AllWords;
    var es := Entries(LinesOf(FileOf(lines)));
    EntriesAreWords(LinesOf(FileOf(lines)));
    KeysAre(es);
    assert order[i] in users && order[i] in {DEFAULT} + KeysOf(es);
    LowerIsName(names[order[i]]);
    if order[i] == DEFAULT {
      DefaultIsName();
    } else {
      var j :| 0 <= j < |es| && Lower(es[j].name) == order[i];
      LowerIsName(es[j].name);
    }
  }

  lemma NotAllGood(es: seq<Entry>)
    requires !AllGood(es)
    ensures exists i :: 0 <= i < |es| && !AllFormed(es[i].rules)
  {
  }

  lemma LowerIsName(name: bytes)
    ensures IsName(Lower(name)) <==> IsName(name)
  {
    LowerIsSolid(name);
  }

  lemma DefaultIsName()
    ensures IsName(DEFAULT)
  {
  }

  /**
   Saving every user and loading the file again is a no-op for names, decisions and logins exactly when every user
   returns: without blanks, that is when every enabled one is safe to save, the default user by a condition of its
   own.
   */
  lemma RestartIsNoOpIff(
    users: Registry, names: map<bytes, bytes>, lines: seq<bytes>, order: seq<bytes>, outs: seq<seq<bytes>>,
    table: Table, hash: bytes -> bytes)
    requires IsFile(lines, users, names, order, outs) && AllRegular(users) && DEFAULT in users && NoneCalledAll(table)
    requires forall i :: 0 <= i < |lines| ==> OneLine(lines[i])
    ensures
      var r := LoadLines(INITIAL_USERS, LinesOf(FileOf(lines)), hash);
      (r.ok && r.users.Keys == users.Keys && forall k :: k in users ==> Alike(r.users[k], users[k], table, hash))
      <==> forall i :: 0 <= i < |order| ==>
        Returns(order[i], names[order[i]], users[order[i]], outs[i], table, hash)
  {
    hide LoadLines, IsSaved, SavedLine, Lower, Told, Entries, LinesOf, FileOf, Regular, AllFormed, Alike, Returns,
      NoneCalledAll, IsName, Said, Split, OneLine, ApplyAll;
    var es := SaidAll(names, order, outs);
    LoadGives(INITIAL_USERS, LinesOf(FileOf(lines)), hash);
    FileSays(users, names, lines, order, outs);
    var found := Entries(LinesOf(FileOf(lines)));
    var now := Told(INITIAL_USERS, found, hash);
    if now.Keys == users.Keys {
      forall i | 0 <= i < |order| ensures IsName(names[order[i]]) {
        NamesAreWords(users, names, lines, order, outs, i, hash);
      }
    }
    if forall i :: 0 <= i < |order| ==> IsName(names[order[i]]) {
      AllReturnIff(users, names, lines, order, outs, table, hash);
    } else {
      var i :| 0 <= i < |order| && !IsName(names[order[i]]);
      ReturnsMeans(order[i], names[order[i]], users[order[i]], outs[i], table, hash);
    }
  }

  lemma AllReturnIff(
    users: Registry, names: map<bytes, bytes>, lines: seq<bytes>, order: seq<bytes>, outs: seq<seq<bytes>>,
    table: Table, hash: bytes -> bytes)
    requires IsFile(lines, users, names, order, outs) && AllRegular(users) && DEFAULT in users && NoneCalledAll(table)
    requires forall i :: 0 <= i < |order| ==> IsName(names[order[i]])
    ensures
      var es := SaidAll(names, order, outs);
      var now := Told(INITIAL_USERS, es, hash);
      && now.Keys == users.Keys
      && ((AllGood(es) && forall k :: k in users ==> Alike(now[k], users[k], table, hash))
        <==> forall i :: 0 <= i < |order| ==>
          Returns(order[i], names[order[i]], users[order[i]], outs[i], table, hash))
  {
    hide IsSaved, SavedLine, Lower, Told, Regular, AllFormed, Alike, Returns, NoneCalledAll, IsName, Said, Split,
      ApplyAll, Base;
    var es := SaidAll(names, order, outs);
    forall i | 0 <= i < |order| ensures es[i] == Entry(names[order[i]], Split(outs[i])) {
      SaidAsWritten(names[order[i]], outs[i]);
    }
    forall i | 0 <= i < |order|
      ensures Returns(order[i], names[order[i]], users[order[i]], outs[i], table, hash) <==>
        && AllFormed(es[i].rules)
        && Alike(ApplyAll(Base(INITIAL_USERS, order[i]), es[i].rules, hash), users[order[i]], table, hash)
    {
      ReturnsMeans(order[i], names[order[i]], users[order[i]], outs[i], table, hash);
    }
    ToldByName(users, names, lines, order, outs, es, hash);
    if AllGood(es) {
      forall k | k in users ensures k in order {
      }
    } else {
      NotAllGood(es);
    }
  }

  const A_B: bytes := [97, 32, 98] // "a b"

  /**
   A user whose only rule was "~a b", a pattern with a blank: its line is read as "~a" and "b", which is no rule.
   Loading ends there, and no user of a later line comes back.
   */
  lemma BlankLosesUsers(out: seq<bytes>, later: seq<bytes>, hash: bytes -> bytes)
    requires IsSaved(out, FRESH_PERMS.(keyPatterns := [A_B]))
    ensures ApplyAll(FRESH_PERMS, [[TILDE] + A_B], hash) == FRESH_PERMS.(keyPatterns := [A_B])
    ensures
      var r := LoadLines(INITIAL_USERS, [SavedLine([97], out)] + later, hash);
      !r.ok && r.users.Keys == {DEFAULT, [97]}
  {
    OneRule(hash);
    OnlyForm(FRESH_PERMS.(keyPatterns := [A_B]), out);
    TwoRules(out);
    hide ApplyAll, SavedLine, IsSaved, Split, Lower, AllFormed;
    StopsAtOnce([97], out, later, hash);
    assert Lower([97]) == [97];
  }

  /** A rule that is read as a malformed one ends the loading. */
  lemma StopsAtOnce(name: bytes, out: seq<bytes>, later: seq<bytes>, hash: bytes -> bytes)
    requires IsName(name) && Split(out) != [] && !AllFormed(Split(out))
    ensures LoadLines(INITIAL_USERS, [SavedLine(name, out)] + later, hash)
      == Loaded(SetUser(INITIAL_USERS, name, Split(out), hash), false)
  {
    hide ApplyAll, SavedLine, Split, Lower, ReadLine, AllFormed, SetUser, IsName;
    LineIsSaid(name, out);
    SaidAsWritten(name, out);
    var lines := [SavedLine(name, out)] + later;
    assert lines[0] == SavedLine(name, out);
  }

  lemma OneRule(hash: bytes -> bytes)
    ensures ApplyAll(FRESH_PERMS, [[TILDE] + A_B], hash) == FRESH_PERMS.(keyPatterns := [A_B])
  {
    var raw := [TILDE] + A_B;
    assert raw[1..] == A_B && WordOf(raw) == NotAWord;
    ApplyOne(FRESH_PERMS, [raw], hash);
    assert Rule(FRESH_PERMS, raw, hash) == PatternRule(FRESH_PERMS, true, A_B);
    assert [] + [A_B] == [A_B];
  }

  lemma OnlyForm(p: Perms, out: seq<bytes>)
    requires IsSaved(out, p) && p == FRESH_PERMS.(keyPatterns := [A_B])
    ensures out == [ON, [TILDE] + A_B]
  {
    var ac, dc, am, dm :| Lists(ac, p.allowedCats) && Lists(dc, p.deniedCats)
      && Lists(am, p.allowedCmds) && Lists(dm, p.deniedCmds) && out == Saved(p, ac, dc, am, dm);
    ListsNothing(ac);
    ListsNothing(dc);
    ListsNothing(am);
    ListsNothing(dm);
    assert [A_B][1..] == [] && Prefixed([TILDE], [A_B]) == [[TILDE] + A_B] + Prefixed([TILDE], []);
    assert SavedHead(p) == [ON] && SavedTail(p) == [[TILDE] + A_B];
  }

  lemma ListsNothing(xs: seq<bytes>)
    ensures Lists(xs, {}) ==> xs == []
  {
    if xs != [] {
      assert xs[0] in xs;
    }
  }

  lemma TwoRules(out: seq<bytes>)
    requires out == [ON, [TILDE] + A_B]
    ensures Split(out) == [ON, [TILDE, 97], [98]] && !AllFormed(Split(out))
  {
    hide Words.Fields, WellFormed;
    Words.FieldsOfWord(ON, Words.WHITE_SPACE);
    TwoFields();
    var rest := out[1..];
    assert rest[1..] == [];
    assert Split(out) == Words.Fields(out[0], Words.WHITE_SPACE) + Split(rest);
    assert Split(rest) == Words.Fields(rest[0], Words.WHITE_SPACE) + Split([]);
    NoSuchRule();
    assert !WellFormed(Split(out)[2]);
  }

  lemma TwoFields()
    ensures Words.Fields([TILDE] + A_B, Words.WHITE_SPACE) == [[TILDE, 97], [98]]
  {
    Words.FieldsAcross([TILDE, 97], [], SPACE, [98], Words.WHITE_SPACE);
    Words.FieldsOfWord([TILDE, 97], Words.WHITE_SPACE);
    Words.FieldsOfWord([98], Words.WHITE_SPACE);
    assert [TILDE] + A_B == [TILDE, 97] + [SPACE] + [98];
  }

  lemma NoSuchRule()
    ensures !WellFormed([98])
  {
    assert WordOf([98]) == NotAWord;
  }
}
