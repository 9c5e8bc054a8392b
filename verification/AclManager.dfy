/**
 The users as objects that rules change in place, with the loops that apply rules, decide, and write a user out.
 Each is proved against module Acl, where the properties of rules, decisions and saved lists are.
 */
module AclManager {
  import opened Bytes
  import opened Acl
  import opened AclFile
  import Glob

  // ----- lists of strings

  method Append(xs: seq<bytes>, v: bytes) returns (r: seq<bytes>)
    ensures r == AppendUnique(xs, v)
  {
    for i := 0 to |xs|
      invariant v !in xs[..i]
    {
      if xs[i] == v {
        return xs;
      }
    }
    assert xs[..|xs|] == xs;
    return xs + [v];
  }

  lemma WithoutStep(xs: seq<bytes>, i: nat, v: bytes)
    requires i < |xs|
    ensures Without(xs[i..], v) == (if xs[i] == v then [] else [xs[i]]) + Without(xs[i + 1..], v)
  {
    assert xs[i..][1..] == xs[i + 1..];
  }

  method Remove(xs: seq<bytes>, v: bytes) returns (r: seq<bytes>)
    ensures r == Without(xs, v)
  {
    hide Without;
    r := [];
    assert xs[0..] == xs && r + Without(xs, v) == Without(xs, v);
    for i := 0 to |xs|
      invariant r + Without(xs[i..], v) == Without(xs, v)
    {
      WithoutStep(xs, i, v);
      assert r + ([xs[i]] + Without(xs[i + 1..], v)) == (r + [xs[i]]) + Without(xs[i + 1..], v);
      if xs[i] != v {
        r := r + [xs[i]];
      }
    }
    WithoutNothing(v);
    assert xs[|xs|..] == [];
  }

  lemma WithoutNothing(v: bytes)
    ensures Without([], v) == []
  {
  }

  lemma {:induction false} PrefixedAppend(prefix: bytes, xs: seq<bytes>, x: bytes)
    ensures Prefixed(prefix, xs + [x]) == Prefixed(prefix, xs) + [prefix + x]
    decreases |xs|
  {
    if xs == [] {
      assert xs + [x] == [x] && [x][1..] == [];
    } else {
      assert (xs + [x])[1..] == xs[1..] + [x];
      PrefixedAppend(prefix, xs[1..], x);
    }
  }

  lemma EmptyGroup(prefix: bytes)
    ensures Prefixed(prefix, []) == [] && LowerAll([]) == []
  {
  }

  lemma {:induction false} LowerAllAppend(xs: seq<bytes>, x: bytes)
    ensures LowerAll(xs + [x]) == LowerAll(xs) + [Lower(x)]
    decreases |xs|
  {
    hide Lower;
    if xs == [] {
      assert xs + [x] == [x] && [x][1..] == [];
    } else {
      assert (xs + [x])[1..] == xs[1..] + [x];
      LowerAllAppend(xs[1..], x);
    }
  }

  /** Append a rule for each member of a set, in whatever order they come. */
  method Walk(out: seq<bytes>, prefix: bytes, s: set<bytes>, lower: bool)
    returns (r: seq<bytes>, ghost order: seq<bytes>)
    ensures Lists(order, s)
    ensures r == out + Prefixed(prefix, if lower then LowerAll(order) else order)
  {
    hide Lower, Prefixed, LowerAll;
    EmptyGroup(prefix);
    r, order := out, [];
    var todo := s;
    assert r == out + [];
    while todo != {}
      invariant todo <= s && Unique(order) && forall x :: x in order <==> x in s && x !in todo
      invariant r == out + Prefixed(prefix, if lower then LowerAll(order) else order)
      decreases |todo|
    {
      var x :| x in todo;
      PrefixedAppend(prefix, order, x);
      PrefixedAppend(prefix, LowerAll(order), Lower(x));
      LowerAllAppend(order, x);
      r := r + [prefix + if lower then Lower(x) else x];
      order := order + [x];
      todo := todo - {x};
    }
  }

  /** Append a rule for each element of a list. */
  method Each(out: seq<bytes>, prefix: bytes, xs: seq<bytes>) returns (r: seq<bytes>)
    ensures r == out + Prefixed(prefix, xs)
  {
    r := out;
    assert r == out + [];
    for i := 0 to |xs|
      invariant r == out + Prefixed(prefix, xs[..i])
    {
      PrefixedAppend(prefix, xs[..i], xs[i]);
      assert xs[..i + 1] == xs[..i] + [xs[i]];
      r := r + [prefix + xs[i]];
    }
    assert xs[..|xs|] == xs;
  }

  method MatchesAny(patterns: seq<bytes>, s: bytes) returns (r: bool)
    ensures r == SomePatternMatches(patterns, s)
  {
    for i := 0 to |patterns|
      invariant forall j :: 0 <= j < i ==> !Glob.Matches(patterns[j], s)
    {
      var m, steps := Glob.Match(patterns[i], s);
      if m {
        return true;
      }
    }
    return false;
  }

  // ----- a user

  class User {
    const name: bytes
    var enabled: bool
    var noPass: bool
    var passwords: seq<bytes>
    var allCommands: bool
    var allowedCmds: set<bytes>
    var deniedCmds: set<bytes>
    var allowedCats: set<bytes>
    var deniedCats: set<bytes>
    var allKeys: bool
    var keyPatterns: seq<bytes>
    var allChannels: bool
    var channelPatterns: seq<bytes>

    /** A user is made with nothing allowed, the default user with everything and no password. */
    constructor (name: bytes, open: bool)
      ensures this.name == name
      ensures View() == if open then OPEN_PERMS else FRESH_PERMS
    {
      this.name := name;
      enabled, noPass, allCommands, allKeys, allChannels := true, open, open, open, open;
      passwords, keyPatterns, channelPatterns := [], [], [];
      allowedCmds, deniedCmds, allowedCats, deniedCats := {}, {}, {}, {};
    }

    function View(): Perms
      reads this
    {
      Perms(enabled, noPass, passwords, allCommands, allowedCmds, deniedCmds, allowedCats, deniedCats, allKeys,
        keyPatterns, allChannels, channelPatterns)
    }

    /** Apply one rule. */
    method ApplyRule(raw: bytes, hash: bytes -> bytes) returns (ok: bool)
      modifies this
      ensures ok <==> WellFormed(raw)
      ensures View() == Rule(old(View()), raw, hash)
      ensures !ok ==> View() == old(View())
    {
      hide WordOf, Lower, Upper, AppendUnique, Without;
      if raw == [] {
        return true;
      }
      if WordOf(raw) != NotAWord {
        ApplyWord(WordOf(raw));
        return true;
      }
      if raw[0] in {GREATER, LESS, HASH, BANG} {
        ApplyPassword(raw, hash);
      } else if StartsAt(raw, PLUS) || StartsAt(raw, MINUS) {
        ApplyCategory(raw[0] == PLUS, raw[2..]);
      } else if raw[0] == PLUS || raw[0] == MINUS {
        ApplyCommand(raw[0] == PLUS, raw[1..]);
      } else if raw[0] == TILDE || raw[0] == AMP {
        ApplyPattern(raw[0] == TILDE, raw[1..]);
      } else {
        return false;
      }
      return true;
    }

    method ApplyWord(word: Word)
      modifies this
      ensures View() == WordRule(old(View()), word)
    {
      match word
      case On => enabled := true;
      case Off => enabled := false;
      case NoPass => noPass, passwords := true, [];
      case ResetPass => noPass, passwords := false, [];
      case ResetKeys => allKeys, keyPatterns := false, [];
      case ResetChannels => allChannels, channelPatterns := false, [];
      case Reset => Wipe();
      case AllCommands => allCommands := true;
      case NoCommands => allCommands, allowedCmds, allowedCats := false, {}, {};
      case AllKeys => allKeys := true;
      case AllChannels => allChannels := true;
      case NotAWord =>
    }

    method Wipe()
      modifies this
      ensures View() == FRESH_PERMS
    {
      enabled, noPass, passwords, allCommands := true, false, [], false;
      allowedCmds, deniedCmds, allowedCats, deniedCats := {}, {}, {}, {};
      allKeys, keyPatterns, allChannels, channelPatterns := false, [], false, [];
    }

    method ApplyPassword(raw: bytes, hash: bytes -> bytes)
      requires raw != []
      modifies this`noPass, this`passwords
      ensures View() == PasswordRule(old(View()), raw, hash)
    {
      hide Lower, AppendUnique, Without;
      if raw[0] == GREATER {
        noPass := false;
        passwords := Append(passwords, hash(raw[1..]));
      } else if raw[0] == LESS {
        passwords := Remove(passwords, hash(raw[1..]));
      } else if raw[0] == HASH {
        noPass := false;
        passwords := Append(passwords, Lower(raw[1..]));
      } else if raw[0] == BANG {
        passwords := Remove(passwords, Lower(raw[1..]));
      }
    }

    method ApplyCategory(plus: bool, cat: bytes)
      modifies this`allCommands, this`allowedCmds, this`allowedCats, this`deniedCats
      ensures View() == CategoryRule(old(View()), plus, cat)
    {
      hide Lower;
      if cat == ALL {
        allCommands := plus;
        if !plus {
          allowedCmds, allowedCats := {}, {};
        }
      } else if plus {
        allowedCats := allowedCats + {Lower(cat)};
      } else {
        deniedCats := deniedCats + {Lower(cat)};
        allowedCats := allowedCats - {Lower(cat)};
      }
    }

    method ApplyCommand(plus: bool, cmd: bytes)
      modifies this`allowedCmds, this`deniedCmds
      ensures View() == CommandRule(old(View()), plus, cmd)
    {
      hide Upper;
      if plus {
        allowedCmds := allowedCmds + {Upper(cmd)};
        deniedCmds := deniedCmds - {Upper(cmd)};
      } else {
        deniedCmds := deniedCmds + {Upper(cmd)};
        allowedCmds := allowedCmds - {Upper(cmd)};
      }
    }

    method ApplyPattern(forKeys: bool, pat: bytes)
      modifies this`allKeys, this`keyPatterns, this`allChannels, this`channelPatterns
      ensures View() == PatternRule(old(View()), forKeys, pat)
    {
      hide AppendUnique;
      if forKeys {
        if pat == [STAR] {
          allKeys := true;
        } else {
          keyPatterns := Append(keyPatterns, pat);
        }
      } else {
        if pat == [STAR] {
          allChannels := true;
        } else {
          channelPatterns := Append(channelPatterns, pat);
        }
      }
    }

    /** Whether the user may run a command on these keys and channels. */
    method Allowed(table: Table, cmd: bytes, keys: seq<bytes>, channels: seq<bytes>) returns (ok: bool)
      ensures ok == Allows(View(), table, cmd, keys, channels)
    {
      hide Upper, SomePatternMatches;
      if !enabled {
        return false;
      }
      var c := Upper(cmd);
      if c in deniedCmds {
        return false;
      }
      var cats := CategoriesFor(table, c);
      var denied := Meets(cats, deniedCats);
      if denied {
        return false;
      }
      var allowed := allCommands || c in allowedCmds;
      if !allowed {
        allowed := Meets(cats, allowedCats);
      }
      if !allowed {
        return false;
      }
      if !allKeys {
        var fit := AllMatch(keyPatterns, keys);
        if !fit {
          return false;
        }
      }
      if !allChannels {
        var fit := AllMatch(channelPatterns, channels);
        if !fit {
          return false;
        }
      }
      return true;
    }

    method Authenticated(password: bytes, hash: bytes -> bytes) returns (ok: bool)
      ensures ok == Accepts(View(), password, hash)
    {
      if !enabled {
        return false;
      }
      if noPass {
        return true;
      }
      var digest := hash(password);
      for i := 0 to |passwords|
        invariant digest !in passwords[..i]
      {
        if passwords[i] == digest {
          return true;
        }
      }
      assert passwords[..|passwords|] == passwords;
      return false;
    }

    /** The rule list to save the user as. */
    method SerializeRules() returns (out: seq<bytes>)
      ensures IsSaved(out, View())
    {
      hide SavedHead, SavedTail, Lower, Prefixed, LowerAll, Lists;
      out := SerializeHead();
      ghost var ac, dc, am, dm;
      out, ac := Walk(out, [PLUS, AT], allowedCats, false);
      out, dc := Walk(out, [MINUS, AT], deniedCats, false);
      out, am := Walk(out, [PLUS], allowedCmds, true);
      out, dm := Walk(out, [MINUS], deniedCmds, true);
      out := SerializeTail(out);
      assert out == Saved(View(), ac, dc, am, dm);
    }

    method SerializeHead() returns (out: seq<bytes>)
      ensures out == SavedHead(View())
    {
      hide Prefixed;
      out := [if enabled then ON else OFF];
      if noPass {
        out := out + [NOPASS];
      } else {
        out := Each(out, [HASH], passwords);
      }
      if allCommands {
        out := out + [[PLUS, AT] + ALL];
      }
    }

    method SerializeTail(body: seq<bytes>) returns (out: seq<bytes>)
      ensures out == body + SavedTail(View())
    {
      hide Prefixed;
      out := body;
      if allKeys {
        out := out + [[TILDE, STAR]];
      } else {
        out := Each(out, [TILDE], keyPatterns);
      }
      if allChannels {
        out := out + [[AMP, STAR]];
      } else {
        out := Each(out, [AMP], channelPatterns);
      }
    }
  }

  method Meets(cats: set<bytes>, listed: set<bytes>) returns (some: bool)
    ensures some <==> !(cats !! listed)
  {
    var todo := cats;
    while todo != {}
      invariant todo <= cats && (cats - todo) !! listed
      decreases |todo|
    {
      var c :| c in todo;
      if c in listed {
        return true;
      }
      todo := todo - {c};
    }
    return false;
  }

  method AllMatch(patterns: seq<bytes>, ss: seq<bytes>) returns (all: bool)
    ensures all <==> forall i :: 0 <= i < |ss| ==> SomePatternMatches(patterns, ss[i])
  {
    hide SomePatternMatches;
    for i := 0 to |ss|
      invariant forall j :: 0 <= j < i ==> SomePatternMatches(patterns, ss[j])
    {
      var fit := MatchesAny(patterns, ss[i]);
      if !fit {
        return false;
      }
    }
    return true;
  }

  // ----- the registry of users

  class Manager {
    const hash: bytes -> bytes
    var users: map<bytes, User>

    constructor (hash: bytes -> bytes)
      ensures Valid() && this.hash == hash && users.Keys == {DEFAULT} && users[DEFAULT].View() == OPEN_PERMS
      ensures View() == INITIAL_USERS && forall u :: u in users.Values ==> fresh(u)
    {
      this.hash := hash;
      var u := new User(DEFAULT, true);
      users := map[DEFAULT := u];
    }

    /** Users are kept under their names in lower case, and no two names share a user. */
    ghost predicate Valid()
      reads this, users.Values
    {
      && (forall n :: n in users ==> Lower(users[n].name) == n)
      && (forall m, n :: m in users && n in users && m != n ==> users[m] != users[n])
    }

    ghost function View(): Registry
      reads this, users.Values
    {
      map n | n in users :: users[n].View()
    }

    ghost function Names(): map<bytes, bytes>
      reads this, users.Values
    {
      map n | n in users :: users[n].name
    }

    /**
     Apply rules to a user, who is made if there is none of that name. On a malformed rule the earlier ones stay
     applied.
     */
    method SetUser(name: bytes, rules: seq<bytes>) returns (ok: bool)
      requires Valid()
      modifies this, users.Values
      ensures Valid() && users.Keys == old(users.Keys) + {Lower(name)}
      ensures View() == AclFile.SetUser(old(View()), name, rules, hash)
      ensures ok <==> AllFormed(rules)
      ensures Lower(name) !in old(users) ==> fresh(users[Lower(name)])
      ensures forall n :: n in old(users) ==> users[n] == old(users[n])
      ensures forall n :: n in old(users) && n != Lower(name) ==> unchanged(users[n])
    {
      hide Lower, Rule, ApplyAll, WellFormed, AclFile.SetUser;
      ghost var before := View();
      FormedIff(rules);
      ok := FindAndApply(name, rules);
      OneUserSet(before, View(), name, rules, hash);
    }

    method FindAndApply(name: bytes, rules: seq<bytes>) returns (ok: bool)
      requires Valid()
      modifies this, users.Values
      ensures Valid() && users.Keys == old(users.Keys) + {Lower(name)}
      ensures Lower(name) !in old(users) ==> fresh(users[Lower(name)])
      ensures ok <==> forall i :: 0 <= i < |rules| ==> WellFormed(rules[i])
      ensures users[Lower(name)].View() == ApplyAll(
        if Lower(name) in old(users) then old(users[Lower(name)].View()) else FRESH_PERMS, rules, hash)
      ensures forall n :: n in old(users) ==> users[n] == old(users[n])
      ensures forall n :: n in old(users) && n != Lower(name) ==> unchanged(users[n])
    {
      hide Lower, Rule, WellFormed;
      var key := Lower(name);
      LowerTwice(name);
      if key !in users {
        var made := new User(name, false);
        users := users[key := made];
      }
      var u := users[key];
      ghost var start := u.View();
      assert rules[0..] == rules;
      for i := 0 to |rules|
        invariant key in users && users[key] == u
        invariant ApplyAll(u.View(), rules[i..], hash) == ApplyAll(start, rules, hash)
        invariant forall j :: 0 <= j < i ==> WellFormed(rules[j])
        invariant users == old(users)[key := u] && forall n :: n in old(users) && n != key ==> unchanged(users[n])
      {
        assert rules[i..][0] == rules[i] && rules[i..][1..] == rules[i + 1..];
        var good := u.ApplyRule(rules[i], hash);
        if !good {
          return false;
        }
      }
      return true;
    }

    /** Sign in; no name means the default user. */
    method Authenticate(username: bytes, password: bytes) returns (u: User?)
      requires Valid()
      ensures
        var key := Lower(if username == [] then DEFAULT else username);
        u == if key in users && Accepts(users[key].View(), password, hash) then users[key] else null
    {
      var key := Lower(if username == [] then DEFAULT else username);
      if key !in users {
        return null;
      }
      var ok := users[key].Authenticated(password, hash);
      return if ok then users[key] else null;
    }

    /** The file: one line for each user, in whatever order they come. */
    method Save() returns (file: bytes, ghost lines: seq<bytes>, ghost order: seq<bytes>, ghost outs: seq<seq<bytes>>)
      requires Valid()
      ensures file == FileOf(lines) && IsFile(lines, View(), Names(), order, outs)
    {
      hide SavedLine, IsSaved, Lower, FileOf;
      file, lines, order, outs := [], [], [], [];
      NoLines();
      var todo := users.Keys;
      while todo != {}
        invariant todo <= users.Keys && |order| == |outs| == |lines| && file == FileOf(lines)
        invariant Unique(order) && forall k :: k in order <==> k in users && k !in todo
        invariant forall i :: 0 <= i < |lines| ==>
          && order[i] in users && IsSaved(outs[i], users[order[i]].View())
          && lines[i] == SavedLine(users[order[i]].name, outs[i])
        decreases |todo|
      {
        var k :| k in todo;
        var rules := users[k].SerializeRules();
        var line := SavedLine(users[k].name, rules);
        FileGrows(lines, line);
        file := file + line + [LF];
        lines, order, outs, todo := lines + [line], order + [k], outs + [rules], todo - {k};
      }
    }

    /** Read a file line by line, up to the first line with a malformed rule. */
    method Load(file: bytes) returns (ok: bool)
      requires Valid()
      modifies this, users.Values
      ensures Valid() && Loaded(View(), ok) == LoadLines(old(View()), LinesOf(file), hash)
      ensures forall n :: n in old(users) ==> n in users && users[n] == old(users[n])
    {
      hide ReadLine, Lower, AclFile.SetUser, AllFormed, LinesOf;
      ghost var start := View();
      var rest := file;
      while true
        invariant Valid() && LoadLines(View(), LinesOf(rest), hash) == LoadLines(start, LinesOf(file), hash)
        invariant forall n :: n in old(users) ==> n in users && users[n] == old(users[n])
        invariant forall n :: n in users && n !in old(users) ==> fresh(users[n])
        decreases |rest|
      {
        var line, later, end := ReadString(rest);
        ghost var lines := LinesOf(rest);
        assert lines[0] == line && lines[1..] == if end then [] else LinesOf(later);
        match ReadLine(line) {
          case Ignored =>
          case UserLine(name, rules) =>
            var good := SetUser(name, rules);
            if !good {
              return false;
            }
        }
        if end {
          return true;
        }
        rest := later;
      }
    }
  }

  /** The next line, without its line feed, and what follows it; the last line ends with the file. */
  method ReadString(file: bytes) returns (line: bytes, later: bytes, end: bool)
    ensures LinesOf(file) == [line] + if end then [] else LinesOf(later)
    ensures !end ==> |later| < |file|
  {
    var i: nat := 0;
    assert file[0..] == file;
    while i < |file| && file[i] != LF
      invariant i <= |file| && LinesOf(file) == LinesAfter(file[i..], file[..i])
    {
      assert file[i..][1..] == file[i + 1..] && file[..i] + [file[i]] == file[..i + 1];
      i := i + 1;
    }
    if i == |file| {
      return file[..i], [], true;
    }
    assert file[i..][1..] == file[i + 1..];
    return file[..i], file[i + 1..], false;
  }

  lemma NoLines()
    ensures FileOf([]) == []
  {
  }

  lemma {:induction false} FileGrows(lines: seq<bytes>, line: bytes)
    ensures FileOf(lines + [line]) == FileOf(lines) + line + [LF]
    decreases |lines|
  {
    if lines == [] {
      assert lines + [line] == [line] && [line][1..] == [];
    } else {
      assert (lines + [line])[1..] == lines[1..] + [line];
      FileGrows(lines[1..], line);
    }
  }

  lemma OneUserSet(before: Registry, after: Registry, name: bytes, rules: seq<bytes>, hash: bytes -> bytes)
    requires after.Keys == before.Keys + {Lower(name)}
    requires forall n :: n in before && n != Lower(name) ==> after[n] == before[n]
    requires after[Lower(name)]
      == ApplyAll(if Lower(name) in before then before[Lower(name)] else FRESH_PERMS, rules, hash)
    ensures after == AclFile.SetUser(before, name, rules, hash)
  {
    hide Lower, ApplyAll;
  }

  lemma FormedIff(rules: seq<bytes>)
    ensures AllFormed(rules) <==> forall i :: 0 <= i < |rules| ==> WellFormed(rules[i])
  {
  }

  /**
   A restart: a new registry reads what the old one wrote. Each user becomes what is read about him, which without
   blanks is what was written.
   */
  method Restart(m: Manager)
    returns (n: Manager, ok: bool, ghost lines: seq<bytes>, ghost order: seq<bytes>, ghost outs: seq<seq<bytes>>)
    requires m.Valid() && DEFAULT in m.View() && AllRegular(m.View())
    ensures fresh(n) && n.Valid()
    ensures IsFile(lines, m.View(), m.Names(), order, outs)
    ensures var es := Entries(LinesOf(FileOf(lines)));
      ok == AllGood(es) && n.View() == Told(INITIAL_USERS, es, m.hash)
    ensures Writable(m.View(), m.Names()) ==> ok && n.View() == RestartedAll(m.View())
  {
    hide IsFile, LoadLines, RestartedAll, AllRegular, Writable, Manager.View, Manager.Names, Manager.Valid, Entries,
      Told, AllGood, FileOf, LinesOf;
    var file;
    file, lines, order, outs := m.Save();
    RestartGives(m.View(), m.Names(), lines, order, outs, m.hash);
    n := new Manager(m.hash);
    ok := n.Load(file);
  }

  lemma LowerTwice(s: bytes)
    ensures Lower(Lower(s)) == Lower(s)
  {
    FoldTwice(s);
  }
}
