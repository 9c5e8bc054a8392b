/**
 What each rule means for the decisions about a user: which keys and channels pass, which commands may be run, and who
 is let in. Rules are spelled out here, and nothing is said about how a user is stored.
 */
module AclMeaning {
  import opened Bytes
  import opened Acl
  import Glob

  // ----- what can be asked about a user

  ghost predicate KeyPasses(p: Perms, key: bytes) {
    p.allKeys || exists pat :: pat in p.keyPatterns && Glob.Matches(pat, key)
  }

  ghost predicate ChannelPasses(p: Perms, channel: bytes) {
    p.allChannels || exists pat :: pat in p.channelPatterns && Glob.Matches(pat, channel)
  }

  /** The command is given in capitals. */
  predicate Runs(p: Perms, table: Table, cmd: bytes) {
    MayRun(p, table, cmd)
  }

  predicate LogsIn(p: Perms, password: bytes, hash: bytes -> bytes) {
    p.noPass || hash(password) in p.passwords
  }

  ghost predicate SameKeys(p: Perms, q: Perms) { forall k :: KeyPasses(p, k) <==> KeyPasses(q, k) }

  ghost predicate SameChannels(p: Perms, q: Perms) { forall c :: ChannelPasses(p, c) <==> ChannelPasses(q, c) }

  ghost predicate SameRuns(p: Perms, q: Perms, table: Table) { forall c :: Runs(p, table, c) <==> Runs(q, table, c) }

  ghost predicate SameLogins(p: Perms, q: Perms, hash: bytes -> bytes) {
    forall w :: LogsIn(p, w, hash) <==> LogsIn(q, w, hash)
  }

  /** A command is allowed to an enabled user who may run it, if every key and every channel passes. */
  lemma AllowsMeans(p: Perms, table: Table, cmd: bytes, keys: seq<bytes>, channels: seq<bytes>)
    ensures Allows(p, table, cmd, keys, channels) <==>
      && p.enabled && Runs(p, table, Upper(cmd))
      && (forall i :: 0 <= i < |keys| ==> KeyPasses(p, keys[i]))
      && (forall i :: 0 <= i < |channels| ==> ChannelPasses(p, channels[i]))
  {
    forall s ensures SomePatternMatches(p.keyPatterns, s) <==>
      exists pat :: pat in p.keyPatterns && Glob.Matches(pat, s)
    {
      SomeMatches(p.keyPatterns, s);
    }
    forall s ensures SomePatternMatches(p.channelPatterns, s) <==>
      exists pat :: pat in p.channelPatterns && Glob.Matches(pat, s)
    {
      SomeMatches(p.channelPatterns, s);
    }
  }

  lemma SomeMatches(ps: seq<bytes>, s: bytes)
    ensures SomePatternMatches(ps, s) <==> exists pat :: pat in ps && Glob.Matches(pat, s)
  {
    if pat :| pat in ps && Glob.Matches(pat, s) {
      var i :| 0 <= i < |ps| && ps[i] == pat;
    }
    if SomePatternMatches(ps, s) {
      var i :| 0 <= i < |ps| && Glob.Matches(ps[i], s);
      assert ps[i] in ps;
    }
  }

  /** A password is accepted for an enabled user it logs in. */
  lemma AcceptsMeans(p: Perms, password: bytes, hash: bytes -> bytes)
    ensures Accepts(p, password, hash) <==> p.enabled && LogsIn(p, password, hash)
  {
  }

  /** A new user can do nothing, and the default user everything. */
  lemma FreshAndOpen(table: Table, s: bytes, hash: bytes -> bytes)
    ensures FRESH_PERMS.enabled && OPEN_PERMS.enabled
    ensures !KeyPasses(FRESH_PERMS, s) && !ChannelPasses(FRESH_PERMS, s)
    ensures !Runs(FRESH_PERMS, table, s) && !LogsIn(FRESH_PERMS, s, hash)
    ensures KeyPasses(OPEN_PERMS, s) && ChannelPasses(OPEN_PERMS, s)
    ensures Runs(OPEN_PERMS, table, s) && LogsIn(OPEN_PERMS, s, hash)
  {
  }

  // ----- the words

  /** "on" and "off" */
  lemma OnOff(p: Perms, table: Table, hash: bytes -> bytes)
    ensures Rule(p, [111, 110], hash).enabled && !Rule(p, [111, 102, 102], hash).enabled
    ensures AlikeButEnabled(Rule(p, [111, 110], hash), p, table, hash)
    ensures AlikeButEnabled(Rule(p, [111, 102, 102], hash), p, table, hash)
  {
  }

  ghost predicate AlikeButEnabled(p: Perms, q: Perms, table: Table, hash: bytes -> bytes) {
    SameKeys(p, q) && SameChannels(p, q) && SameRuns(p, q, table) && SameLogins(p, q, hash)
  }

  /** "nopass" lets everyone in, "resetpass" nobody. */
  lemma PassWords(p: Perms, table: Table, hash: bytes -> bytes)
    ensures var q := Rule(p, [110, 111, 112, 97, 115, 115], hash);
      && (forall w :: LogsIn(q, w, hash))
      && q.enabled == p.enabled && SameKeys(p, q) && SameChannels(p, q) && SameRuns(p, q, table)
    ensures var q := Rule(p, [114, 101, 115, 101, 116, 112, 97, 115, 115], hash);
      && (forall w :: !LogsIn(q, w, hash))
      && q.enabled == p.enabled && SameKeys(p, q) && SameChannels(p, q) && SameRuns(p, q, table)
  {
    hide Glob.Matches;
  }

  /** After "resetkeys" no key passes, after "allkeys" every key. */
  lemma KeyWords(p: Perms, table: Table, hash: bytes -> bytes)
    ensures var q := Rule(p, [114, 101, 115, 101, 116, 107, 101, 121, 115], hash);
      && (forall k :: !KeyPasses(q, k))
      && q.enabled == p.enabled && SameChannels(p, q) && SameRuns(p, q, table) && SameLogins(p, q, hash)
    ensures var q := Rule(p, [97, 108, 108, 107, 101, 121, 115], hash);
      && (forall k :: KeyPasses(q, k))
      && q.enabled == p.enabled && SameChannels(p, q) && SameRuns(p, q, table) && SameLogins(p, q, hash)
  {
    hide Glob.Matches;
  }

  /** After "resetchannels" no channel passes, after "allchannels" every channel. */
  lemma ChannelWords(p: Perms, table: Table, hash: bytes -> bytes)
    ensures var q := Rule(p, [114, 101, 115, 101, 116, 99, 104, 97, 110, 110, 101, 108, 115], hash);
      && (forall c :: !ChannelPasses(q, c))
      && q.enabled == p.enabled && SameKeys(p, q) && SameRuns(p, q, table) && SameLogins(p, q, hash)
    ensures var q := Rule(p, [97, 108, 108, 99, 104, 97, 110, 110, 101, 108, 115], hash);
      && (forall c :: ChannelPasses(q, c))
      && q.enabled == p.enabled && SameKeys(p, q) && SameRuns(p, q, table) && SameLogins(p, q, hash)
  {
    hide Glob.Matches;
  }

  /** After "allcommands", and after "+@all", every command may be run but those denied. */
  lemma AllCommandsMeans(p: Perms, table: Table, hash: bytes -> bytes)
    ensures Rule(p, [97, 108, 108, 99, 111, 109, 109, 97, 110, 100, 115], hash) == Rule(p, [43, 64, 97, 108, 108], hash)
    ensures var q := Rule(p, [43, 64, 97, 108, 108], hash);
      && (forall c :: Runs(q, table, c) <==>
           c !in p.deniedCmds && forall cat :: cat in p.deniedCats && c in table ==> cat !in table[c])
      && q.enabled == p.enabled && SameKeys(p, q) && SameChannels(p, q) && SameLogins(p, q, hash)
  {
    hide Glob.Matches;
    assert [43, 64, 97, 108, 108][2..] == ALL;
  }

  /** After "nocommands", and after "-@all", none may be. */
  lemma NoCommandsMeans(p: Perms, table: Table, hash: bytes -> bytes)
    ensures Rule(p, [110, 111, 99, 111, 109, 109, 97, 110, 100, 115], hash) == Rule(p, [45, 64, 97, 108, 108], hash)
    ensures var q := Rule(p, [45, 64, 97, 108, 108], hash);
      && (forall c :: !Runs(q, table, c))
      && q.enabled == p.enabled && SameKeys(p, q) && SameChannels(p, q) && SameLogins(p, q, hash)
  {
    hide Glob.Matches;
    assert [45, 64, 97, 108, 108][2..] == ALL;
  }

  /** "reset" makes a new user of anyone. */
  lemma ResetMeans(p: Perms, hash: bytes -> bytes)
    ensures Rule(p, [114, 101, 115, 101, 116], hash) == Rule(FRESH_PERMS, [], hash)
  {
  }

  // ----- the rules with a sign

  /** "~" adds the keys that match a pattern. */
  lemma TildeMeans(p: Perms, pat: bytes, table: Table, hash: bytes -> bytes)
    ensures var q := Rule(p, [126] + pat, hash);
      && (forall k :: KeyPasses(q, k) <==> KeyPasses(p, k) || Glob.Matches(pat, k))
      && q.enabled == p.enabled && SameChannels(p, q) && SameRuns(p, q, table) && SameLogins(p, q, hash)
  {
    var raw := [126] + pat;
    WordsHaveNoSign(raw);
    assert raw[1..] == pat && Rule(p, raw, hash) == PatternRule(p, true, pat);
    if pat == [STAR] {
      forall k ensures Glob.Matches(pat, k) {
        Glob.LoneStarMatchesAll(k);
      }
    }
    hide Glob.Matches;
  }

  /** "&" adds the channels that match a pattern. */
  lemma AmpersandMeans(p: Perms, pat: bytes, table: Table, hash: bytes -> bytes)
    ensures var q := Rule(p, [38] + pat, hash);
      && (forall c :: ChannelPasses(q, c) <==> ChannelPasses(p, c) || Glob.Matches(pat, c))
      && q.enabled == p.enabled && SameKeys(p, q) && SameRuns(p, q, table) && SameLogins(p, q, hash)
  {
    var raw := [38] + pat;
    WordsHaveNoSign(raw);
    assert raw[1..] == pat && Rule(p, raw, hash) == PatternRule(p, false, pat);
    if pat == [STAR] {
      forall k ensures Glob.Matches(pat, k) {
        Glob.LoneStarMatchesAll(k);
      }
    }
    hide Glob.Matches;
  }

  /** "+" and a name lets one command be run, in whatever case it is spelled, unless a category of it is denied. */
  lemma PlusMeans(p: Perms, cmd: bytes, table: Table, hash: bytes -> bytes)
    requires cmd == [] || cmd[0] != 64
    ensures var q := Rule(p, [43] + cmd, hash);
      && (forall c :: Runs(q, table, c) <==>
           if c == Upper(cmd) then forall cat :: cat in p.deniedCats && c in table ==> cat !in table[c]
           else Runs(p, table, c))
      && q.enabled == p.enabled && SameKeys(p, q) && SameChannels(p, q) && SameLogins(p, q, hash)
  {
    var raw := [43] + cmd;
    WordsHaveNoSign(raw);
    assert raw[1..] == cmd && Rule(p, raw, hash) == CommandRule(p, true, cmd);
    hide Glob.Matches, Rule, Upper;
  }

  /** "-" and a name denies one command. */
  lemma MinusMeans(p: Perms, cmd: bytes, table: Table, hash: bytes -> bytes)
    requires cmd == [] || cmd[0] != 64
    ensures var q := Rule(p, [45] + cmd, hash);
      && (forall c :: Runs(q, table, c) <==> c != Upper(cmd) && Runs(p, table, c))
      && q.enabled == p.enabled && SameKeys(p, q) && SameChannels(p, q) && SameLogins(p, q, hash)
  {
    var raw := [45] + cmd;
    WordsHaveNoSign(raw);
    assert raw[1..] == cmd && Rule(p, raw, hash) == CommandRule(p, false, cmd);
    hide Glob.Matches, Rule, Upper;
  }

  /** "+@" and a category lets its commands be run, except those denied by themselves or another category. */
  lemma PlusCategoryMeans(p: Perms, cat: bytes, table: Table, hash: bytes -> bytes)
    requires cat != [97, 108, 108]
    ensures var q := Rule(p, [43, 64] + cat, hash);
      && (forall c :: Runs(q, table, c) <==>
           || Runs(p, table, c)
           || (c in table && Lower(cat) in table[c] && c !in p.deniedCmds && table[c] !! p.deniedCats))
      && q.enabled == p.enabled && SameKeys(p, q) && SameChannels(p, q) && SameLogins(p, q, hash)
  {
    var raw := [43, 64] + cat;
    WordsHaveNoSign(raw);
    assert raw[2..] == cat && Rule(p, raw, hash) == CategoryRule(p, true, cat);
    hide Glob.Matches, Rule, Lower;
  }

  /** "-@" and a category denies its commands. */
  lemma MinusCategoryMeans(p: Perms, cat: bytes, table: Table, hash: bytes -> bytes)
    requires cat != [97, 108, 108]
    ensures var q := Rule(p, [45, 64] + cat, hash);
      && (forall c :: Runs(q, table, c) <==> Runs(p, table, c) && !(c in table && Lower(cat) in table[c]))
      && q.enabled == p.enabled && SameKeys(p, q) && SameChannels(p, q) && SameLogins(p, q, hash)
  {
    var raw := [45, 64] + cat;
    WordsHaveNoSign(raw);
    assert raw[2..] == cat && Rule(p, raw, hash) == CategoryRule(p, false, cat);
    hide Glob.Matches, Rule, Lower;
  }

  /** ">" adds a password and "#" a digest: from then on a password is needed. */
  lemma AddingMeans(p: Perms, text: bytes, table: Table, hash: bytes -> bytes)
    ensures var q := Rule(p, [62] + text, hash);
      && (forall w :: LogsIn(q, w, hash) <==> hash(w) in p.passwords || hash(w) == hash(text))
      && q.enabled == p.enabled && SameKeys(p, q) && SameChannels(p, q) && SameRuns(p, q, table)
    ensures var q := Rule(p, [35] + text, hash);
      && (forall w :: LogsIn(q, w, hash) <==> hash(w) in p.passwords || hash(w) == Lower(text))
      && q.enabled == p.enabled && SameKeys(p, q) && SameChannels(p, q) && SameRuns(p, q, table)
  {
    var one, two := [62] + text, [35] + text;
    WordsHaveNoSign(one);
    WordsHaveNoSign(two);
    assert one[1..] == text && two[1..] == text;
    assert Rule(p, one, hash) == p.(noPass := false, passwords := AppendUnique(p.passwords, hash(text)));
    assert Rule(p, two, hash) == p.(noPass := false, passwords := AppendUnique(p.passwords, Lower(text)));
    hide Glob.Matches, Rule, Lower;
  }

  /** "<" takes a password away and "!" a digest. */
  lemma RemovingMeans(p: Perms, text: bytes, table: Table, hash: bytes -> bytes)
    ensures var q := Rule(p, [60] + text, hash);
      && (forall w :: LogsIn(q, w, hash) <==> p.noPass || (hash(w) in p.passwords && hash(w) != hash(text)))
      && q.enabled == p.enabled && SameKeys(p, q) && SameChannels(p, q) && SameRuns(p, q, table)
    ensures var q := Rule(p, [33] + text, hash);
      && (forall w :: LogsIn(q, w, hash) <==> p.noPass || (hash(w) in p.passwords && hash(w) != Lower(text)))
      && q.enabled == p.enabled && SameKeys(p, q) && SameChannels(p, q) && SameRuns(p, q, table)
  {
    var one, two := [60] + text, [33] + text;
    WordsHaveNoSign(one);
    WordsHaveNoSign(two);
    assert one[1..] == text && two[1..] == text;
    assert Rule(p, one, hash) == p.(passwords := Without(p.passwords, hash(text)));
    assert Rule(p, two, hash) == p.(passwords := Without(p.passwords, Lower(text)));
    WithoutIs(p.passwords, hash(text));
    WithoutIs(p.passwords, Lower(text));
    hide Glob.Matches, Rule, Lower;
  }

  /** Nothing else is a rule: but for the empty one, a rule is one of the words or begins with one of eight signs. */
  lemma FormedMeans(raw: bytes)
    ensures WellFormed(raw) <==>
      || raw == [] || raw[0] in {33, 35, 38, 43, 45, 60, 62, 126}
      || raw in {
           [111, 110], [111, 102, 102], [110, 111, 112, 97, 115, 115],
           [114, 101, 115, 101, 116], [114, 101, 115, 101, 116, 112, 97, 115, 115],
           [114, 101, 115, 101, 116, 107, 101, 121, 115],
           [114, 101, 115, 101, 116, 99, 104, 97, 110, 110, 101, 108, 115],
           [97, 108, 108, 99, 111, 109, 109, 97, 110, 100, 115], [110, 111, 99, 111, 109, 109, 97, 110, 100, 115],
           [97, 108, 108, 107, 101, 121, 115], [97, 108, 108, 99, 104, 97, 110, 110, 101, 108, 115]}
  {
  }
}
