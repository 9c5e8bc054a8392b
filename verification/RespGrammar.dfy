/**
 The request language as text: which bytes are a command, and which can never become one. '*' is 42, '$' 36, a line
 ends with 13 and 10, and blanks are 9 and 32.
 */
module RespGrammar {
  import opened Bytes
  import opened Options
  import opened Decimal
  import opened RespParser
  import opened ReplyScanner
  import Words

  const EOL: bytes := [13, 10]

  /** A header line: a byte for its kind, an integer, and the end of the line. */
  ghost predicate IsHeader(t: bytes, kind: byte, num: bytes, n: int) {
    t == [kind] + num + EOL && ParseWrapping(num) == Some(n)
  }

  /** The text of one argument; a negative size stands for an empty one. */
  ghost predicate IsBulk(t: bytes, arg: bytes) {
    exists head, num, n :: BulkParts(t, arg, head, num, n)
  }

  ghost predicate BulkParts(t: bytes, arg: bytes, head: bytes, num: bytes, n: int) {
    && IsHeader(head, 36, num, n)
    && if n < 0 then arg == [] && t == head else |arg| == n && t == head + arg + EOL
  }

  /** The texts of some arguments, one after the other. */
  ghost predicate AreBulks(t: bytes, argv: Argv)
    decreases |argv|
  {
    if argv == [] then t == []
    else exists k :: 0 <= k <= |t| && IsBulk(t[..k], argv[0]) && AreBulks(t[k..], argv[1..])
  }

  /** The text of a command sent as an array; a negative count stands for no arguments. */
  ghost predicate IsArray(t: bytes, argv: Argv) {
    exists head, num, n :: ArrayParts(t, argv, head, num, n)
  }

  ghost predicate ArrayParts(t: bytes, argv: Argv, head: bytes, num: bytes, n: int) {
    && IsHeader(head, 42, num, n) && head <= t
    && if n < 0 then argv == [] && t == head else |argv| == n && AreBulks(t[|head|..], argv)
  }

  // ----- header lines

  lemma NumeralIsClean(num: bytes)
    requires ParseWrapping(num).Some?
    ensures forall i :: 0 <= i < |num| ==> num[i] != 13
  {
    var digits := Unsigned(num);
    forall i | 0 <= i < |num| ensures num[i] != 13 {
      if digits != num && i > 0 {
        assert num[i] == digits[i - 1] && IsDigit(digits[i - 1]);
      } else if digits == num {
        assert IsDigit(digits[i]);
      }
    }
  }

  /** An integer line is read exactly where a header stands. */
  lemma LineIff(b: bytes, at: nat, n: int, next: nat)
    requires 0 < at <= |b|
    ensures IntLineAt(b, at) == IntLine(n, next) <==>
      && at + 2 <= next <= |b|
      && var t := b[at - 1..next]; exists num :: IsHeader(t, t[0], num, n)
  {
    hide ParseWrapping;
    if IntLineAt(b, at) == IntLine(n, next) {
      var i := FirstCrlf(b, at).value;
      var t := b[at - 1..next];
      assert next == i + 2 && b[i] == 13 && b[i + 1] == 10;
      HeaderText(b, at, i);
      assert IsHeader(t, t[0], b[at..i], n);
    }
    if at + 2 <= next <= |b| {
      var t := b[at - 1..next];
      if num :| IsHeader(t, t[0], num, n) {
        NumeralIsClean(num);
        assert |num| == next - at - 2;
        assert num == b[at..next - 2] by {
          assert forall j :: 0 <= j < |num| ==> num[j] == t[1 + j] == b[at + j];
        }
        assert b[next - 2] == t[1 + |num|] == 13 && b[next - 1] == t[2 + |num|] == 10;
        CrlfIsFirst(b, at, next - 2);
      }
    }
  }

  lemma HeaderText(b: bytes, at: nat, i: nat)
    requires 0 < at <= i && i + 2 <= |b| && b[i] == 13 && b[i + 1] == 10
    ensures b[at - 1..i + 2] == [b[at - 1]] + b[at..i] + EOL
  {
  }

  // ----- one argument

  /** An argument is read exactly where its text stands. */
  lemma BulkIff(b: bytes, cursor: nat, arg: bytes, next: nat)
    requires cursor <= |b|
    ensures BulkAt(b, cursor) == Bulk(arg, next) <==>
      cursor <= next <= |b| && IsBulk(b[cursor..next], arg)
  {
    hide IntLineAt, IsHeader;
    if BulkAt(b, cursor) == Bulk(arg, next) {
      var line := IntLineAt(b, cursor + 1);
      LineIff(b, cursor + 1, line.value, line.next);
      var num :| IsHeader(b[cursor..line.next], b[cursor], num, line.value);
      if line.value >= 0 {
        assert b[cursor..next] == b[cursor..line.next] + arg + EOL;
      }
      assert BulkParts(b[cursor..next], arg, b[cursor..line.next], num, line.value);
    }
    if cursor <= next <= |b| && IsBulk(b[cursor..next], arg) {
      BulkRead(b, cursor, arg, next);
    }
  }

  lemma BulkRead(b: bytes, cursor: nat, arg: bytes, next: nat)
    requires cursor <= next <= |b| && IsBulk(b[cursor..next], arg)
    ensures BulkAt(b, cursor) == Bulk(arg, next)
  {
    hide IntLineAt, IsHeader;
    var t := b[cursor..next];
    var head, num, n :| BulkParts(t, arg, head, num, n);
    HeaderHasEnd(head, 36, num, n);
    var body := cursor + |head|;
    BulkPlaces(b, cursor, next, head, arg, n);
    LineIff(b, cursor + 1, n, body);
  }

  lemma BulkPlaces(b: bytes, cursor: nat, next: nat, head: bytes, arg: bytes, n: int)
    requires cursor <= next <= |b| && |head| > 0 && (n < 0 ==> b[cursor..next] == head)
    requires n >= 0 ==> |arg| == n && b[cursor..next] == head + arg + EOL
    ensures var body := cursor + |head|;
      && body <= |b| && b[cursor..body] == head && b[cursor] == head[0]
      && (n < 0 ==> next == body)
      && (n >= 0 ==>
           && next == body + n + 2 && b[body..body + n] == arg && b[body + n] == 13 && b[body + n + 1] == 10)
  {
    var t, body := b[cursor..next], cursor + |head|;
    assert t[..|head|] == head && b[cursor..body] == t[..|head|];
    if n >= 0 {
      forall j | 0 <= j < n ensures b[body + j] == arg[j] {
        assert t[|head| + j] == arg[j] && t[|head| + j] == b[cursor + (|head| + j)];
      }
      assert b[body..body + n] == arg;
      assert t[|head| + n] == 13 && t[|head| + n + 1] == 10;
    }
  }

  // ----- several arguments, and the whole command

  lemma {:induction false} BulksIff(b: bytes, cursor: nat, n: nat, argv: Argv, end: nat)
    requires cursor <= |b|
    ensures BulksAt(b, cursor, n) == Bulks(argv, end) <==>
      |argv| == n && cursor <= end <= |b| && AreBulks(b[cursor..end], argv)
    decreases n
  {
    hide BulkAt, IsBulk, AreBulks;
    if n == 0 {
      NoBulks(b, cursor, argv, end);
    } else {
      if BulksAt(b, cursor, n) == Bulks(argv, end) {
        var bulk := BulkAt(b, cursor);
        BulkIff(b, cursor, bulk.arg, bulk.next);
        assert ([bulk.arg] + argv[1..])[1..] == argv[1..];
        BulksIff(b, bulk.next, n - 1, argv[1..], end);
        OneMoreBulk(b, cursor, bulk.next, end, bulk.arg, argv[1..]);
      }
      if |argv| == n && cursor <= end <= |b| && AreBulks(b[cursor..end], argv) {
        var next := FirstBulk(b, cursor, end, argv);
        BulkIff(b, cursor, argv[0], next);
        BulksIff(b, next, n - 1, argv[1..], end);
        assert argv == [argv[0]] + argv[1..];
      }
    }
  }

  lemma NoBulks(b: bytes, cursor: nat, argv: Argv, end: nat)
    requires cursor <= |b|
    ensures argv == [] && end == cursor <==>
      |argv| == 0 && cursor <= end <= |b| && AreBulks(b[cursor..end], argv)
  {
    if argv == [] && cursor <= end <= |b| {
      assert |b[cursor..end]| == end - cursor;
    }
  }

  lemma FirstBulk(b: bytes, cursor: nat, end: nat, argv: Argv) returns (next: nat)
    requires cursor <= end <= |b| && argv != [] && AreBulks(b[cursor..end], argv)
    ensures cursor <= next <= end && IsBulk(b[cursor..next], argv[0]) && AreBulks(b[next..end], argv[1..])
  {
    hide IsBulk;
    var t := b[cursor..end];
    var m :| 0 <= m <= |t| && IsBulk(t[..m], argv[0]) && AreBulks(t[m..], argv[1..]);
    assert t[..m] == b[cursor..cursor + m] && t[m..] == b[cursor + m..end];
    next := cursor + m;
  }

  /** A command sent as an array is recognised exactly when its text stands at the front, and all of it is used. */
  lemma ArrayIff(b: bytes, argv: Argv, used: nat)
    requires b != [] && b[0] == 42
    ensures Parse(b) == Parsed(argv, used) <==> used <= |b| && IsArray(b[..used], argv)
  {
    hide IntLineAt, BulksAt, IsHeader;
    if Parse(b) == Parsed(argv, used) {
      var line := IntLineAt(b, 1);
      LineIff(b, 1, line.value, line.next);
      assert b[0..line.next] == b[..line.next];
      var num :| IsHeader(b[..line.next], 42, num, line.value);
      var t := b[..used];
      if line.value >= 0 {
        BulksIff(b, line.next, line.value, argv, used);
        assert t[line.next..] == b[line.next..used];
      }
      assert ArrayParts(t, argv, b[..line.next], num, line.value);
    }
    if used <= |b| && IsArray(b[..used], argv) {
      var t := b[..used];
      var head, num, n :| ArrayParts(t, argv, head, num, n);
      assert head == b[0..|head|] by {
        assert head == t[..|head|];
      }
      HeaderHasEnd(head, 42, num, n);
      LineIff(b, 1, n, |head|);
      if n >= 0 {
        assert t[|head|..] == b[|head|..used];
        BulksIff(b, |head|, n, argv, used);
      }
    }
  }

  lemma HeaderHasEnd(t: bytes, kind: byte, num: bytes, n: int)
    requires IsHeader(t, kind, num, n)
    ensures |t| == |num| + 3 && t[0] == kind
  {
  }

  // ----- what can never become a command

  /** A line that ought to be an integer and is none. */
  ghost predicate BadLineFollows(b: bytes, line: bytes) {
    && b != [] && [b[0]] + line + EOL <= b && ParseWrapping(line).None?
    && forall i :: 0 <= i < |line| - 1 ==> !(line[i] == 13 && line[i + 1] == 10)
  }

  lemma BadLineIff(b: bytes, at: nat)
    requires 0 < at <= |b|
    ensures IntLineAt(b, at).BadLine? <==> var t := b[at - 1..]; exists line :: BadLineFollows(t, line)
  {
    hide ParseWrapping;
    var t := b[at - 1..];
    if IntLineAt(b, at).BadLine? {
      var i := FirstCrlf(b, at).value;
      var line := b[at..i];
      FirstIsClean(b, at);
      assert [t[0]] + line + EOL == t[..|line| + 3];
      assert BadLineFollows(t, line);
    }
    if line :| BadLineFollows(t, line) {
      var i := at + |line|;
      var front := [t[0]] + line + EOL;
      assert forall j :: 0 <= j < |front| ==> t[j] == front[j];
      assert line == b[at..i] by {
        assert forall j :: 0 <= j < |line| ==> line[j] == front[1 + j] == t[1 + j] == b[at + j];
      }
      assert b[i] == t[1 + |line|] == front[1 + |line|] == 13;
      assert b[i + 1] == t[2 + |line|] == front[2 + |line|] == 10;
      forall j | at <= j < i ensures !(b[j] == CR && b[j + 1] == LF) {
        assert b[j] == line[j - at];
        if j + 1 < i {
          assert b[j + 1] == line[j + 1 - at];
        }
      }
      CrlfIsFirst(b, at, i);
    }
  }

  lemma {:induction false} FirstIsClean(b: bytes, from: nat)
    requires FirstCrlf(b, from).Some?
    ensures forall j :: from <= j < FirstCrlf(b, from).value ==> !(b[j] == 13 && b[j + 1] == 10)
    decreases |b| - from
  {
    if !(b[from] == CR && b[from + 1] == LF) {
      FirstIsClean(b, from + 1);
    }
  }

  /** What stands where an argument should and cannot be one: another kind, no size, or no line end after it. */
  ghost predicate IsNoBulk(b: bytes) {
    && b != []
    && (|| b[0] != 36
        || (exists line :: BadLineFollows(b, line))
        || (exists head, num, n :: EndsWrong(b, head, num, n)))
  }

  ghost predicate EndsWrong(b: bytes, head: bytes, num: bytes, n: int) {
    && IsHeader(head, 36, num, n) && head <= b && 0 <= n && |head| + n + 2 <= |b|
    && b[|head| + n..|head| + n + 2] != EOL
  }

  lemma BadBulkIff(b: bytes, cursor: nat)
    requires cursor <= |b|
    ensures BulkAt(b, cursor).BadBulk? <==> IsNoBulk(b[cursor..])
  {
    hide IntLineAt, BadLineFollows, EndsWrong;
    if cursor < |b| && b[cursor] == 36 {
      var t := b[cursor..];
      BadLineIff(b, cursor + 1);
      var line := IntLineAt(b, cursor + 1);
      if BulkAt(b, cursor).BadBulk? && line.IntLine? {
        WrongEnd(b, cursor, line.value, line.next);
      }
      if head, num, n :| EndsWrong(t, head, num, n) {
        EndIsWrong(b, cursor, head, num, n);
      }
    }
  }

  lemma WrongEnd(b: bytes, cursor: nat, n: int, next: nat)
    requires cursor < |b| && b[cursor] == 36 && IntLineAt(b, cursor + 1) == IntLine(n, next)
    requires n >= 0 && next + n + 2 <= |b| && !(b[next + n] == 13 && b[next + n + 1] == 10)
    ensures exists head, num :: EndsWrong(b[cursor..], head, num, n)
  {
    hide IntLineAt, IsHeader;
    var t, head := b[cursor..], b[cursor..next];
    LineIff(b, cursor + 1, n, next);
    var num :| IsHeader(head, 36, num, n);
    assert head == t[..|head|];
    var at, stop := |head| + n, next + n;
    assert t[at..at + 2] == [b[stop], b[stop + 1]];
    assert EndsWrong(t, head, num, n);
  }

  lemma EndIsWrong(b: bytes, cursor: nat, head: bytes, num: bytes, n: int)
    requires cursor < |b| && EndsWrong(b[cursor..], head, num, n)
    ensures
      var next := cursor + |head|;
      && IntLineAt(b, cursor + 1) == IntLine(n, next)
      && n >= 0 && next + n + 2 <= |b| && !(b[next + n] == 13 && b[next + n + 1] == 10)
  {
    hide IntLineAt;
    var t, next := b[cursor..], cursor + |head|;
    HeaderHasEnd(head, 36, num, n);
    hide IsHeader;
    assert head == t[..|head|] == b[cursor..next];
    LineIff(b, cursor + 1, n, next);
    assert t[|head| + n..|head| + n + 2] == [b[next + n], b[next + n + 1]];
  }

  /**
   An array can never become a command exactly when its count is no integer, or when after some of its arguments, and
   before the last of them, something else stands.
   */
  ghost predicate IsBroken(b: bytes) {
    || (exists line :: BadLineFollows(b, line))
    || (exists head, num, n, done, args :: StopsShort(b, head, num, n, done, args))
  }

  ghost predicate StopsShort(b: bytes, head: bytes, num: bytes, n: int, done: bytes, args: Argv) {
    && IsHeader(head, 42, num, n) && |args| < n && AreBulks(done, args)
    && head + done <= b && IsNoBulk(b[|head + done|..])
  }

  /** Some arguments, fewer than wanted, stand from here to place k, and something that is none there. */
  ghost predicate BadAfter(b: bytes, cursor: nat, n: nat, k: nat, args: Argv) {
    cursor <= k <= |b| && |args| < n && AreBulks(b[cursor..k], args) && IsNoBulk(b[k..])
  }

  lemma {:induction false} BadBulksIff(b: bytes, cursor: nat, n: nat)
    requires cursor <= |b|
    ensures BulksAt(b, cursor, n).Bad? <==> exists k, args :: BadAfter(b, cursor, n, k, args)
    decreases n
  {
    hide BulkAt, BadAfter;
    if n == 0 {
      NoneWanted(b, cursor);
    } else {
      var bulk := BulkAt(b, cursor);
      BadBulkIff(b, cursor);
      if IsNoBulk(b[cursor..]) {
        AtOnce(b, cursor, n);
      }
      if bulk.Bulk? {
        BulkIff(b, cursor, bulk.arg, bulk.next);
        var m := n - 1;
        BadBulksIff(b, bulk.next, m);
        if k, args :| BadAfter(b, bulk.next, m, k, args) {
          BadLater(b, cursor, n, bulk.next, k, bulk.arg, args);
        }
      }
      if k, args :| BadAfter(b, cursor, n, k, args) {
        var next := FirstOf(b, cursor, n, k, args);
        if args != [] {
          BulkIff(b, cursor, args[0], next);
        }
      }
    }
  }

  lemma NoneWanted(b: bytes, cursor: nat)
    ensures forall k, args :: !BadAfter(b, cursor, 0, k, args)
  {
  }

  lemma AtOnce(b: bytes, cursor: nat, n: nat)
    requires cursor <= |b| && n > 0 && IsNoBulk(b[cursor..])
    ensures BadAfter(b, cursor, n, cursor, [])
  {
    assert b[cursor..cursor] == [];
  }

  lemma BadLater(b: bytes, cursor: nat, n: nat, next: nat, k: nat, arg: bytes, args: Argv)
    requires n > 0 && cursor <= next <= |b| && IsBulk(b[cursor..next], arg) && BadAfter(b, next, n - 1, k, args)
    ensures BadAfter(b, cursor, n, k, [arg] + args)
  {
    OneMoreBulk(b, cursor, next, k, arg, args);
  }

  lemma FirstOf(b: bytes, cursor: nat, n: nat, k: nat, args: Argv) returns (next: nat)
    requires cursor <= |b| && n > 0 && BadAfter(b, cursor, n, k, args)
    ensures args == [] ==> IsNoBulk(b[cursor..])
    ensures args != [] ==>
      cursor <= next <= |b| && IsBulk(b[cursor..next], args[0]) && BadAfter(b, next, n - 1, k, args[1..])
  {
    hide IsBulk, IsNoBulk;
    next := cursor;
    if args == [] {
      assert |b[cursor..k]| == k - cursor;
    } else {
      next := FirstBulk(b, cursor, k, args);
    }
  }

  lemma OneMoreBulk(b: bytes, cursor: nat, next: nat, k: nat, arg: bytes, args: Argv)
    requires cursor <= next <= k <= |b| && IsBulk(b[cursor..next], arg) && AreBulks(b[next..k], args)
    ensures AreBulks(b[cursor..k], [arg] + args)
  {
    hide IsBulk;
    var t, m := b[cursor..k], next - cursor;
    assert t[..m] == b[cursor..next] && t[m..] == b[next..k];
    assert ([arg] + args)[1..] == args;
  }

  lemma BrokenIff(b: bytes)
    requires b != [] && b[0] == 42
    ensures Parse(b).Malformed? <==> IsBroken(b)
  {
    hide IntLineAt, BulksAt, IsHeader, BadLineFollows, StopsShort, BadAfter;
    BadLineIff(b, 1);
    assert b[0..] == b;
    var line := IntLineAt(b, 1);
    if line.IntLine? && line.value >= 0 {
      BadBulksIff(b, line.next, line.value);
      if k, args :| BadAfter(b, line.next, line.value, k, args) {
        ShortThere(b, line.value, line.next, k, args);
      }
    }
    if head, num, n, done, args :| StopsShort(b, head, num, n, done, args) {
      ShortMeans(b, head, num, n, done, args);
      BadBulksIff(b, |head|, n);
    }
  }

  lemma ShortThere(b: bytes, n: int, next: nat, k: nat, args: Argv)
    requires b != [] && b[0] == 42 && IntLineAt(b, 1) == IntLine(n, next) && n >= 0 && BadAfter(b, next, n, k, args)
    ensures exists head, num, done :: StopsShort(b, head, num, n, done, args)
  {
    hide IntLineAt, IsHeader, IsNoBulk, AreBulks;
    LineIff(b, 1, n, next);
    var head := b[0..next];
    var num :| IsHeader(head, 42, num, n);
    Together(b, next, k);
    assert StopsShort(b, head, num, n, b[next..k], args);
  }

  lemma Together(b: bytes, i: nat, k: nat)
    requires i <= k <= |b|
    ensures b[0..i] + b[i..k] == b[..k] <= b && |b[0..i] + b[i..k]| == k
  {
  }

  lemma ShortMeans(b: bytes, head: bytes, num: bytes, n: int, done: bytes, args: Argv)
    requires b != [] && StopsShort(b, head, num, n, done, args)
    ensures n >= 0 && IntLineAt(b, 1) == IntLine(n, |head|) && BadAfter(b, |head|, n, |head + done|, args)
  {
    hide IntLineAt, IsNoBulk, AreBulks;
    HeaderHasEnd(head, 42, num, n);
    hide IsHeader;
    var k := |head + done|;
    assert head + done == b[..k];
    assert head == (head + done)[..|head|] == b[0..|head|] && done == b[|head|..k];
    LineIff(b, 1, n, |head|);
  }

  // ----- commands in a line

  /** A line without a line end in it, and these words in it. */
  ghost predicate LineParts(t: bytes, words: Argv, line: bytes) {
    && t == line + EOL && Words.AreWords(line, words, {9, 32})
    && forall i :: 0 <= i < |line| - 1 ==> !(line[i] == 13 && line[i + 1] == 10)
  }

  /** A command sent in a line is recognised exactly when all of the line is there, and is the words of the line. */
  lemma InlineIff(b: bytes, words: Argv, used: nat)
    requires b != [] && b[0] != 42
    ensures Parse(b) == Parsed(words, used) <==>
      used <= |b| && var t := b[..used]; exists line :: LineParts(t, words, line)
  {
    hide Words.Fields, Words.AreWords;
    assert BLANKS == {9, 32};
    if Parse(b) == Parsed(words, used) {
      var i := FirstCrlf(b, 0).value;
      FirstIsClean(b, 0);
      Words.FieldsIff(b[..i], words, BLANKS);
      assert b[..used] == b[..i] + EOL;
      assert LineParts(b[..used], words, b[..i]);
    }
    if used <= |b| {
      var t := b[..used];
      if line :| LineParts(t, words, line) {
        var i := |line|;
        assert line == t[..i] == b[..i] && b[i] == t[i] == 13 && b[i + 1] == t[i + 1] == 10;
        forall j | 0 <= j < i ensures !(b[j] == CR && b[j + 1] == LF) {
          assert b[j] == line[j];
          if j + 1 < i {
            assert b[j + 1] == line[j + 1];
          }
        }
        CrlfIsFirst(b, 0, i);
        Words.FieldsIff(line, words, BLANKS);
      }
    }
  }

  /** And it is never malformed. */
  lemma InlineIsNeverBroken(b: bytes)
    requires b == [] || b[0] != 42
    ensures !Parse(b).Malformed?
  {
  }

  // ----- numerals and replies, spelled out

  /** Each further digit counts for the ones, and what stands before it ten times as much. */
  lemma PlaceValue(digits: bytes, d: byte)
    requires AllDigits(digits) && 48 <= d <= 57
    ensures AllDigits(digits + [d]) && Value(digits + [d]) == 10 * Value(digits) + (d - 48) as nat && Value([]) == 0
    ensures forall c: byte :: IsDigit(c) <==> 48 <= c <= 57
  {
    var all := digits + [d];
    assert all[..|all| - 1] == digits;
  }

  /** An integer is an optional sign, 43 or 45, and at least one digit. */
  lemma NumeralIff(s: bytes)
    ensures IsNumeral(s) <==> exists sign, digits :: NumeralParts(s, sign, digits)
    ensures forall sign, digits :: NumeralParts(s, sign, digits) ==>
      Denotes(s) == if sign == [45] then -(Value(digits) as int) else Value(digits)
  {
    if IsNumeral(s) {
      assert s == (if Signed(s) then [s[0]] else []) + Unsigned(s);
      assert NumeralParts(s, if Signed(s) then [s[0]] else [], Unsigned(s));
    }
    forall sign, digits | NumeralParts(s, sign, digits) ensures Unsigned(s) == digits && IsNumeral(s) {
      if sign == [] {
        assert s == digits && IsDigit(digits[0]);
      } else {
        assert s[0] == sign[0] && s[1..] == digits;
      }
    }
  }

  predicate NumeralParts(s: bytes, sign: bytes, digits: bytes) {
    && s == sign + digits && sign in {[], [43], [45]}
    && digits != [] && forall i :: 0 <= i < |digits| ==> 48 <= digits[i] <= 57
  }

  /** Numbers are printed without a zero in front. */
  lemma {:induction false} NoZeroInFront(n: nat)
    requires n > 0
    ensures Digits(n)[0] != 48
    decreases n
  {
    if n >= 10 {
      NoZeroInFront(n / 10);
    }
  }

  /** The replies: a status, an error, an integer, a text and a list, and the two that stand for nothing. */
  lemma ReplyForms(line: bytes, n: int, body: bytes, elems: seq<Reply>)
    ensures EncodeReply(Simple(line)) == [43] + line + [13, 10]
    ensures EncodeReply(Error(line)) == [45] + line + [13, 10]
    ensures EncodeReply(Integer(n)) == [58] + Print(n) + [13, 10]
    ensures EncodeReply(BulkString(body)) == [36] + Print(|body|) + [13, 10] + body + [13, 10]
    ensures EncodeReply(Array(elems)) == [42] + Print(|elems|) + [13, 10] + EncodeReplies(elems)
  {
    hide Print, EncodeReplies;
    assert CRLF == [13, 10];
  }

  lemma NothingForms()
    ensures EncodeReply(NullBulk) == [36, 45, 49, 13, 10] && EncodeReply(NullArray) == [42, 45, 49, 13, 10]
  {
    assert Print(-1) == [45, 49];
  }

  /** A list is its elements one after the other. */
  lemma ListForm(first: Reply, others: seq<Reply>)
    ensures EncodeReplies([]) == [] && EncodeReplies([first] + others) == EncodeReply(first) + EncodeReplies(others)
  {
    hide EncodeReply;
    assert ([first] + others)[1..] == others;
  }
}
