/** Splitting a line into the words between its blanks, as the inline protocol and the saved user files do. */
module Words {
  import opened Bytes

  /** Tab, newline, vertical tab, form feed, return and space. */
  const WHITE_SPACE: set<byte> := {9, 10, 11, 12, 13, 32}

  /** A text without the white space around it. */
  function Trim(s: bytes): bytes
    decreases |s|
  {
    if s == [] then s
    else if s[0] in WHITE_SPACE then Trim(s[1..])
    else if s[|s| - 1] in WHITE_SPACE then Trim(s[..|s| - 1])
    else s
  }

  lemma {:induction false} TrimAround(pre: bytes, word: bytes, post: bytes)
    requires forall i :: 0 <= i < |pre| ==> pre[i] in {9, 10, 11, 12, 13, 32}
    requires forall i :: 0 <= i < |post| ==> post[i] in {9, 10, 11, 12, 13, 32}
    requires word != [] ==> word[0] !in {9, 10, 11, 12, 13, 32} && word[|word| - 1] !in {9, 10, 11, 12, 13, 32}
    ensures Trim(pre + word + post) == word
    decreases |pre| + |post|
  {
    var all := pre + word + post;
    if pre != [] {
      assert all[0] == pre[0] && all[1..] == pre[1..] + word + post;
      TrimAround(pre[1..], word, post);
    } else if post != [] {
      if word == [] {
        assert all[0] == post[0] && all[1..] == pre + word + post[1..];
        TrimAround(pre, word, post[1..]);
      } else {
        var n := |post| - 1;
        assert all[0] == word[0] && all[|all| - 1] == post[n] && all[..|all| - 1] == pre + word + post[..n];
        TrimAround(pre, word, post[..n]);
      }
    } else {
      assert all == word;
    }
  }

  /** The maximal blank-free runs of a line, in order. */
  function Fields(line: bytes, blanks: set<byte>): seq<bytes> {
    FieldsAfter(line, [], blanks)
  }

  function FieldsAfter(line: bytes, open: bytes, blanks: set<byte>): seq<bytes>
    decreases |line|
  {
    var closed := if open == [] then [] else [open];
    if line == [] then closed
    else if line[0] in blanks then closed + FieldsAfter(line[1..], [], blanks)
    else FieldsAfter(line[1..], open + [line[0]], blanks)
  }

  function Join(words: seq<bytes>): bytes {
    if words == [] then []
    else if |words| == 1 then words[0]
    else words[0] + [SPACE] + Join(words[1..])
  }

  /** Words that survive being joined and split: not empty, and without blanks. */
  predicate IsWord(word: bytes, blanks: set<byte>) {
    word != [] && BlankFree(word, blanks)
  }

  predicate BlankFree(word: bytes, blanks: set<byte>) {
    forall i :: 0 <= i < |word| ==> word[i] !in blanks
  }

  lemma {:induction false} FieldsEatsWord(word: bytes, rest: bytes, open: bytes, blanks: set<byte>)
    requires BlankFree(word, blanks)
    ensures FieldsAfter(word + rest, open, blanks) == FieldsAfter(rest, open + word, blanks)
    decreases |word|
  {
    if word == [] {
      assert word + rest == rest && open + word == open;
    } else {
      assert (word + rest)[1..] == word[1..] + rest;
      assert open + word == (open + [word[0]]) + word[1..];
      FieldsEatsWord(word[1..], rest, open + [word[0]], blanks);
    }
  }

  /** Splitting space-separated words gives the words back. */
  lemma {:induction false} FieldsOfJoin(words: seq<bytes>, blanks: set<byte>)
    requires SPACE in blanks && forall k :: 0 <= k < |words| ==> IsWord(words[k], blanks)
    ensures Fields(Join(words), blanks) == words
    decreases |words|
  {
    if words == [] {
    } else {
      var w, others := words[0], words[1..];
      var rest := if |words| == 1 then [] else [SPACE] + Join(others);
      assert Join(words) == w + rest;
      FieldsEatsWord(w, rest, [], blanks);
      assert [] + w == w;
      if |words| > 1 {
        assert rest[1..] == Join(others);
        FieldsOfJoin(others, blanks);
      }
      assert words == [w] + others;
    }
  }

  // ----- lines whose parts may hold blanks

  /** Whatever a line holds, its fields are words. */
  lemma {:induction false} FieldsAreWords(line: bytes, open: bytes, blanks: set<byte>)
    requires BlankFree(open, blanks)
    ensures forall i :: 0 <= i < |FieldsAfter(line, open, blanks)| ==>
        IsWord(FieldsAfter(line, open, blanks)[i], blanks)
    decreases |line|
  {
    if line == [] {
    } else if line[0] in blanks {
      FieldsAreWords(line[1..], [], blanks);
    } else {
      FieldsAreWords(line[1..], open + [line[0]], blanks);
    }
  }

  /** A blank separates. */
  lemma {:induction false} FieldsAcross(a: bytes, open: bytes, c: byte, b: bytes, blanks: set<byte>)
    requires c in blanks
    ensures FieldsAfter(a + [c] + b, open, blanks) == FieldsAfter(a, open, blanks) + Fields(b, blanks)
    decreases |a|
  {
    if a == [] {
      assert (a + [c] + b)[1..] == b;
    } else {
      assert (a + [c] + b)[1..] == a[1..] + [c] + b;
      if a[0] in blanks {
        FieldsAcross(a[1..], [], c, b, blanks);
      } else {
        FieldsAcross(a[1..], open + [a[0]], c, b, blanks);
      }
    }
  }

  /** The fields of each part in turn. */
  function FieldsOfEach(parts: seq<bytes>, blanks: set<byte>): seq<bytes> {
    if parts == [] then [] else Fields(parts[0], blanks) + FieldsOfEach(parts[1..], blanks)
  }

  /** What is joined is split again at every blank, be it within a part or between two. */
  lemma {:induction false} FieldsOfJoined(parts: seq<bytes>, blanks: set<byte>)
    requires SPACE in blanks
    ensures Fields(Join(parts), blanks) == FieldsOfEach(parts, blanks)
    decreases |parts|
  {
    if parts == [] {
    } else if |parts| == 1 {
      assert FieldsOfEach(parts[1..], blanks) == [];
    } else {
      FieldsAcross(parts[0], [], SPACE, Join(parts[1..]), blanks);
      FieldsOfJoined(parts[1..], blanks);
    }
  }

  lemma FieldsOfWord(word: bytes, blanks: set<byte>)
    requires IsWord(word, blanks)
    ensures Fields(word, blanks) == [word]
  {
    FieldsEatsWord(word, [], [], blanks);
    assert word + [] == word && [] + word == word;
  }

  lemma {:induction false} FieldsOfWords(words: seq<bytes>, blanks: set<byte>)
    requires forall i :: 0 <= i < |words| ==> IsWord(words[i], blanks)
    ensures FieldsOfEach(words, blanks) == words
    decreases |words|
  {
    if words == [] {
    } else {
      FieldsOfWord(words[0], blanks);
      FieldsOfWords(words[1..], blanks);
    }
  }

  // ----- the words of a line as a relation

  /** Blanks, a word, and then the rest, which is empty or begins with a blank. */
  ghost predicate WordAt(line: bytes, i: nat, j: nat, word: bytes, blanks: set<byte>) {
    && i < j <= |line| && (forall k :: 0 <= k < i ==> line[k] in blanks)
    && line[i..j] == word && (forall k :: i <= k < j ==> line[k] !in blanks)
    && (j == |line| || line[j] in blanks)
  }

  /** The line is these words, in order, with blanks around and between them. */
  ghost predicate AreWords(line: bytes, words: seq<bytes>, blanks: set<byte>)
    decreases |words|
  {
    if words == [] then forall k :: 0 <= k < |line| ==> line[k] in blanks
    else exists i: nat, j: nat :: WordAt(line, i, j, words[0], blanks) && AreWords(line[j..], words[1..], blanks)
  }

  lemma {:induction false} BlanksSkipped(line: bytes, i: nat, blanks: set<byte>)
    requires i <= |line| && forall k :: 0 <= k < i ==> line[k] in blanks
    ensures Fields(line, blanks) == Fields(line[i..], blanks)
    decreases i
  {
    if i == 0 {
      assert line[0..] == line;
    } else {
      BlanksSkipped(line[1..], i - 1, blanks);
      assert line[1..][i - 1..] == line[i..];
    }
  }

  lemma WordTaken(line: bytes, i: nat, j: nat, word: bytes, blanks: set<byte>)
    requires WordAt(line, i, j, word, blanks)
    ensures Fields(line, blanks) == [word] + Fields(line[j..], blanks)
  {
    BlanksSkipped(line, i, blanks);
    var rest := line[j..];
    assert line[i..] == word + rest;
    assert BlankFree(word, blanks);
    FieldsEatsWord(word, rest, [], blanks);
    assert [] + word == word;
  }

  lemma {:induction false} FirstWord(line: bytes, i: nat, blanks: set<byte>) returns (k: nat, j: nat)
    requires i <= |line| && forall m :: 0 <= m < i ==> line[m] in blanks
    ensures i <= k <= j <= |line|
    ensures k == j ==> forall m :: 0 <= m < |line| ==> line[m] in blanks
    ensures k < j ==> WordAt(line, k, j, line[k..j], blanks)
    decreases |line| - i
  {
    if i == |line| {
      return i, i;
    }
    if line[i] in blanks {
      k, j := FirstWord(line, i + 1, blanks);
    } else {
      j := WordEnd(line, i, i + 1, blanks);
      return i, j;
    }
  }

  lemma {:induction false} WordEnd(line: bytes, i: nat, from: nat, blanks: set<byte>) returns (j: nat)
    requires i < from <= |line| && forall m :: i <= m < from ==> line[m] !in blanks
    ensures from <= j <= |line| && (j == |line| || line[j] in blanks)
    ensures forall m :: i <= m < j ==> line[m] !in blanks
    decreases |line| - from
  {
    if from == |line| || line[from] in blanks {
      return from;
    }
    j := WordEnd(line, i, from + 1, blanks);
  }

  /** The fields of a line are exactly the words it consists of. */
  lemma {:induction false} FieldsIff(line: bytes, words: seq<bytes>, blanks: set<byte>)
    ensures Fields(line, blanks) == words <==> AreWords(line, words, blanks)
    decreases |line|
  {
    hide Fields;
    var k, j := FirstWord(line, 0, blanks);
    if k == j {
      AllBlank(line, blanks);
    } else {
      WordTaken(line, k, j, line[k..j], blanks);
      var rest := line[j..];
      assert line[k] !in blanks;
      if words != [] {
        FieldsIff(rest, words[1..], blanks);
        assert words == [words[0]] + words[1..];
        if AreWords(line, words, blanks) {
          var m: nat, n: nat :| WordAt(line, m, n, words[0], blanks) && AreWords(line[n..], words[1..], blanks);
          OnlyWord(line, k, j, m, n, words[0], blanks);
        }
        if Fields(line, blanks) == words {
          assert words[0] == line[k..j] && words[1..] == Fields(rest, blanks);
          assert WordAt(line, k, j, words[0], blanks) && AreWords(rest, words[1..], blanks);
        }
      }
    }
  }

  lemma AllBlank(line: bytes, blanks: set<byte>)
    requires forall m :: 0 <= m < |line| ==> line[m] in blanks
    ensures Fields(line, blanks) == [] && forall i, j, word :: !WordAt(line, i, j, word, blanks)
  {
    BlanksSkipped(line, |line|, blanks);
    assert line[|line|..] == [];
    forall i: nat, j: nat, word ensures !WordAt(line, i, j, word, blanks) {
      assert i < |line| ==> line[i] in blanks;
    }
  }

  lemma OnlyWord(line: bytes, k: nat, j: nat, m: nat, n: nat, word: bytes, blanks: set<byte>)
    requires k <= j <= |line| && WordAt(line, k, j, line[k..j], blanks) && WordAt(line, m, n, word, blanks)
    ensures k == m && j == n
  {
    var a, b := line[k] in blanks, line[m] in blanks;
    assert k == m;
    var c, d := j < |line| && line[j] in blanks, n < |line| && line[n] in blanks;
  }
}
