/**
 * The few Python string primitives the crawler, the indexer and the chat
 * endpoint rely on: `str.isspace`, `str.split()`, `str.join`, `str.strip`,
 * `str.startswith`/`str.endswith`, a leftmost substring search and `str(n)`
 * for a natural number.  Strings are sequences of Unicode scalar values.
 */
module PyStr {
  import opened Common

  /** Python's `str.isspace()` for one character: the set `\s` matches in a str
      pattern and the separators `str.split()` and `str.strip()` use. */
  predicate IsSpace(c: char)
  {
    || c == ' '
    || ('\t' <= c <= '\r')
    || ('\U{1C}' <= c <= '\U{1F}')
    || c == '\U{85}' || c == '\U{A0}' || c == '\U{1680}'
    || ('\U{2000}' <= c <= '\U{200A}')
    || c == '\U{2028}' || c == '\U{2029}' || c == '\U{202F}'
    || c == '\U{205F}' || c == '\U{3000}'
  }

  predicate NoSpace(s: string)
  {
    forall i :: 0 <= i < |s| ==> !IsSpace(s[i])
  }

  predicate AllSpace(s: string)
  {
    forall i :: 0 <= i < |s| ==> IsSpace(s[i])
  }

  /** Neither the first nor the last character is whitespace. */
  predicate NoEdgeSpace(s: string)
  {
    s == [] || (!IsSpace(s[0]) && !IsSpace(s[|s| - 1]))
  }

  predicate StartsWith(s: string, prefix: string)
  {
    |prefix| <= |s| && s[..|prefix|] == prefix
  }

  predicate EndsWith(s: string, suffix: string)
  {
    |suffix| <= |s| && s[|s| - |suffix|..] == suffix
  }

  /** Number of occurrences of character `c` in `s`. */
  function CountChar(s: string, c: char): nat
  {
    if s == [] then 0 else (if s[0] == c then 1 else 0) + CountChar(s[1..], c)
  }

  // ---------------------------------------------------------------- split / join

  /** Length of the leading run of non-whitespace characters. */
  function TokenLength(s: string): (k: nat)
    ensures k <= |s|
    ensures forall i :: 0 <= i < k ==> !IsSpace(s[i])
    ensures k < |s| ==> IsSpace(s[k])
  {
    if s == [] || IsSpace(s[0]) then 0 else 1 + TokenLength(s[1..])
  }

  /** `s.split()`: the maximal runs of non-whitespace characters, in order. */
  function Split(s: string): (words: seq<string>)
    ensures forall i :: 0 <= i < |words| ==> words[i] != [] && NoSpace(words[i])
    decreases |s|
  {
    if s == [] then []
    else if IsSpace(s[0]) then Split(s[1..])
    else
      var k := TokenLength(s);
      [s[..k]] + Split(s[k..])
  }

  /** Every character of every word comes from the split text. */
  lemma {:induction false} SplitCharsFromText(s: string)
    ensures forall i, j :: 0 <= i < |Split(s)| && 0 <= j < |Split(s)[i]| ==> Split(s)[i][j] in s
    decreases |s|
  {
    if s != [] {
      if IsSpace(s[0]) {
        SplitCharsFromText(s[1..]);
        assert forall x :: x in s[1..] ==> x in s;
      } else {
        var k := TokenLength(s);
        SplitCharsFromText(s[k..]);
        assert forall x :: x in s[k..] ==> x in s;
        assert forall j :: 0 <= j < k ==> s[..k][j] in s;
      }
    }
  }

  /** `sep.join(parts)`. */
  function Join(sep: string, parts: seq<string>): string
  {
    if parts == [] then ""
    else if |parts| == 1 then parts[0]
    else parts[0] + sep + Join(sep, parts[1..])
  }

  /** The words a space-join is built from: nonempty and free of whitespace. */
  predicate IsWordList(words: seq<string>)
  {
    forall i :: 0 <= i < |words| ==> words[i] != [] && NoSpace(words[i])
  }

  /** Splitting a single-space join of words gives the words back. */
  lemma {:induction false} SplitJoin(words: seq<string>)
    requires IsWordList(words)
    ensures Split(Join(" ", words)) == words
    decreases |words|
  {
    if words == [] {
    } else if |words| == 1 {
      SplitOfWord(words[0], "");
      assert words[0] + "" == words[0];
    } else {
      SplitJoin(words[1..]);
      SplitJoinStep(words[0], Join(" ", words[1..]), words[1..]);
      assert [words[0]] + words[1..] == words;
    }
  }

  /** A word, a space, and text that splits into `restWords` split into the
      word followed by `restWords`. */
  lemma {:induction false} SplitJoinStep(w: string, rest: string, restWords: seq<string>)
    requires w != [] && NoSpace(w) && Split(rest) == restWords
    ensures Split(w + " " + rest) == [w] + restWords
  {
    SplitOfWord(w, " " + rest);
    assert (" " + rest)[1..] == rest;
    assert w + " " + rest == w + (" " + rest);
  }

  /** A word followed by nothing or by whitespace is split off whole. */
  lemma {:induction false} SplitOfWord(w: string, tail: string)
    requires w != [] && NoSpace(w)
    requires tail == [] || IsSpace(tail[0])
    ensures Split(w + tail) == [w] + Split(tail)
  {
    var s := w + tail;
    TokenLengthOfWord(w, tail);
    assert s[..|w|] == w && s[|w|..] == tail;
  }

  lemma {:induction false} TokenLengthOfWord(w: string, tail: string)
    requires NoSpace(w)
    requires tail == [] || IsSpace(tail[0])
    ensures TokenLength(w + tail) == |w|
    decreases |w|
  {
    if w != [] {
      assert (w + tail)[1..] == w[1..] + tail;
      TokenLengthOfWord(w[1..], tail);
    }
  }

  /** A single-space join of words has no whitespace other than the single
      spaces between the words, and none at either end. */
  lemma {:induction false} JoinIsSingleSpaced(words: seq<string>)
    requires IsWordList(words)
    ensures SingleSpaced(Join(" ", words))
    decreases |words|
  {
    if |words| > 1 {
      var rest := Join(" ", words[1..]);
      JoinIsSingleSpaced(words[1..]);
      JoinNonEmpty(words[1..]);
      var s := words[0] + " " + rest;
      assert forall i :: 0 <= i < |words[0]| ==> s[i] == words[0][i];
      forall i | 0 <= i < |s| && IsSpace(s[i])
        ensures s[i] == ' ' && 0 < i < |s| - 1 && !IsSpace(s[i - 1]) && !IsSpace(s[i + 1])
      {
        assert i >= |words[0]|;
        if i > |words[0]| {
          assert s[i] == rest[i - |words[0]| - 1];
          if i + 1 < |s| {
            assert s[i + 1] == rest[i - |words[0]|];
          }
        }
      }
    }
  }

  lemma {:induction false} JoinNonEmpty(words: seq<string>)
    requires IsWordList(words) && words != []
    ensures Join(" ", words) != [] && Join(" ", words)[0] == words[0][0]
  {
  }

  /** The only whitespace is a plain space with a non-whitespace character on
      each side: no leading, trailing or doubled spaces, no tabs or newlines. */
  predicate SingleSpaced(s: string)
  {
    forall i :: 0 <= i < |s| && IsSpace(s[i]) ==>
      s[i] == ' ' && 0 < i < |s| - 1 && !IsSpace(s[i - 1]) && !IsSpace(s[i + 1])
  }

  /** A single-spaced string is the space-join of its words. */
  lemma {:induction false} JoinSplit(s: string)
    requires SingleSpaced(s)
    ensures Join(" ", Split(s)) == s
    decreases |s|
  {
    if s != [] {
      var k := TokenLength(s);
      if k == |s| {
        assert s[..k] == s && s[k..] == [];
      } else {
        var rest := s[k + 1..];
        SingleSpacedAfterSpace(s, k);
        JoinSplit(rest);
        assert s == s[..k] + " " + rest;
        JoinSplitStep(s[..k], rest);
      }
    }
  }

  /** A word, a space, and text that is the join of its own words, is the
      join of its own words. */
  lemma {:induction false} JoinSplitStep(w: string, rest: string)
    requires w != [] && NoSpace(w)
    requires rest != [] && !IsSpace(rest[0]) && Join(" ", Split(rest)) == rest
    ensures Join(" ", Split(w + " " + rest)) == w + " " + rest
  {
    var words := Split(rest);
    SplitWordSpace(w, rest);
    assert words != [] by {
      SplitNonEmpty(rest);
    }
    JoinCons(" ", w, words);
  }

  /** A word, then a space, then the rest: the word is split off and the
      space dropped. */
  lemma {:induction false} SplitWordSpace(w: string, rest: string)
    requires w != [] && NoSpace(w)
    ensures Split(w + " " + rest) == [w] + Split(rest)
  {
    var t := " " + rest;
    SplitOfWord(w, t);
    assert w + " " + rest == w + t;
    assert t[0] == ' ' && t[1..] == rest;
  }

  /** Text that starts with a non-space character has a word. */
  lemma SplitNonEmpty(s: string)
    requires s != [] && !IsSpace(s[0])
    ensures Split(s) != []
  {
  }

  /** Joining a part in front of a non-empty list. */
  lemma JoinCons(sep: string, head: string, parts: seq<string>)
    requires parts != []
    ensures Join(sep, [head] + parts) == head + sep + Join(sep, parts)
  {
    assert ([head] + parts)[1..] == parts;
  }

  lemma {:induction false} SingleSpacedAfterSpace(s: string, k: nat)
    requires SingleSpaced(s) && k < |s| && IsSpace(s[k])
    ensures k + 1 < |s| && SingleSpaced(s[k + 1..]) && !IsSpace(s[k + 1]) && s[k] == ' '
  {
    var rest := s[k + 1..];
    forall i | 0 <= i < |rest| && IsSpace(rest[i])
      ensures rest[i] == ' ' && 0 < i < |rest| - 1 && !IsSpace(rest[i - 1]) && !IsSpace(rest[i + 1])
    {
      assert rest[i] == s[k + 1 + i];
      assert i + 1 < |rest| ==> rest[i + 1] == s[k + 2 + i];
      assert i > 0 ==> rest[i - 1] == s[k + i];
    }
  }

  /** The number of spaces in a space-join is one less than the number of words. */
  lemma {:induction false} CountSpacesOfJoin(words: seq<string>)
    requires IsWordList(words) && words != []
    ensures CountChar(Join(" ", words), ' ') + 1 == |words|
    decreases |words|
  {
    NoSpaceCount(words[0]);
    if |words| > 1 {
      var rest := Join(" ", words[1..]);
      CountSpacesOfJoin(words[1..]);
      assert Join(" ", words) == words[0] + (" " + rest);
      CountCharAppend(words[0], " " + rest, ' ');
      assert (" " + rest)[1..] == rest;
    }
  }

  lemma {:induction false} NoSpaceCount(w: string)
    requires NoSpace(w)
    ensures CountChar(w, ' ') == 0
    decreases |w|
  {
    if w != [] {
      NoSpaceCount(w[1..]);
    }
  }

  lemma {:induction false} CountCharAppend(a: string, b: string, c: char)
    ensures CountChar(a + b, c) == CountChar(a, c) + CountChar(b, c)
    decreases |a|
  {
    if a != [] {
      assert (a + b)[1..] == a[1..] + b;
      CountCharAppend(a[1..], b, c);
    } else {
      assert a + b == b;
    }
  }

  /** A string splits into no words exactly when it is all whitespace. */
  lemma {:induction false} SplitEmptyIff(s: string)
    ensures Split(s) == [] <==> AllSpace(s)
    decreases |s|
  {
    if s != [] && IsSpace(s[0]) {
      SplitEmptyIff(s[1..]);
      assert AllSpace(s) <==> AllSpace(s[1..]) by {
        assert forall i :: 0 <= i < |s[1..]| ==> s[1..][i] == s[i + 1];
      }
    }
  }

  /** `s.split(c)` for a one-character separator `c`: the pieces between the
      occurrences of `c`, one more than there are separators. */
  function SplitOnChar(s: string, c: char): (parts: seq<string>)
    ensures forall i :: 0 <= i < |parts| ==> c !in parts[i]
    decreases |s|
  {
    if c !in s then [s]
    else
      var i := CharIndex(s, c);
      [s[..i]] + SplitOnChar(s[i + 1..], c)
  }

  /** The position of the first occurrence of `c` in `s`. */
  function CharIndex(s: string, c: char): (i: nat)
    requires c in s
    ensures i < |s| && s[i] == c && c !in s[..i]
  {
    if s[0] == c then 0
    else
      assert c in s[1..] by {
        assert s == [s[0]] + s[1..];
      }
      var i := CharIndex(s[1..], c) + 1;
      assert s[..i] == [s[0]] + s[1..][..i - 1];
      i
  }

  /** There is one more piece than there are separators. */
  lemma {:induction false} SplitOnCharCount(s: string, c: char)
    ensures |SplitOnChar(s, c)| == CountChar(s, c) + 1
    decreases |s|
  {
    if c !in s {
      NoCharCount(s, c);
    } else {
      var i := CharIndex(s, c);
      SplitOnCharCount(s[i + 1..], c);
      CountCharAppend(s[..i], s[i..], c);
      NoCharCount(s[..i], c);
      assert s[..i] + s[i..] == s;
      assert s[i..] == [c] + s[i + 1..];
    }
  }

  /** A string without `c` counts no `c`. */
  lemma {:induction false} NoCharCount(s: string, c: char)
    requires c !in s
    ensures CountChar(s, c) == 0
    decreases |s|
  {
    if s != [] {
      NoCharCount(s[1..], c);
    }
  }

  /** Splitting at the first separator: what comes before it is one piece. */
  lemma SplitOnCharAfter(a: string, c: char, b: string)
    requires c !in a
    ensures SplitOnChar(a + [c] + b, c) == [a] + SplitOnChar(b, c)
  {
    var s := a + [c] + b;
    assert s[|a|] == c;
    var i := CharIndex(s, c);
    assert i == |a|;
    assert s[..i] == a && s[i + 1..] == b;
  }

  /** A string without the separator is a single piece. */
  lemma SplitOnCharNone(a: string, c: char)
    requires c !in a
    ensures SplitOnChar(a, c) == [a]
  {
  }

  // ---------------------------------------------------------------- strip

  /** `s.lstrip()`. */
  function StripLeft(s: string): (r: string)
    ensures |r| <= |s| && r == s[|s| - |r|..]
    ensures r == [] || !IsSpace(r[0])
    ensures forall i :: 0 <= i < |s| - |r| ==> IsSpace(s[i])
    decreases |s|
  {
    if s != [] && IsSpace(s[0]) then StripLeft(s[1..]) else s
  }

  /** `s.rstrip()`. */
  function StripRight(s: string): (r: string)
    ensures |r| <= |s| && r == s[..|r|]
    ensures r == [] || !IsSpace(r[|r| - 1])
    ensures forall i :: |r| <= i < |s| ==> IsSpace(s[i])
    decreases |s|
  {
    if s != [] && IsSpace(s[|s| - 1]) then StripRight(s[..|s| - 1]) else s
  }

  /** `s.strip()`: the text between the leading and the trailing whitespace. */
  function Strip(s: string): (r: string)
    ensures NoEdgeSpace(r)
    ensures |r| <= |s|
    decreases |s|
  {
    if s != [] && IsSpace(s[0]) then Strip(s[1..]) else StripRight(s)
  }

  /** Stripping both ends is stripping the left end, then the right one. */
  lemma {:induction false} StripLeftThenRight(s: string)
    ensures Strip(s) == StripRight(StripLeft(s))
    decreases |s|
  {
    if s != [] && IsSpace(s[0]) {
      StripLeftThenRight(s[1..]);
    }
  }

  /** Strip removes exactly a whitespace prefix and a whitespace suffix. */
  lemma {:induction false} StripExactly(a: string, m: string, b: string)
    requires AllSpace(a) && AllSpace(b) && NoEdgeSpace(m)
    ensures Strip(a + m + b) == m
    decreases |a|
  {
    if a != [] {
      assert (a + m + b)[0] == a[0];
      assert (a + m + b)[1..] == a[1..] + m + b;
      StripExactly(a[1..], m, b);
    } else if m != [] {
      assert a + m + b == m + b;
      assert (m + b)[0] == m[0];
      StripRightExactly(m, b);
    } else {
      assert a + m + b == b;
      StripAllSpace(b);
    }
  }

  /** rstrip removes exactly a whitespace suffix. */
  lemma {:induction false} StripRightExactly(m: string, b: string)
    requires AllSpace(b) && (m == [] || !IsSpace(m[|m| - 1]))
    ensures StripRight(m + b) == m
    decreases |b|
  {
    var s := m + b;
    if b != [] {
      assert s[|s| - 1] == b[|b| - 1];
      assert s[..|s| - 1] == m + b[..|b| - 1];
      StripRightExactly(m, b[..|b| - 1]);
    } else {
      assert s == m;
    }
  }

  /** A string of whitespace strips to nothing. */
  lemma {:induction false} StripAllSpace(b: string)
    requires AllSpace(b)
    ensures Strip(b) == []
    decreases |b|
  {
    if b != [] {
      assert IsSpace(b[0]);
      StripAllSpace(b[1..]);
    }
  }

  // ---------------------------------------------------------------- search

  /** Pattern `p` occurs in `s` starting at index `i`. */
  predicate OccursAt(s: string, p: string, i: int)
  {
    0 <= i && i + |p| <= |s| && s[i..i + |p|] == p
  }

  predicate Contains(s: string, p: string)
  {
    exists i :: 0 <= i <= |s| - |p| && OccursAt(s, p, i)
  }

  /** The leftmost occurrence of `p` at or after index `from`, as `re.search`
      and `str.find` report it. */
  function FindFrom(s: string, p: string, from: nat): (r: Option<nat>)
    requires p != []
    ensures r.Some? ==> from <= r.value && OccursAt(s, p, r.value)
    ensures r.Some? ==> forall k :: from <= k < r.value ==> !OccursAt(s, p, k)
    ensures r.None? ==> forall k :: from <= k ==> !OccursAt(s, p, k)
    decreases |s| - from
  {
    if from + |p| > |s| then None
    else if s[from..from + |p|] == p then Some(from)
    else FindFrom(s, p, from + 1)
  }

  /** No proper prefix of `p` is also a suffix of it, so two occurrences of
      `p` can never overlap. */
  predicate Borderless(p: string)
  {
    forall n :: 0 < n < |p| ==> p[..n] != p[|p| - n..]
  }

  /** In `x + p + y`, with `p` borderless and absent from `x`, the leftmost
      occurrence of `p` at or after `from` is the one right after `x`. */
  lemma {:induction false} FirstOccurrence(x: string, p: string, y: string, from: nat)
    requires p != [] && Borderless(p) && from <= |x|
    requires forall k :: from <= k ==> !OccursAt(x, p, k)
    ensures FindFrom(x + p + y, p, from) == Some(|x|)
  {
    var s := x + p + y;
    assert s[|x|..|x| + |p|] == p;
    assert OccursAt(s, p, |x|);
    forall k | from <= k < |x|
      ensures !OccursAt(s, p, k)
    {
      if k + |p| <= |x| {
        assert s[k..k + |p|] == x[k..k + |p|];
        assert !OccursAt(x, p, k);
      } else {
        var n := k + |p| - |x|;
        assert p[..n] != p[|p| - n..];
        var t :| 0 <= t < n && p[..n][t] != p[|p| - n..][t];
        assert s[|x| + t] == p[t];
        assert s[k + (|p| - n + t)] == s[|x| + t];
        assert s[k..k + |p|][|p| - n + t] != p[|p| - n + t];
      }
    }
  }

  // ---------------------------------------------------------------- str(n)

  function DigitChar(d: nat): char
    requires d < 10
  {
    ('0' as int + d) as char
  }

  /** `str(n)` for a natural number: its decimal digits. */
  function NatToString(n: nat): (s: string)
    ensures |s| >= 1
    ensures n < 10 <==> |s| == 1
    decreases n
  {
    if n < 10 then [DigitChar(n)] else NatToString(n / 10) + [DigitChar(n % 10)]
  }

  /** Distinct numbers print differently. */
  lemma {:induction false} NatToStringInjective(a: nat, b: nat)
    requires NatToString(a) == NatToString(b)
    ensures a == b
    decreases a
  {
    var s := NatToString(a);
    if a >= 10 && b >= 10 {
      assert s[|s| - 1] == DigitChar(a % 10) == DigitChar(b % 10);
      assert s[..|s| - 1] == NatToString(a / 10) == NatToString(b / 10);
      NatToStringInjective(a / 10, b / 10);
    }
  }
}
