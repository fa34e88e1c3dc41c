/**
 * `WebScraper.clean_text`: the normaliser applied to every piece of text the
 * crawler extracts.  The text goes through, in order,
 *   1. `re.sub(r'\s+', ' ', text)`          -- CollapseWhitespace
 *   2. `re.sub(r'[^\w\s.,!?;:\-()]', '', text)` -- KeepAllowed
 *   3. the URL substitution and 4. the e-mail substitution, which can never
 *      match at that point (UrlAndEmailStepsAreDead) and so are the identity,
 *   5. `' '.join(text.split())` and 6. `text.strip()`.
 * Which characters Python's `\w` accepts depends on the Unicode database; the
 * model takes that class as a parameter `isWord`.
 */
module TextCleaner {
  import opened Common
  import opened PyStr

  /** The punctuation the character filter keeps: `. , ! ? ; : - ( )`. */
  predicate IsKeptPunctuation(c: char)
  {
    c == '.' || c == ',' || c == '!' || c == '?' || c == ';' || c == ':' || c == '-' || c == '(' || c == ')'
  }

  /** A character the filter `[^\w\s.,!?;:\-()]` leaves in place. */
  predicate Keeps(isWord: char -> bool, c: char)
  {
    isWord(c) || IsSpace(c) || IsKeptPunctuation(c)
  }

  /** The canonical form clean_text produces: only kept characters, and the
      only whitespace is a single plain space between two other characters. */
  predicate IsClean(isWord: char -> bool, s: string)
  {
    SingleSpaced(s) && forall i :: 0 <= i < |s| ==> Keeps(isWord, s[i])
  }

  /** Step 1: every maximal run of whitespace becomes one plain space. */
  function CollapseWhitespace(s: string): (r: string)
    ensures |r| <= |s|
    ensures forall i :: 0 <= i < |r| && IsSpace(r[i]) ==> r[i] == ' '
    decreases |s|
  {
    if s == [] then []
    else if IsSpace(s[0]) then
      var rest := StripLeft(s);
      assert |rest| < |s|;
      " " + CollapseWhitespace(rest)
    else [s[0]] + CollapseWhitespace(s[1..])
  }

  /** Step 2: drop every character the filter does not keep. */
  function KeepAllowed(isWord: char -> bool, s: string): (r: string)
    ensures |r| <= |s|
    ensures forall i :: 0 <= i < |r| ==> Keeps(isWord, r[i])
    ensures forall i :: 0 <= i < |r| ==> r[i] in s
    ensures (forall i :: 0 <= i < |s| ==> Keeps(isWord, s[i])) ==> r == s
    decreases |s|
  {
    if s == [] then []
    else
      var rest := KeepAllowed(isWord, s[1..]);
      assert forall x :: x in s[1..] ==> x in s;
      if Keeps(isWord, s[0]) then [s[0]] + rest else rest
  }

  /** `clean_text(text)`; `None` stands for Python's None. */
  function CleanText(isWord: char -> bool, text: Option<string>): (r: string)
    ensures IsClean(isWord, r)
    ensures text == None || text == Some("") ==> r == ""
  {
    match text
    case None => ""
    case Some(t) =>
      if t == "" then ""
      else
        var filtered := KeepAllowed(isWord, CollapseWhitespace(t));
        var words := Split(filtered);
        WordsOfFilteredText(isWord, filtered);
        JoinOfKeptWords(isWord, words);
        Strip(Join(" ", words))
  }

  /** The words of filtered text consist of kept, non-whitespace characters. */
  lemma WordsOfFilteredText(isWord: char -> bool, filtered: string)
    requires forall i :: 0 <= i < |filtered| ==> Keeps(isWord, filtered[i])
    ensures forall i, j :: 0 <= i < |Split(filtered)| && 0 <= j < |Split(filtered)[i]| ==>
      Keeps(isWord, Split(filtered)[i][j])
  {
    SplitCharsFromText(filtered);
  }

  /** A space-join of words made of kept characters is clean and is its own strip. */
  lemma JoinOfKeptWords(isWord: char -> bool, words: seq<string>)
    requires IsWordList(words)
    requires forall i, j :: 0 <= i < |words| && 0 <= j < |words[i]| ==> Keeps(isWord, words[i][j])
    ensures IsClean(isWord, Join(" ", words))
    ensures Strip(Join(" ", words)) == Join(" ", words)
  {
    JoinIsSingleSpaced(words);
    JoinKeeps(isWord, words);
    var s := Join(" ", words);
    StripExactly("", s, "");
    assert "" + s + "" == s;
  }

  lemma {:induction false} JoinKeeps(isWord: char -> bool, words: seq<string>)
    requires forall i, j :: 0 <= i < |words| && 0 <= j < |words[i]| ==> Keeps(isWord, words[i][j])
    ensures forall k :: 0 <= k < |Join(" ", words)| ==> Keeps(isWord, Join(" ", words)[k])
    decreases |words|
  {
    if |words| > 1 {
      JoinKeeps(isWord, words[1..]);
      var rest := Join(" ", words[1..]);
      var s := Join(" ", words);
      assert s == words[0] + " " + rest;
      forall k | 0 <= k < |s| ensures Keeps(isWord, s[k]) {
        if k < |words[0]| {
          assert s[k] == words[0][k];
        } else if k > |words[0]| {
          assert s[k] == rest[k - |words[0]| - 1];
        }
      }
    } else if |words| == 1 {
      assert forall k :: 0 <= k < |words[0]| ==> Keeps(isWord, words[0][k]);
    }
  }

  // ---------------------------------------------------------------- fixpoint

  /** Whitespace only as isolated plain spaces (a suffix-closed weakening of
      SingleSpaced). */
  predicate NoWhitespaceRuns(s: string)
  {
    forall i :: 0 <= i < |s| && IsSpace(s[i]) ==> s[i] == ' ' && (i + 1 < |s| ==> !IsSpace(s[i + 1]))
  }

  /** Collapsing leaves text without whitespace runs as it is. */
  lemma {:induction false} CollapseKeepsNoRuns(s: string)
    requires NoWhitespaceRuns(s)
    ensures CollapseWhitespace(s) == s
    decreases |s|
  {
    if s != [] {
      NoRunsTail(s);
      CollapseKeepsNoRuns(s[1..]);
      if IsSpace(s[0]) {
        LoneSpaceStrip(s);
        assert s == " " + s[1..];
      } else {
        assert s == [s[0]] + s[1..];
      }
    }
  }

  /** Dropping the first character keeps the text free of whitespace runs. */
  lemma NoRunsTail(s: string)
    requires s != [] && NoWhitespaceRuns(s)
    ensures NoWhitespaceRuns(s[1..])
  {
    forall i | 0 <= i < |s[1..]| && IsSpace(s[1..][i])
      ensures s[1..][i] == ' ' && (i + 1 < |s[1..]| ==> !IsSpace(s[1..][i + 1]))
    {
      assert s[1..][i] == s[i + 1];
      assert i + 1 < |s[1..]| ==> s[1..][i + 1] == s[i + 2];
    }
  }

  /** A lone leading space is all lstrip removes. */
  lemma LoneSpaceStrip(s: string)
    requires s != [] && IsSpace(s[0]) && (|s| > 1 ==> !IsSpace(s[1]))
    ensures StripLeft(s) == s[1..]
  {
    assert s[1..] == [] || !IsSpace(s[1..][0]);
  }

  /** Clean text is a fixpoint of clean_text. */
  lemma CleanTextFixpoint(isWord: char -> bool, s: string)
    requires IsClean(isWord, s)
    ensures CleanText(isWord, Some(s)) == s
  {
    if s != "" {
      assert NoWhitespaceRuns(s);
      CollapseKeepsNoRuns(s);
      assert KeepAllowed(isWord, s) == s;
      JoinSplit(s);
      var words := Split(s);
      WordsOfFilteredText(isWord, s);
      JoinOfKeptWords(isWord, words);
    }
  }

  /** The fixpoints of clean_text are exactly the clean strings. */
  lemma CleanTextFixpointIff(isWord: char -> bool, s: string)
    ensures CleanText(isWord, Some(s)) == s <==> IsClean(isWord, s)
  {
    if IsClean(isWord, s) {
      CleanTextFixpoint(isWord, s);
    }
  }

  /** Applying clean_text twice is the same as applying it once. */
  lemma CleanTextIdempotent(isWord: char -> bool, text: Option<string>)
    ensures CleanText(isWord, Some(CleanText(isWord, text))) == CleanText(isWord, text)
  {
    CleanTextFixpoint(isWord, CleanText(isWord, text));
  }

  // ---------------------------------------------------------------- emptiness

  /** The text holds a character that is neither whitespace nor filtered out. */
  predicate HasContent(isWord: char -> bool, t: string)
  {
    exists i :: 0 <= i < |t| && !IsSpace(t[i]) && Keeps(isWord, t[i])
  }

  /** clean_text returns "" exactly when every character of its input is
      whitespace or is removed by the filter. */
  lemma CleanTextEmptyIff(isWord: char -> bool, t: string)
    ensures CleanText(isWord, Some(t)) == "" <==> !HasContent(isWord, t)
  {
    if t != "" {
      var c := CollapseWhitespace(t);
      var f := KeepAllowed(isWord, c);
      var words := Split(f);
      WordsOfFilteredText(isWord, f);
      JoinOfKeptWords(isWord, words);
      assert CleanText(isWord, Some(t)) == Join(" ", words);
      SplitEmptyIff(f);
      forall k | 0 <= k < |f| && !IsSpace(f[k]) ensures HasContent(isWord, t) {
        FilteredCharFromText(isWord, t, k);
      }
      if HasContent(isWord, t) {
        var i :| 0 <= i < |t| && !IsSpace(t[i]) && Keeps(isWord, t[i]);
        CollapseKeepsNonSpace(t, i);
        var j :| 0 <= j < |c| && c[j] == t[i];
        KeepAllowedKeeps(isWord, c, j);
        var k :| 0 <= k < |f| && f[k] == t[i];
        assert !AllSpace(f);
        JoinNonEmpty(words);
      }
    }
  }

  /** A non-whitespace character of the filtered text is content of the input. */
  lemma FilteredCharFromText(isWord: char -> bool, t: string, k: nat)
    requires k < |KeepAllowed(isWord, CollapseWhitespace(t))|
    requires !IsSpace(KeepAllowed(isWord, CollapseWhitespace(t))[k])
    ensures HasContent(isWord, t)
  {
    var c := CollapseWhitespace(t);
    var f := KeepAllowed(isWord, c);
    var j :| 0 <= j < |c| && c[j] == f[k];
    CollapseAddsOnlySpaces(t, j);
    var i :| 0 <= i < |t| && t[i] == c[j];
    assert !IsSpace(t[i]) && Keeps(isWord, t[i]);
  }

  /** Collapsing whitespace keeps every non-whitespace character. */
  lemma {:induction false} CollapseKeepsNonSpace(s: string, i: nat)
    requires i < |s| && !IsSpace(s[i])
    ensures s[i] in CollapseWhitespace(s)
    decreases |s|
  {
    var r := CollapseWhitespace(s);
    if IsSpace(s[0]) {
      var rest := StripLeft(s);
      var d := |s| - |rest|;
      assert i >= d;
      assert rest[i - d] == s[i];
      CollapseKeepsNonSpace(rest, i - d);
      assert r == " " + CollapseWhitespace(rest);
    } else if i > 0 {
      assert s[1..][i - 1] == s[i];
      CollapseKeepsNonSpace(s[1..], i - 1);
      assert r == [s[0]] + CollapseWhitespace(s[1..]);
    }
  }

  /** Every non-whitespace character of the collapsed text comes from the text. */
  lemma {:induction false} CollapseAddsOnlySpaces(s: string, j: nat)
    requires j < |CollapseWhitespace(s)| && !IsSpace(CollapseWhitespace(s)[j])
    ensures CollapseWhitespace(s)[j] in s
    decreases |s|
  {
    var r := CollapseWhitespace(s);
    if IsSpace(s[0]) {
      var rest := StripLeft(s);
      assert r == " " + CollapseWhitespace(rest);
      assert j > 0;
      assert r[j] == CollapseWhitespace(rest)[j - 1];
      CollapseAddsOnlySpaces(rest, j - 1);
      assert forall x :: x in s[|s| - |rest|..] ==> x in s;
    } else if j > 0 {
      assert r == [s[0]] + CollapseWhitespace(s[1..]);
      assert r[j] == CollapseWhitespace(s[1..])[j - 1];
      CollapseAddsOnlySpaces(s[1..], j - 1);
      assert forall x :: x in s[1..] ==> x in s;
    }
  }

  /** The filter keeps every character it accepts. */
  lemma {:induction false} KeepAllowedKeeps(isWord: char -> bool, s: string, i: nat)
    requires i < |s| && Keeps(isWord, s[i])
    ensures s[i] in KeepAllowed(isWord, s)
    decreases |s|
  {
    if i > 0 {
      assert s[1..][i - 1] == s[i];
      KeepAllowedKeeps(isWord, s[1..], i - 1);
    }
  }

  // ---------------------------------------------------------------- dead steps

  /** The URL pattern `http[s]?://(...)+` needs the characters "://" in a row. */
  predicate UrlPatternCanMatch(s: string)
  {
    Contains(s, "://")
  }

  /** The e-mail pattern `\S+@\S+\.\S+` needs an '@'. */
  predicate EmailPatternCanMatch(s: string)
  {
    '@' in s
  }

  /** Steps 3 and 4 of clean_text never match: the filter of step 2 has removed
      every '/' and '@' (neither is a word character, whitespace or kept
      punctuation), so neither substitution changes the text. */
  lemma UrlAndEmailStepsAreDead(isWord: char -> bool, text: string)
    requires !isWord('/') && !isWord('@')
    ensures !UrlPatternCanMatch(KeepAllowed(isWord, CollapseWhitespace(text)))
    ensures !EmailPatternCanMatch(KeepAllowed(isWord, CollapseWhitespace(text)))
  {
    NoSlashOrAt(isWord, KeepAllowed(isWord, CollapseWhitespace(text)));
  }

  lemma NoSlashOrAt(isWord: char -> bool, f: string)
    requires !isWord('/') && !isWord('@')
    requires forall i :: 0 <= i < |f| ==> Keeps(isWord, f[i])
    ensures !UrlPatternCanMatch(f)
    ensures !EmailPatternCanMatch(f)
  {
    forall i | 0 <= i < |f| ensures f[i] != '/' && f[i] != '@' {
      assert Keeps(isWord, f[i]);
    }
    forall i | 0 <= i <= |f| - 3 ensures !OccursAt(f, "://", i) {
      assert f[i..i + 3][1] == f[i + 1];
    }
  }
}
