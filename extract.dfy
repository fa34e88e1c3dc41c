/**
 * `WebScraper.extract_text_content`: the text fields kept for one page.
 * The parsed page is given as the element lists BeautifulSoup would return:
 * the `<title>` text, the `content` of `<meta name="description">`, the text
 * of every `<h1>`..`<h6>`, `<p>` and `<li>`, and the `<a href>` anchors.
 * Removing `script`, `style`, `nav`, `footer`, `header` and `aside` from the
 * tree happens after the headings are read and before the paragraphs, list
 * items and links are; an element inside such a tag carries `removed`.
 */
module PageExtractor {
  import opened Common
  import opened PyStr
  import opened TextCleaner

  /** A `<p>` or `<li>` element: its text, and whether it lies inside a tag
      that extraction removes from the tree. */
  datatype Element = Element(text: string, removed: bool)

  /** An `<a>` element: its `href` attribute, if any, and whether it lies
      inside a removed tag. */
  datatype Anchor = Anchor(href: Option<string>, removed: bool)

  /** A parsed page.  `title` is None without a `<title>`; `metaDescription`
      is None without a description `<meta>`, and "" when that tag has no
      `content`. */
  datatype Page = Page(
    title: Option<string>,
    metaDescription: Option<string>,
    headings: seq<string>,
    paragraphs: seq<Element>,
    listItems: seq<Element>,
    anchors: seq<Anchor>)

  /** The dictionary extract_text_content returns. */
  datatype TextContent = TextContent(
    title: string,
    metaDescription: string,
    headings: string,
    paragraphs: string,
    listItems: string,
    combinedText: string,
    wordCount: nat)

  /** The separator between headings and between list items. */
  const ItemSeparator := " | "

  /** Texts of the elements still in the tree once the removed tags are gone. */
  function Remaining(elems: seq<Element>): (texts: seq<string>)
    ensures |texts| <= |elems|
  {
    if elems == [] then []
    else (if elems[0].removed then [] else [elems[0].text]) + Remaining(elems[1..])
  }

  /** The cleaned, non-empty items of a list of texts, in order. */
  function CleanedItems(isWord: char -> bool, texts: seq<string>): (items: seq<string>)
    ensures |items| <= |texts|
    ensures forall i :: 0 <= i < |items| ==> items[i] != "" && IsClean(isWord, items[i])
    decreases |texts|
  {
    if texts == [] then []
    else
      var last := CleanText(isWord, Some(texts[|texts| - 1]));
      CleanedItems(isWord, texts[..|texts| - 1]) + (if last == "" then [] else [last])
  }

  /** The five fields combined_text is built from. */
  function CombinedFields(title: string, meta: string, headings: string, paragraphs: string, listItems: string): seq<string>
  {
    [title, meta, headings, paragraphs, listItems]
  }

  /** What extract_text_content returns for a page. */
  function TextContentOf(isWord: char -> bool, page: Page): TextContent
  {
    var title := CleanText(isWord, page.title);
    var meta := CleanText(isWord, page.metaDescription);
    var headings := Join(ItemSeparator, CleanedItems(isWord, page.headings));
    var paragraphs := Join(" ", CleanedItems(isWord, Remaining(page.paragraphs)));
    var listItems := Join(ItemSeparator, CleanedItems(isWord, Remaining(page.listItems)));
    var combined := CleanText(isWord, Some(Join(" ", CombinedFields(title, meta, headings, paragraphs, listItems))));
    TextContent(title, meta, headings, paragraphs, listItems, combined, |Split(combined)|)
  }

  /** The loop that cleans each text and keeps the non-empty results. */
  method CleanEach(isWord: char -> bool, texts: seq<string>) returns (items: seq<string>)
    ensures items == CleanedItems(isWord, texts)
  {
    items := [];
    for i := 0 to |texts|
      invariant items == CleanedItems(isWord, texts[..i])
    {
      var cleaned := CleanText(isWord, Some(texts[i]));
      assert texts[..i + 1][..i] == texts[..i];
      if cleaned != "" {
        items := items + [cleaned];
      }
    }
    assert texts[..|texts|] == texts;
  }

  /** `extract_text_content(soup)`. */
  method ExtractTextContent(isWord: char -> bool, page: Page) returns (content: TextContent)
    ensures content == TextContentOf(isWord, page)
  {
    var title := CleanText(isWord, page.title);
    var meta := CleanText(isWord, page.metaDescription);
    var headingItems := CleanEach(isWord, page.headings);
    var headings := Join(ItemSeparator, headingItems);
    var paragraphItems := CleanEach(isWord, Remaining(page.paragraphs));
    var paragraphs := Join(" ", paragraphItems);
    var listItemItems := CleanEach(isWord, Remaining(page.listItems));
    var listItems := Join(ItemSeparator, listItemItems);
    var combined := CleanText(isWord, Some(Join(" ", [title, meta, headings, paragraphs, listItems])));
    content := TextContent(title, meta, headings, paragraphs, listItems, combined, |Split(combined)|);
  }

  // ---------------------------------------------------------------- item lists

  /** Reading a " | "-joined field back: split at '|' and strip each piece. */
  function ItemsOf(s: string): seq<string>
  {
    if s == "" then [] else StripEach(SplitOnChar(s, '|'))
  }

  function StripEach(parts: seq<string>): (r: seq<string>)
    ensures |r| == |parts|
  {
    if parts == [] then [] else [Strip(parts[0])] + StripEach(parts[1..])
  }

  /** Items that survive a " | " join and can be read back: non-empty, without
      '|' and without whitespace at either end. */
  predicate Separable(items: seq<string>)
  {
    forall i :: 0 <= i < |items| ==> items[i] != "" && '|' !in items[i] && NoEdgeSpace(items[i])
  }

  /** The headings and list-item fields hold exactly the non-empty cleaned
      items: reading the field back gives them, in order. */
  lemma ItemsRoundTrip(items: seq<string>)
    requires Separable(items)
    ensures ItemsOf(Join(ItemSeparator, items)) == items
  {
    if items != [] {
      assert items[0][0] in items[0];
      assert Join(ItemSeparator, items) != "";
      ItemsAfterSpaces("", items);
      assert "" + Join(ItemSeparator, items) == Join(ItemSeparator, items);
    }
  }

  lemma {:induction false} ItemsAfterSpaces(pre: string, items: seq<string>)
    requires AllSpace(pre) && '|' !in pre
    requires items != [] && Separable(items)
    ensures StripEach(SplitOnChar(pre + Join(ItemSeparator, items), '|')) == items
    decreases |items|
  {
    if |items| == 1 {
      LastItemAfterSpaces(pre, items);
    } else {
      var rest := Join(ItemSeparator, items[1..]);
      ItemsAfterSpaces(" ", items[1..]);
      FirstItemAfterSpaces(pre, items[0], rest, items[1..]);
      assert Join(ItemSeparator, items) == items[0] + ItemSeparator + rest;
      assert [items[0]] + items[1..] == items;
    }
  }

  /** The base case: a single item behind spaces is read back alone. */
  lemma {:induction false} LastItemAfterSpaces(pre: string, items: seq<string>)
    requires AllSpace(pre) && '|' !in pre
    requires |items| == 1 && Separable(items)
    ensures StripEach(SplitOnChar(pre + Join(ItemSeparator, items), '|')) == items
  {
    var whole := pre + Join(ItemSeparator, items);
    assert items == [items[0]];
    assert Strip(whole) == items[0] by {
      assert whole == pre + items[0] + "";
      StripExactly(pre, items[0], "");
    }
    assert SplitOnChar(whole, '|') == [whole] + [] by {
      SplitOnCharNone(whole, '|');
    }
    StripEachCons(whole, []);
  }

  /** The step: the first item is read back and the rest follows it. */
  lemma {:induction false} FirstItemAfterSpaces(pre: string, item: string, rest: string, restItems: seq<string>)
    requires AllSpace(pre) && '|' !in pre
    requires item != "" && '|' !in item && NoEdgeSpace(item)
    requires StripEach(SplitOnChar(" " + rest, '|')) == restItems
    ensures StripEach(SplitOnChar(pre + (item + ItemSeparator + rest), '|')) == [item] + restItems
  {
    var head := pre + item + " ";
    var tail := SplitOnChar(" " + rest, '|');
    ConcatRegroup(pre, item, rest);
    SplitOnCharAfter(head, '|', " " + rest);
    StripExactly(pre, item, " ");
    StripEachCons(head, tail);
  }

  /** StripEach works element by element. */
  lemma StripEachCons(head: string, tail: seq<string>)
    ensures StripEach([head] + tail) == [Strip(head)] + StripEach(tail)
  {
    assert ([head] + tail)[1..] == tail;
  }

  /** Regrouping the concatenations of a " | " join behind a prefix. */
  lemma ConcatRegroup(pre: string, item: string, rest: string)
    ensures pre + (item + ItemSeparator + rest) == (pre + item + " ") + ['|'] + (" " + rest)
  {
    assert ItemSeparator == " " + ['|'] + " ";
  }

  /** Clean non-empty items without '|' are separable. */
  lemma CleanItemsSeparable(isWord: char -> bool, items: seq<string>)
    requires !isWord('|')
    requires forall i :: 0 <= i < |items| ==> items[i] != "" && IsClean(isWord, items[i])
    ensures Separable(items)
  {
    forall i | 0 <= i < |items| ensures '|' !in items[i] && NoEdgeSpace(items[i]) {
      assert forall k :: 0 <= k < |items[i]| ==> Keeps(isWord, items[i][k]);
    }
  }

  /** The headings field can be read back into the page's cleaned headings,
      and the list-items field into its remaining cleaned list items. */
  lemma HeadingsAndListItemsRoundTrip(isWord: char -> bool, page: Page)
    requires !isWord('|')
    ensures ItemsOf(TextContentOf(isWord, page).headings) == CleanedItems(isWord, page.headings)
    ensures ItemsOf(TextContentOf(isWord, page).listItems) == CleanedItems(isWord, Remaining(page.listItems))
  {
    CleanItemsSeparable(isWord, CleanedItems(isWord, page.headings));
    ItemsRoundTrip(CleanedItems(isWord, page.headings));
    CleanItemsSeparable(isWord, CleanedItems(isWord, Remaining(page.listItems)));
    ItemsRoundTrip(CleanedItems(isWord, Remaining(page.listItems)));
  }

  /** With two or more headings the headings field holds a '|', while the
      combined text never does. */
  lemma BarSurvivesOnlyOutsideCombinedText(isWord: char -> bool, page: Page)
    requires !isWord('|')
    ensures |CleanedItems(isWord, page.headings)| >= 2 ==> '|' in TextContentOf(isWord, page).headings
    ensures '|' !in TextContentOf(isWord, page).combinedText
  {
    var c := TextContentOf(isWord, page);
    if |CleanedItems(isWord, page.headings)| >= 2 {
      JoinHasSeparator(CleanedItems(isWord, page.headings));
    }
    NoBarInCleanText(isWord, c.combinedText);
  }

  lemma JoinHasSeparator(items: seq<string>)
    requires |items| >= 2
    ensures '|' in Join(ItemSeparator, items)
  {
    var h := Join(ItemSeparator, items);
    assert h == items[0] + ItemSeparator + Join(ItemSeparator, items[1..]);
    assert h[|items[0]| + 1] == '|';
  }

  lemma NoBarInCleanText(isWord: char -> bool, s: string)
    requires !isWord('|') && IsClean(isWord, s)
    ensures '|' !in s
  {
    assert forall k :: 0 <= k < |s| ==> Keeps(isWord, s[k]);
  }

  // ---------------------------------------------------------------- word count

  /** The word count is the number of single spaces in the combined text plus
      one, or zero for empty text. */
  lemma WordCountBySpaces(isWord: char -> bool, page: Page)
    ensures var c := TextContentOf(isWord, page);
      c.wordCount == if c.combinedText == "" then 0 else CountChar(c.combinedText, ' ') + 1
  {
    var c := TextContentOf(isWord, page);
    JoinSplit(c.combinedText);
    var words := Split(c.combinedText);
    if words != [] {
      CountSpacesOfJoin(words);
    }
  }

  /** The page yields words exactly when one of the five fields is non-empty. */
  lemma WordCountPositiveIff(isWord: char -> bool, page: Page)
    ensures var c := TextContentOf(isWord, page);
      c.wordCount > 0 <==>
        c.title != "" || c.metaDescription != "" || c.headings != "" || c.paragraphs != "" || c.listItems != ""
  {
    var c := TextContentOf(isWord, page);
    FieldsLeadWithContent(isWord, page);
    CombinedWordsIff(isWord, c.title, c.metaDescription, c.headings, c.paragraphs, c.listItems);
  }

  lemma CombinedWordsIff(isWord: char -> bool, title: string, meta: string, headings: string, paragraphs: string, listItems: string)
    requires LeadsWithContent(isWord, title) && LeadsWithContent(isWord, meta)
    requires LeadsWithContent(isWord, headings) && LeadsWithContent(isWord, paragraphs)
    requires LeadsWithContent(isWord, listItems)
    ensures var combined := CleanText(isWord, Some(Join(" ", CombinedFields(title, meta, headings, paragraphs, listItems))));
      |Split(combined)| > 0 <==> title != "" || meta != "" || headings != "" || paragraphs != "" || listItems != ""
  {
    var fields := CombinedFields(title, meta, headings, paragraphs, listItems);
    assert forall i :: 0 <= i < 5 ==> LeadsWithContent(isWord, fields[i]);
    JoinedFieldsEmptyIff(isWord, fields);
    WordsOfClean(isWord, CleanText(isWord, Some(Join(" ", fields))));
  }

  /** A clean string has words exactly when it is non-empty. */
  lemma WordsOfClean(isWord: char -> bool, s: string)
    requires IsClean(isWord, s)
    ensures |Split(s)| > 0 <==> s != ""
  {
    LeadsWithContentOfClean(isWord, s);
    SplitEmptyIff(s);
  }

  /** Each of the five fields, when non-empty, starts with content. */
  lemma FieldsLeadWithContent(isWord: char -> bool, page: Page)
    ensures var c := TextContentOf(isWord, page);
      LeadsWithContent(isWord, c.title) && LeadsWithContent(isWord, c.metaDescription) &&
      LeadsWithContent(isWord, c.headings) && LeadsWithContent(isWord, c.paragraphs) &&
      LeadsWithContent(isWord, c.listItems)
  {
    LeadsWithContentOfClean(isWord, CleanText(isWord, page.title));
    LeadsWithContentOfClean(isWord, CleanText(isWord, page.metaDescription));
    JoinFirstChar(isWord, ItemSeparator, CleanedItems(isWord, page.headings));
    JoinFirstChar(isWord, " ", CleanedItems(isWord, Remaining(page.paragraphs)));
    JoinFirstChar(isWord, ItemSeparator, CleanedItems(isWord, Remaining(page.listItems)));
  }

  /** A non-empty string starts with a character that is neither whitespace
      nor removed by the filter. */
  predicate LeadsWithContent(isWord: char -> bool, f: string)
  {
    f != "" ==> !IsSpace(f[0]) && Keeps(isWord, f[0])
  }

  lemma LeadsWithContentOfClean(isWord: char -> bool, s: string)
    requires IsClean(isWord, s)
    ensures LeadsWithContent(isWord, s)
    ensures s != "" ==> !AllSpace(s)
  {
  }

  /** Cleaning the space-join of five fields that each lead with content gives
      "" exactly when all five are empty. */
  lemma JoinedFieldsEmptyIff(isWord: char -> bool, fields: seq<string>)
    requires |fields| == 5
    requires forall i :: 0 <= i < 5 ==> LeadsWithContent(isWord, fields[i])
    ensures CleanText(isWord, Some(Join(" ", fields))) == "" <==>
      fields[0] == "" && fields[1] == "" && fields[2] == "" && fields[3] == "" && fields[4] == ""
  {
    var t := Join(" ", fields);
    assert Join(" ", fields[4..]) == fields[4];
    assert fields[3..][1..] == fields[4..] && fields[2..][1..] == fields[3..] && fields[1..][1..] == fields[2..];
    assert Join(" ", fields[3..]) == fields[3] + " " + fields[4];
    assert Join(" ", fields[2..]) == fields[2] + " " + Join(" ", fields[3..]);
    assert Join(" ", fields[1..]) == fields[1] + " " + Join(" ", fields[2..]);
    assert t == fields[0] + " " + (fields[1] + " " + (fields[2] + " " + (fields[3] + " " + fields[4])));
    if fields[0] == "" && fields[1] == "" && fields[2] == "" && fields[3] == "" && fields[4] == "" {
      assert fields[3] + " " + fields[4] == " ";
      assert fields[2] + " " + " " == "  ";
      assert fields[1] + " " + "  " == "   ";
      assert fields[0] + " " + "   " == "    ";
      assert t == "    ";
      assert !HasContent(isWord, t);
      CleanTextEmptyIff(isWord, t);
    } else {
      var i :| 0 <= i < 5 && fields[i] != "";
      var offset := FieldOffset(fields, t, i);
      assert t[offset] == fields[i][0];
      assert LeadsWithContent(isWord, fields[i]);
      assert !IsSpace(t[offset]) && Keeps(isWord, t[offset]);
      CleanTextEmptyIff(isWord, t);
    }
  }

  /** Where the first character of a non-empty field sits in the joined text. */
  lemma FieldOffset(fields: seq<string>, t: string, i: nat) returns (offset: nat)
    requires |fields| == 5 && i < 5 && fields[i] != ""
    requires t == fields[0] + " " + (fields[1] + " " + (fields[2] + " " + (fields[3] + " " + fields[4])))
    ensures offset < |t| && t[offset] == fields[i][0]
  {
    if i == 0 {
      offset := 0;
    } else if i == 1 {
      offset := |fields[0]| + 1;
    } else if i == 2 {
      offset := |fields[0]| + |fields[1]| + 2;
    } else if i == 3 {
      offset := |fields[0]| + |fields[1]| + |fields[2]| + 3;
    } else {
      offset := |fields[0]| + |fields[1]| + |fields[2]| + |fields[3]| + 4;
    }
  }

  lemma JoinFirstChar(isWord: char -> bool, sep: string, items: seq<string>)
    requires forall i :: 0 <= i < |items| ==> items[i] != "" && IsClean(isWord, items[i])
    ensures LeadsWithContent(isWord, Join(sep, items))
  {
    if |items| > 1 {
      assert Join(sep, items) == items[0] + sep + Join(sep, items[1..]);
      assert Join(sep, items)[0] == items[0][0];
    }
  }

  /** The paragraphs field is already in clean_text's canonical form. */
  lemma ParagraphsAreClean(isWord: char -> bool, page: Page)
    ensures IsClean(isWord, TextContentOf(isWord, page).paragraphs)
  {
    var items := CleanedItems(isWord, Remaining(page.paragraphs));
    CleanJoinIsClean(isWord, items);
  }

  /** A space-join of non-empty clean strings is clean. */
  lemma {:induction false} CleanJoinIsClean(isWord: char -> bool, items: seq<string>)
    requires forall i :: 0 <= i < |items| ==> items[i] != "" && IsClean(isWord, items[i])
    ensures IsClean(isWord, Join(" ", items))
    decreases |items|
  {
    if |items| > 1 {
      CleanJoinIsClean(isWord, items[1..]);
      var a := items[0];
      var b := Join(" ", items[1..]);
      var s := a + " " + b;
      assert Join(" ", items) == s;
      JoinFirstChar(isWord, " ", items[1..]);
      assert b != "" by {
        assert |items[1..]| > 0;
        if |items[1..]| > 1 {
          assert b == items[1] + " " + Join(" ", items[1..][1..]);
        }
      }
      forall k | 0 <= k < |s| ensures Keeps(isWord, s[k]) {
        if k < |a| {
          assert s[k] == a[k];
        } else if k > |a| {
          assert s[k] == b[k - |a| - 1];
        }
      }
      forall k | 0 <= k < |s| && IsSpace(s[k])
        ensures s[k] == ' ' && 0 < k < |s| - 1 && !IsSpace(s[k - 1]) && !IsSpace(s[k + 1])
      {
        if k < |a| {
          assert s[k] == a[k];
          assert k > 0 && k < |a| - 1;
          assert s[k - 1] == a[k - 1] && s[k + 1] == a[k + 1];
        } else if k > |a| {
          assert s[k] == b[k - |a| - 1];
          assert s[k - 1] == b[k - |a| - 2] by { assert k - |a| - 1 > 0; }
          assert s[k + 1] == b[k - |a|];
        } else {
          assert s[k - 1] == a[|a| - 1];
          assert s[k + 1] == b[0];
        }
      }
    }
  }
}
