/** The `chat` endpoint: its guard clauses, how the retrieved passages are
    joined, and how the model's reply is cleaned of `<think>` spans. The
    retriever and the language model are oracles. */
module ChatAnswers {
  import opened Common
  import opened PyStr
  import opened Storage

  const OpenTag := "<think>"
  const CloseTag := "</think>"

  /** Retrieved passages are joined with a blank line between them. */
  const PassageSeparator := "\n\n"

  /** A span from an opening tag at `p` to a closing tag at `q` at or after
      the end of the opening one: what `<think>.*?</think>` can match, newlines
      included. */
  predicate SpanAt(s: string, p: int, q: int)
  {
    OccursAt(s, OpenTag, p) && p + |OpenTag| <= q && OccursAt(s, CloseTag, q)
  }

  predicate HasSpan(s: string)
  {
    exists p, q :: 0 <= p <= q <= |s| && SpanAt(s, p, q)
  }

  /** `re.sub(r'<think>.*?</think>', '', s, flags=re.DOTALL)`: the leftmost
      opening tag is matched with the first closing tag after it and the pair
      is removed with everything between; the scan resumes after the closing
      tag. An opening tag with no closing tag after it ends the scan, since
      no later opening tag can have one either. */
  function RemoveThinkSpans(s: string): (r: string)
    ensures |r| <= |s|
    decreases |s|
  {
    match FindFrom(s, OpenTag, 0)
    case None => s
    case Some(p) =>
      match FindFrom(s, CloseTag, p + |OpenTag|)
      case None => s
      case Some(q) => s[..p] + RemoveThinkSpans(s[q + |CloseTag|..])
  }

  lemma TagsAreBorderless()
    ensures Borderless(OpenTag) && Borderless(CloseTag)
  {
    forall n | 0 < n < |OpenTag| ensures OpenTag[..n] != OpenTag[|OpenTag| - n..] {
      assert OpenTag[..n][0] == '<' != OpenTag[|OpenTag| - n..][0];
    }
    forall n | 0 < n < |CloseTag| ensures CloseTag[..n] != CloseTag[|CloseTag| - n..] {
      assert CloseTag[..n][0] == '<' != CloseTag[|CloseTag| - n..][0];
    }
  }

  /** The text is left alone exactly when it holds no complete span. */
  lemma UnchangedIff(s: string)
    ensures RemoveThinkSpans(s) == s <==> !HasSpan(s)
  {
    if HasSpan(s) {
      var p, q :| 0 <= p <= q <= |s| && SpanAt(s, p, q);
      var open := FindFrom(s, OpenTag, 0);
      assert open.Some? && open.value <= p;
      var close := FindFrom(s, CloseTag, open.value + |OpenTag|);
      assert close.Some?;
      assert |RemoveThinkSpans(s)| < |s|;
    }
    if RemoveThinkSpans(s) != s {
      var p := FindFrom(s, OpenTag, 0).value;
      var q := FindFrom(s, CloseTag, p + |OpenTag|).value;
      assert SpanAt(s, p, q);
    }
  }

  /** Text without an opening tag is only trimmed. */
  lemma NoOpenTagOnlyTrimmed(s: string)
    requires forall k :: !OccursAt(s, OpenTag, k)
    ensures RemoveThinkSpans(s) == s
  {
  }

  /** The leftmost span, up to the first closing tag after it, is removed and
      the scan resumes behind it. */
  lemma {:induction false} RemovesLeftmostSpan(a: string, b: string, c: string)
    requires forall k :: !OccursAt(a, OpenTag, k)
    requires forall k :: !OccursAt(b, CloseTag, k)
    ensures RemoveThinkSpans(a + OpenTag + b + CloseTag + c) == a + RemoveThinkSpans(c)
  {
    var s := a + OpenTag + b + CloseTag + c;
    OpenTagFound(a, b, c);
    CloseTagFound(a, b, c);
    assert s[..|a|] == a;
    assert s[|a| + |OpenTag| + |b| + |CloseTag|..] == c;
  }

  /** The first opening tag is the one after `a`. */
  lemma {:induction false} OpenTagFound(a: string, b: string, c: string)
    requires forall k :: !OccursAt(a, OpenTag, k)
    ensures FindFrom(a + OpenTag + b + CloseTag + c, OpenTag, 0) == Some(|a|)
  {
    TagsAreBorderless();
    assert a + OpenTag + b + CloseTag + c == a + OpenTag + (b + CloseTag + c);
    FirstOccurrence(a, OpenTag, b + CloseTag + c, 0);
  }

  /** The first closing tag after that opening tag is the one after `b`. */
  lemma {:induction false} CloseTagFound(a: string, b: string, c: string)
    requires forall k :: !OccursAt(b, CloseTag, k)
    ensures FindFrom(a + OpenTag + b + CloseTag + c, CloseTag, |a| + |OpenTag|) == Some(|a| + |OpenTag| + |b|)
  {
    TagsAreBorderless();
    var x := a + OpenTag + b;
    assert a + OpenTag + b + CloseTag + c == x + CloseTag + c;
    forall k | |a| + |OpenTag| <= k
      ensures !OccursAt(x, CloseTag, k)
    {
      var i := k - |a| - |OpenTag|;
      if k + |CloseTag| <= |x| {
        assert x[k..k + |CloseTag|] == b[i..i + |CloseTag|];
        assert !OccursAt(b, CloseTag, i);
      }
    }
    FirstOccurrence(x, CloseTag, c, |a| + |OpenTag|);
  }

  /** An opening tag with no closing tag after it is kept, with all that
      follows it. */
  lemma UnclosedTagKept(a: string, b: string)
    requires forall k :: !OccursAt(a, OpenTag, k)
    requires forall k :: !OccursAt(b, CloseTag, k)
    ensures RemoveThinkSpans(a + OpenTag + b) == a + OpenTag + b
  {
    TagsAreBorderless();
    var s := a + OpenTag + b;
    FirstOccurrence(a, OpenTag, b, 0);
    forall k | |a| + |OpenTag| <= k
      ensures !OccursAt(s, CloseTag, k)
    {
      var i := k - |a| - |OpenTag|;
      if k + |CloseTag| <= |s| {
        assert s[k..k + |CloseTag|] == b[i..i + |CloseTag|];
        assert !OccursAt(b, CloseTag, i);
      }
    }
  }

  /** One pass is not enough: in `<thi<think>x</think>nk></think>` the
      removal of the inner span joins `<thi` and `nk>` into an opening tag,
      so the answer keeps the span `<think></think>`. */
  lemma SinglePassCanLeaveSpan(head: string, tail: string)
    requires head == "<thi" && tail == "nk>"
    ensures RemoveThinkSpans(head + OpenTag + "x" + CloseTag + tail + CloseTag) == head + tail + CloseTag
    ensures head + tail == OpenTag && HasSpan(head + tail + CloseTag)
  {
    var c := tail + CloseTag;
    assert head + OpenTag + "x" + CloseTag + tail + CloseTag == head + OpenTag + "x" + CloseTag + c;
    assert RemoveThinkSpans(head + OpenTag + "x" + CloseTag + c) == head + c by {
      forall k ensures !OccursAt(head, OpenTag, k) {
      }
      forall k ensures !OccursAt("x", CloseTag, k) {
      }
      forall k ensures !OccursAt(c, OpenTag, k) {
        if 0 <= k && k + |OpenTag| <= |c| {
          assert c[k..k + |OpenTag|][0] == c[k] && c[k..k + |OpenTag|][1] == c[k + 1];
          assert c[k] != '<' || c[k + 1] != 't';
        }
      }
      RemovesLeftmostSpan(head, "x", c);
      NoOpenTagOnlyTrimmed(c);
    }
    assert head + c == head + tail + CloseTag;
    assert head + tail == OpenTag;
    assert HasSpan(head + tail + CloseTag) by {
      var t := head + tail + CloseTag;
      assert t[..7] == OpenTag && t[7..] == CloseTag;
      assert SpanAt(t, 0, 7);
    }
  }

  /** Why `chat` answered with an error. */
  datatype ChatError = MissingParameters | OllamaUnavailable | VectorDbNotFound | Internal

  /** The body of a successful answer. */
  datatype ChatReply = ChatReply(answer: string, relevantContent: string, sourceCount: nat)

  /** A request field is present: not missing and not empty. */
  predicate Present(field: Option<string>)
  {
    field.Some? && field.value != ""
  }

  /** `chat(request)`. `retrieve` returns the top passages for an id and a
      query and `generate` the model's raw reply for the joined passages and
      the query; either gives `None` when it raises. */
  function Chat(vectorDbId: Option<string>, query: Option<string>, ollamaUp: bool, disk: Disk,
                retrieve: (string, string) -> Option<seq<string>>,
                generate: (string, string) -> Option<string>): (r: Result<ChatReply, ChatError>)
    ensures !Present(vectorDbId) || !Present(query) ==> r == Err(MissingParameters)
    ensures Present(vectorDbId) && Present(query) && !ollamaUp ==> r == Err(OllamaUnavailable)
    ensures Present(vectorDbId) && Present(query) && ollamaUp && vectorDbId.value !in disk.vectorDirs ==>
      r == Err(VectorDbNotFound)
    ensures r.Ok? <==>
      && Present(vectorDbId) && Present(query) && ollamaUp && vectorDbId.value in disk.vectorDirs
      && retrieve(vectorDbId.value, query.value).Some?
      && generate(Join(PassageSeparator, retrieve(vectorDbId.value, query.value).value), query.value).Some?
    ensures r.Ok? ==>
      var passages := retrieve(vectorDbId.value, query.value).value;
      && r.value.sourceCount == |passages|
      && r.value.relevantContent == Join(PassageSeparator, passages)
      && NoEdgeSpace(r.value.answer)
  {
    if !Present(vectorDbId) || !Present(query) then Err(MissingParameters)
    else if !ollamaUp then Err(OllamaUnavailable)
    else if vectorDbId.value !in disk.vectorDirs then Err(VectorDbNotFound)
    else
      match retrieve(vectorDbId.value, query.value)
      case None => Err(Internal)
      case Some(passages) =>
        var content := Join(PassageSeparator, passages);
        match generate(content, query.value)
        case None => Err(Internal)
        case Some(raw) => Ok(ChatReply(Strip(RemoveThinkSpans(raw)), content, |passages|))
  }

  /** Whether the store is complete plays no part: `chat` looks only for the
      folder, so an empty folder left by a failed vectorization is searched. */
  lemma ChatIgnoresChromaFile(vectorDbId: Option<string>, query: Option<string>, ollamaUp: bool, disk: Disk,
                              chromaFiles: set<string>,
                              retrieve: (string, string) -> Option<seq<string>>,
                              generate: (string, string) -> Option<string>)
    ensures Chat(vectorDbId, query, ollamaUp, disk, retrieve, generate)
         == Chat(vectorDbId, query, ollamaUp, disk.(chromaFiles := chromaFiles), retrieve, generate)
  {
  }

  /** A reply without an opening tag is only trimmed. */
  lemma PlainReplyOnlyTrimmed(vectorDbId: Option<string>, query: Option<string>, ollamaUp: bool, disk: Disk,
                              retrieve: (string, string) -> Option<seq<string>>,
                              generate: (string, string) -> Option<string>)
    requires Chat(vectorDbId, query, ollamaUp, disk, retrieve, generate).Ok?
    requires forall k :: !OccursAt(generate(Join(PassageSeparator, retrieve(vectorDbId.value, query.value).value), query.value).value, OpenTag, k)
    ensures Chat(vectorDbId, query, ollamaUp, disk, retrieve, generate).value.answer
         == Strip(generate(Join(PassageSeparator, retrieve(vectorDbId.value, query.value).value), query.value).value)
  {
    NoOpenTagOnlyTrimmed(generate(Join(PassageSeparator, retrieve(vectorDbId.value, query.value).value), query.value).value);
  }
}
