/** `vectorize_data`: read the scraped CSV back, turn every row with enough
    text into a document keyed by its row index, and persist them in a Chroma
    store named after the URL hash, unless that store is already complete. */
module Vectorizer {
  import opened Common
  import opened PyStr
  import opened Storage

  /** One row of the scraped-data CSV as pandas reads it back; any cell may
      be NaN. */
  datatype Row = Row(url: Option<string>, title: Option<string>, metaDescription: Option<string>,
                     combinedText: Option<string>, wordCount: Option<int>, urlHash: Option<string>)

  /** The metadata attached to each document. */
  datatype Metadata = Metadata(url: string, title: string, metaDescription: string, wordCount: int, urlHash: string)

  /** A LangChain `Document`. */
  datatype Document = Document(pageContent: string, metadata: Metadata)

  /** The documents handed to `add_documents` and their ids, in step. */
  datatype Batch = Batch(docs: seq<Document>, ids: seq<string>)

  /** Rows whose stripped text is shorter than this are skipped. */
  const MinContentLength := 10

  /** A row becomes a document: its text is not NaN and, stripped, has at
      least `MinContentLength` characters. */
  predicate Survives(row: Row)
  {
    row.combinedText.Some? && |Strip(row.combinedText.value)| >= MinContentLength
  }

  /** `safe_str`: NaN becomes the empty string, anything else is stripped. */
  function SafeStr(cell: Option<string>): string
  {
    match cell
    case None => ""
    case Some(s) => Strip(s)
  }

  /** The document built from a surviving row. */
  function DocumentOf(row: Row): (doc: Document)
    requires Survives(row)
    ensures |doc.pageContent| >= MinContentLength && NoEdgeSpace(doc.pageContent)
  {
    var wordCount := match row.wordCount case None => 0 case Some(w) => w;
    Document(Strip(row.combinedText.value),
             Metadata(SafeStr(row.url), SafeStr(row.title), SafeStr(row.metaDescription), wordCount, SafeStr(row.urlHash)))
  }

  /** The batch the row loop collects: one document per surviving row, with
      the row's index printed as its id. */
  function Collected(rows: seq<Row>): (batch: Batch)
    ensures |batch.docs| == |batch.ids|
    decreases |rows|
  {
    if rows == [] then Batch([], [])
    else
      var b := Collected(rows[..|rows| - 1]);
      var i := |rows| - 1;
      if Survives(rows[i]) then Batch(b.docs + [DocumentOf(rows[i])], b.ids + [NatToString(i)]) else b
  }

  /** The indices of the surviving rows, in increasing order. */
  ghost function SurvivingIndices(rows: seq<Row>): (idx: seq<nat>)
    ensures forall j :: 0 <= j < |idx| ==> idx[j] < |rows| && Survives(rows[idx[j]])
    ensures forall j, k :: 0 <= j < k < |idx| ==> idx[j] < idx[k]
    decreases |rows|
  {
    if rows == [] then []
    else
      var n := |rows| - 1;
      var before := SurvivingIndices(rows[..n]);
      assert forall j :: 0 <= j < |before| ==> rows[..n][before[j]] == rows[before[j]];
      if Survives(rows[n]) then before + [n] else before
  }

  /** Every surviving row's index is listed. */
  lemma {:induction false} SurvivorListed(rows: seq<Row>, i: nat)
    requires i < |rows| && Survives(rows[i])
    ensures i in SurvivingIndices(rows)
    decreases |rows|
  {
    var n := |rows| - 1;
    if i < n {
      assert rows[..n][i] == rows[i];
      SurvivorListed(rows[..n], i);
    }
  }

  /** The loop over `dataframe.iterrows()`. */
  method BuildDocuments(rows: seq<Row>) returns (docs: seq<Document>, ids: seq<string>)
    ensures Batch(docs, ids) == Collected(rows)
  {
    docs, ids := [], [];
    for i := 0 to |rows|
      invariant Batch(docs, ids) == Collected(rows[..i])
    {
      assert rows[..i + 1][..i] == rows[..i];
      if rows[i].combinedText.None? {
        continue;
      }
      var content := Strip(rows[i].combinedText.value);
      if content == "" || |content| < MinContentLength {
        continue;
      }
      docs := docs + [DocumentOf(rows[i])];
      ids := ids + [NatToString(i)];
    }
    assert rows[..|rows|] == rows;
  }

  /** Document `j` is the document of the `j`-th surviving row, and its id is
      that row's index. */
  lemma {:induction false} CollectedByIndex(rows: seq<Row>)
    ensures |Collected(rows).docs| == |SurvivingIndices(rows)|
    ensures forall j :: 0 <= j < |SurvivingIndices(rows)| ==>
      Collected(rows).docs[j] == DocumentOf(rows[SurvivingIndices(rows)[j]]) &&
      Collected(rows).ids[j] == NatToString(SurvivingIndices(rows)[j])
    decreases |rows|
  {
    if rows != [] {
      var n := |rows| - 1;
      var init := rows[..n];
      CollectedByIndex(init);
      var b, idx := Collected(init), SurvivingIndices(init);
      forall j | 0 <= j < |idx|
        ensures Collected(rows).docs[j] == DocumentOf(rows[idx[j]]) && Collected(rows).ids[j] == NatToString(idx[j])
      {
        assert init[idx[j]] == rows[idx[j]];
      }
    }
  }

  /** A row is turned into a document exactly when it survives the filter. */
  lemma RowKeptIff(rows: seq<Row>, i: nat)
    requires i < |rows|
    ensures Survives(rows[i]) <==> exists j :: 0 <= j < |Collected(rows).ids| && Collected(rows).ids[j] == NatToString(i)
  {
    CollectedByIndex(rows);
    var idx := SurvivingIndices(rows);
    if Survives(rows[i]) {
      SurvivorListed(rows, i);
      var j :| 0 <= j < |idx| && idx[j] == i;
      assert Collected(rows).ids[j] == NatToString(i);
    } else {
      forall j | 0 <= j < |Collected(rows).ids| ensures Collected(rows).ids[j] != NatToString(i) {
        if Collected(rows).ids[j] == NatToString(i) {
          NatToStringInjective(idx[j], i);
        }
      }
    }
  }

  /** No two documents share an id. */
  lemma DistinctIds(rows: seq<Row>)
    ensures NoDuplicates(Collected(rows).ids)
  {
    CollectedByIndex(rows);
    var idx := SurvivingIndices(rows);
    var ids := Collected(rows).ids;
    forall j, k | 0 <= j < k < |ids| ensures ids[j] != ids[k] {
      if ids[j] == ids[k] {
        NatToStringInjective(idx[j], idx[k]);
      }
    }
  }

  /** Every document carries at least `MinContentLength` characters of
      stripped text. */
  lemma DocumentsHaveContent(rows: seq<Row>)
    ensures forall j :: 0 <= j < |Collected(rows).docs| ==>
      |Collected(rows).docs[j].pageContent| >= MinContentLength && NoEdgeSpace(Collected(rows).docs[j].pageContent)
  {
    CollectedByIndex(rows);
  }

  /** Nothing is collected exactly when no row survives. */
  lemma {:induction false} NothingCollectedIff(rows: seq<Row>)
    ensures Collected(rows).docs == [] <==> forall i :: 0 <= i < |rows| ==> !Survives(rows[i])
  {
    CollectedByIndex(rows);
    var idx := SurvivingIndices(rows);
    if idx != [] {
      assert Survives(rows[idx[0]]);
    }
    forall i | 0 <= i < |rows| && Survives(rows[i]) ensures idx != [] {
      SurvivorListed(rows, i);
    }
  }

  /** Why `vectorize_data` raised. */
  datatype VectorizeError = FileNotFound | EmptyData | OllamaUnavailable | NoValidContent | NotPersisted

  /** The value returned or raised, the disk afterwards, and what was handed to
      `add_documents` (nothing when it was not called). */
  datatype VectorizeOutcome = VectorizeOutcome(result: Result<string, VectorizeError>, disk: Disk, added: Batch)

  /** `vectorize_data(csv_filename, url_hash)`. `csv` is the file's rows, or
      `None` when it does not exist; `ollamaUp` is the Ollama status check;
      `persists` says whether Chroma left `chroma.sqlite3` behind after adding
      the documents. */
  method VectorizeData(csv: Option<seq<Row>>, urlHash: string, ollamaUp: bool, persists: bool, disk: Disk)
    returns (out: VectorizeOutcome)
    ensures csv.None? ==> out == VectorizeOutcome(Err(FileNotFound), disk, Batch([], []))
    ensures csv == Some([]) ==> out == VectorizeOutcome(Err(EmptyData), disk, Batch([], []))
    ensures csv.Some? && csv.value != [] && !ollamaUp ==> out == VectorizeOutcome(Err(OllamaUnavailable), disk, Batch([], []))
    ensures csv.Some? && csv.value != [] && ollamaUp ==>
      && out.disk.vectorDirs == disk.vectorDirs + {urlHash}
      && out.disk.csvFiles == disk.csvFiles
      && (urlHash in disk.chromaFiles ==> out == VectorizeOutcome(Ok(urlHash), out.disk, Batch([], [])) && out.disk.chromaFiles == disk.chromaFiles)
      && (urlHash !in disk.chromaFiles && Collected(csv.value).docs == [] ==>
            out.result == Err(NoValidContent) && out.added == Batch([], []) && out.disk.chromaFiles == disk.chromaFiles)
      && (urlHash !in disk.chromaFiles && Collected(csv.value).docs != [] ==>
            && out.added == Collected(csv.value)
            && out.result == (if persists then Ok(urlHash) else Err(NotPersisted))
            && out.disk.chromaFiles == disk.chromaFiles + (if persists then {urlHash} else {}))
    ensures out.result.Ok? ==> out.result.value == urlHash && out.disk.Complete(urlHash)
    ensures disk.Valid() ==> out.disk.Valid()
  {
    if csv.None? {
      return VectorizeOutcome(Err(FileNotFound), disk, Batch([], []));
    }
    var rows := csv.value;
    if rows == [] {
      return VectorizeOutcome(Err(EmptyData), disk, Batch([], []));
    }
    if !ollamaUp {
      return VectorizeOutcome(Err(OllamaUnavailable), disk, Batch([], []));
    }
    var d := disk.(vectorDirs := disk.vectorDirs + {urlHash});
    if urlHash in d.chromaFiles {
      return VectorizeOutcome(Ok(urlHash), d, Batch([], []));
    }
    var docs, ids := BuildDocuments(rows);
    if docs == [] {
      return VectorizeOutcome(Err(NoValidContent), d, Batch([], []));
    }
    if persists {
      d := d.(chromaFiles := d.chromaFiles + {urlHash});
      return VectorizeOutcome(Ok(urlHash), d, Batch(docs, ids));
    }
    return VectorizeOutcome(Err(NotPersisted), d, Batch(docs, ids));
  }
}
