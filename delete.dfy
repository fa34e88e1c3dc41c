/** `delete_vectorized_data`: find the one website registered under a vector
    store id, then remove its vector-store folder, its scraped CSV file, its
    scraped content rows and the website row itself, in that order. */
module Deletion {
  import opened Common
  import opened PyStr
  import opened Storage
  import opened ChatAnswers
  import opened Reconciler

  /** Why the request was refused: no id (400), no website with it (404),
      or `Website.objects.get` found several (500). */
  datatype DeleteError = MissingId | WebsiteNotFound | ServerError

  /** The answer (the deleted website's URL on success) and the state
      afterwards. */
  datatype DeleteOutcome = DeleteOutcome(result: Result<string, DeleteError>, disk: Disk, db: Database)

  /** The websites registered under vector store `id`, in table order. */
  function WithId(websites: seq<Website>, id: string): (r: seq<Website>)
    ensures forall w :: w in r <==> w in websites && w.vectorDbId == Some(id)
    ensures r == [] <==> forall w :: w in websites ==> w.vectorDbId != Some(id)
    ensures |r| <= |websites|
  {
    if websites == [] then []
    else (if websites[0].vectorDbId == Some(id) then [websites[0]] else []) + WithId(websites[1..], id)
  }

  /** Step 1: `shutil.rmtree` of the folder, which takes `chroma.sqlite3`
      with it. */
  function RemoveVectorStore(disk: Disk, id: string): Disk
  {
    if id in disk.vectorDirs then disk.(vectorDirs := disk.vectorDirs - {id}, chromaFiles := disk.chromaFiles - {id})
    else disk
  }

  /** Step 2: `os.remove` of `<id>_scraped_data.csv`. */
  function RemoveCsv(disk: Disk, id: string): Disk
  {
    if id in disk.csvFiles then disk.(csvFiles := disk.csvFiles - {id}) else disk
  }

  /** Step 3: the scraped content rows of the website are deleted. */
  function DropContents(contents: seq<ScrapedContent>, pk: nat): (r: seq<ScrapedContent>)
    ensures forall c :: c in r <==> c in contents && c.website != pk
  {
    if contents == [] then []
    else (if contents[0].website == pk then [] else [contents[0]]) + DropContents(contents[1..], pk)
  }

  /** Step 4: the website row is deleted. */
  function DropWebsite(websites: seq<Website>, pk: nat): (r: seq<Website>)
    ensures forall w :: w in r <==> w in websites && w.pk != pk
  {
    if websites == [] then []
    else (if websites[0].pk == pk then [] else [websites[0]]) + DropWebsite(websites[1..], pk)
  }

  /** The disk after steps 1 and 2: no folder, store or CSV file for `id`,
      everything else as it was. */
  function PurgeDisk(disk: Disk, id: string): (d: Disk)
    ensures d.vectorDirs == disk.vectorDirs - {id} && d.csvFiles == disk.csvFiles - {id}
    ensures disk.Valid() ==> d.Valid() && d.chromaFiles == disk.chromaFiles - {id}
  {
    RemoveCsv(RemoveVectorStore(disk, id), id)
  }

  /** The tables after steps 3 and 4: the rows of website `pk` and the
      website itself are gone, every other row is kept. */
  function PurgeDatabase(db: Database, pk: nat): (d: Database)
    ensures forall w :: w in d.websites <==> w in db.websites && w.pk != pk
    ensures forall c :: c in d.contents <==> c in db.contents && c.website != pk
  {
    Database(DropWebsite(db.websites, pk), DropContents(db.contents, pk))
  }

  /** `list_vectorized_databases()` runs the cleanup only when some folder
      holds a complete store and none of those folders is claimed by several
      websites: `Website.objects.get` on such a folder raises, and the
      listing's own handler then returns before the cleanup. */
  predicate ListingRunsCleanup(disk: Disk, websites: seq<Website>)
  {
    && (exists id :: id in disk.vectorDirs && id in disk.chromaFiles)
    && forall id :: id in disk.vectorDirs && id in disk.chromaFiles ==> |WithId(websites, id)| <= 1
  }

  /** The tables after the listing that ends a successful deletion: the
      content rows are untouched, and each website is kept or has its id
      cleared. */
  function AfterListing(disk: Disk, accepts: Website -> bool, db: Database): (d: Database)
    ensures d.contents == db.contents && |d.websites| == |db.websites|
    ensures forall k :: 0 <= k < |db.websites| ==>
      d.websites[k] == db.websites[k] || d.websites[k] == db.websites[k].(vectorDbId := None)
  {
    CleanupOnlyClearsIds(disk, accepts, db.websites);
    if ListingRunsCleanup(disk, db.websites) then db.(websites := CleanupOutcome(disk, accepts, db.websites).websites)
    else db
  }

  /** `delete_vectorized_data(request)`. `accepts` is the `Website` table's
      constraint check, as in the cleanup. */
  function DeleteVectorizedData(id: Option<string>, disk: Disk, db: Database, accepts: Website -> bool): (out: DeleteOutcome)
    ensures out.result.Err? ==> out.disk == disk && out.db == db
    ensures !Present(id) ==> out.result == Err(MissingId)
    ensures Present(id) && WithId(db.websites, id.value) == [] ==> out.result == Err(WebsiteNotFound)
    ensures Present(id) && |WithId(db.websites, id.value)| > 1 ==> out.result == Err(ServerError)
    ensures out.result.Ok? ==>
      && Present(id) && |WithId(db.websites, id.value)| == 1
      && out.result.value == WithId(db.websites, id.value)[0].url
      && out.disk == PurgeDisk(disk, id.value)
      && out.db == AfterListing(out.disk, accepts, PurgeDatabase(db, WithId(db.websites, id.value)[0].pk))
  {
    if !Present(id) then DeleteOutcome(Err(MissingId), disk, db)
    else
      var matches := WithId(db.websites, id.value);
      if matches == [] then DeleteOutcome(Err(WebsiteNotFound), disk, db)
      else if |matches| > 1 then DeleteOutcome(Err(ServerError), disk, db)
      else
        var d := PurgeDisk(disk, id.value);
        DeleteOutcome(Ok(matches[0].url), d, AfterListing(d, accepts, PurgeDatabase(db, matches[0].pk)))
  }

  /** With the `vector_db_id` column as declared (NOT NULL) the cleanup run by
      the listing changes nothing, so the tables end as the four steps left
      them. */
  lemma DeleteUnderNotNullColumn(id: string, disk: Disk, db: Database)
    requires DeleteVectorizedData(Some(id), disk, db, NotNullColumn).result.Ok?
    ensures DeleteVectorizedData(Some(id), disk, db, NotNullColumn).db
         == PurgeDatabase(db, WithId(db.websites, id)[0].pk)
  {
    var purged := PurgeDatabase(db, WithId(db.websites, id)[0].pk);
    NotNullCleanupKeepsTable(PurgeDisk(disk, id), purged.websites);
  }

  /** After a deletion nothing is left under the id: no folder, no store, no
      CSV file, no website, and no content row of the deleted website. */
  lemma NothingLeftAfterDelete(id: string, disk: Disk, db: Database, accepts: Website -> bool)
    requires disk.Valid()
    requires DeleteVectorizedData(Some(id), disk, db, accepts).result.Ok?
    ensures var out := DeleteVectorizedData(Some(id), disk, db, accepts);
      && id !in out.disk.vectorDirs && id !in out.disk.chromaFiles && id !in out.disk.csvFiles
      && WithId(out.db.websites, id) == []
      && forall c :: c in out.db.contents ==> c.website != WithId(db.websites, id)[0].pk
  {
    var out := DeleteVectorizedData(Some(id), disk, db, accepts);
    var site := WithId(db.websites, id)[0];
    forall w | w in db.websites && w.vectorDbId == Some(id) ensures w.pk == site.pk {
      assert w in WithId(db.websites, id);
      SingletonMember(WithId(db.websites, id), w);
    }
  }

  /** The only element of a one-element sequence. */
  lemma SingletonMember<T>(s: seq<T>, x: T)
    requires |s| == 1 && x in s
    ensures x == s[0]
  {
  }

  /** Deleting twice: the second request finds no website and changes
      nothing. */
  lemma SecondDeleteNotFound(id: string, disk: Disk, db: Database, accepts: Website -> bool)
    requires disk.Valid()
    requires DeleteVectorizedData(Some(id), disk, db, accepts).result.Ok?
    ensures var out := DeleteVectorizedData(Some(id), disk, db, accepts);
      DeleteVectorizedData(Some(id), out.disk, out.db, accepts) == DeleteOutcome(Err(WebsiteNotFound), out.disk, out.db)
  {
    NothingLeftAfterDelete(id, disk, db, accepts);
  }

  /** After a deletion, chatting with the deleted store is answered with
      "vector database not found". */
  lemma ChatAfterDeleteNotFound(id: string, query: string, disk: Disk, db: Database, accepts: Website -> bool,
                                retrieve: (string, string) -> Option<seq<string>>,
                                generate: (string, string) -> Option<string>)
    requires query != ""
    requires disk.Valid()
    requires DeleteVectorizedData(Some(id), disk, db, accepts).result.Ok?
    ensures Chat(Some(id), Some(query), true, DeleteVectorizedData(Some(id), disk, db, accepts).disk, retrieve, generate)
         == Err(VectorDbNotFound)
  {
    NothingLeftAfterDelete(id, disk, db, accepts);
  }
}
