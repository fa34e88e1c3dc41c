/** The persistent state the view set and the cleanup routine work on: the
    vector-store folders and scraped CSV files on disk, and the `Website` and
    `ScrapedContent` tables. */
module Storage {
  import opened Common

  /** The file name Chroma persists a vector store in, inside its folder. */
  const ChromaFile := "chroma.sqlite3"

  /** What is on disk, by vector-store id:
      - `vectorDirs`: the folders `VECTOR_DB_PATH/<id>`;
      - `chromaFiles`: the ids whose folder holds `chroma.sqlite3`;
      - `csvFiles`: the ids with a `SCRAPED_DATA_PATH/<id>_scraped_data.csv`. */
  datatype Disk = Disk(vectorDirs: set<string>, chromaFiles: set<string>, csvFiles: set<string>)
  {
    /** A `chroma.sqlite3` only ever lives inside an existing folder. */
    predicate Valid()
    {
      chromaFiles <= vectorDirs
    }

    /** The folder exists and holds `chroma.sqlite3`: a complete store. */
    predicate Complete(id: string)
    {
      id in vectorDirs && id in chromaFiles
    }
  }

  /** A row of the `Website` table. `vectorDbId` is `None` once cleared. */
  datatype Website = Website(pk: nat, url: string, title: string, metaDescription: string, vectorDbId: Option<string>)

  /** A row of the `ScrapedContent` table, pointing at its website's key. */
  datatype ScrapedContent = ScrapedContent(website: nat, url: string, combinedText: string, wordCount: int)

  /** The two tables, each in query order. */
  datatype Database = Database(websites: seq<Website>, contents: seq<ScrapedContent>)
}
