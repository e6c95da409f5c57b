# ytdl-manager channel store, modelled in Dafny

The application keeps a list of named video channels in a local
comma-separated file. `FileDB` is the store behind it. It is bound to one
path. When the file is missing it creates it, holding only the header row
`name,url,created_at`. It can read every data row back in file order. It
appends a record only when no stored row already has that record's name,
and it reports 1 for an append and 0 for a rejected duplicate.

The model has two modules:

- `Records` (`records.dfy`) holds the values: `Record` (name, url,
  created-at text), `CsvFile` (header row plus data rows, already parsed),
  the fixed `FieldNames`, and the predicates `NameTaken` and `UniqueNames`.
  It also holds the pure specifications of the two changes the store makes
  to the disk. `Opened` creates the file if it is absent. `Inserted` appends
  unless the name is taken. The lemmas about them are here too.
- `FileDb` (`file_db.dfy`) holds the state. `FileSystem` is the disk: a map
  from each existing path to its parsed content, so "the file exists" means
  "the path is a key". `FileDB` is the store object. Its path, disk handle
  and field names are constants. Its constructor and `CreateIfNotExist`,
  `GetFieldNames`, `Read` and `Add` follow the source method by method.
  `Read` copies the rows in a loop. `Add` reads, scans the rows with an
  early return of 0, and otherwise appends and returns 1. It keeps the
  source's redundant non-empty guard around the scan.

The disk is shared state: two `FileDB` objects on the same path see the same
file, as in the source's start-up code. Every write says that all other
paths are left unchanged.

## Model

| member | source | states |
|---|---|---|
| FileDb.FileDB.constructor | main.py:12-15 | binds the path and creates the file if missing: afterwards the file exists, the field names are `name`, `url`, `created_at`, and the disk equals `Opened` of the old disk |
| FileDb.FileDB.CreateIfNotExist | main.py:20-24 | an absent file becomes header-only with no rows; an existing file and every other path are left untouched, with no header check |
| FileDb.FileDB.GetFieldNames | main.py:17-18 | always returns exactly `["name", "url", "created_at"]`, in that order |
| FileDb.FileDB.Read | main.py:26-32 | changes nothing and returns exactly the file's data rows, in file order, without the header |
| FileDb.FileDB.Add | main.py:34-43 | returns 0 or 1; returns 0 exactly when a stored row has the same name, and then the disk is unchanged; on 1 the rows become the old rows plus the record at the end, with the header and other files unchanged; the rows and result agree with `Inserted`; distinct names stay distinct |
| Records.Opened | main.py:20-24 | after opening, the path exists and no other path is added; every file that existed keeps its content; a newly created file has header `FieldNames` and no rows |
| Records.Inserted | main.py:34-43 | the code is 0 or 1 and is 0 exactly when the name is taken; the row count grows by the code; the old rows stay as a prefix; on 1 the new last row is the record |
| Records.InsertedKeepsNamesUnique | main.py:34-43 | if stored names are pairwise distinct before an insertion, they still are after it, whichever code it reports |
| Records.InsertedTakesName | main.py:37-43 | after an insertion the record's name is present in the rows, whether it was appended or was there already |
| Records.SecondInsertRejected | main.py:35-39 | a second insertion with the same name reports 0 and leaves the rows of the first insertion as they were, so the first write wins |
| Records.NewRecordStoredOnce | main.py:40-43 | a record whose name is new occurs exactly once among the rows after it is inserted |
| Records.InsertAll | main.py:34-43 | a series of insertions only appends: every earlier row stays in place, and the rows grow by at most one per record |
| Records.InsertAllKeepsNamesUnique | main.py:34-43 | any series of insertions keeps distinct names distinct |
| Records.FreshStoreStaysUnique | main.py:20-43 | a store created on a missing path has pairwise distinct names after any series of insertions |
| Records.OpenedIdempotent | main.py:21 | opening twice on one path gives the same disk as opening once |
| Records.FirstWriteWinsScenario | main.py:34-43 | inserting "Alice" with url `http://a.test` reports 1; inserting "Alice" again with `http://b.test` reports 0; one record remains, with the first url |

## Left out

- CSV text: quoting, escaping, line endings and the parsing of the header row that maps columns to fields (main.py:23-24, main.py:29, main.py:41-42). The file is modelled as an already-parsed header plus rows of records.
- FileDb.FileDB.Add, Records.Inserted: duplicate rejection and the read-back of an appended row hold only when the file's header equals `FieldNames`. The writer puts values in its own column order (main.py:41-42), but the reader maps them through the file's own header (main.py:29). With a reordered existing header such as `url,name,created_at`, the source stores the new row with its columns swapped and lets a second record with the same name through. The model reads every row as a well-formed record and does not capture this.
- FileDb.FileDB.GetFieldNames: the source hands out its internal list object, so a caller that changed that list would change the columns `add` writes. Nothing in the application does this. The model returns a value and does not capture the aliasing.
- A pre-existing file whose header lacks a `name` column, or whose lines have the wrong field count. The source would fail or misread here. The model's rows are always well-formed records.
- Real file-system failures: permission errors, a full disk, or the file being deleted by another program after the store is opened. `Read` and `Add` therefore require the file to exist, which the constructor establishes and nothing in the model undoes.
- The current time (main.py:75). `createdAt` is an opaque string given by the caller.
- The race between the scan and the append when two writers run at once. The source has one writer and no locking.
- The terminal interface `YTApp` (main.py:46-101) and the start-up block (main.py:104-107).
