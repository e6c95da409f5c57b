/**
 The value side of the channel store: the record kept per channel, the
 abstract content of the backing comma-separated file, and the pure
 specifications of the two state changes the store makes to that file
 (creating it with a header, appending a record unless its name is taken).
 */
module Records {

  /** One tracked channel. `createdAt` is text: the writer stores the
      timestamp it is given in its printed form. */
  datatype Record = Record(name: string, url: string, createdAt: string)

  /** The backing file once parsed: its header row and its data rows in file order. */
  datatype CsvFile = CsvFile(header: seq<string>, rows: seq<Record>)

  /** The fixed column names, in the order the store writes them. */
  const FieldNames: seq<string> := ["name", "url", "created_at"]

  /** Some stored row already carries `name`. */
  predicate NameTaken(rows: seq<Record>, name: string)
  {
    exists i :: 0 <= i < |rows| && rows[i].name == name
  }

  /** No two stored rows share a name: the store's primary-key invariant. */
  predicate UniqueNames(rows: seq<Record>)
  {
    forall i, j :: 0 <= i < j < |rows| ==> rows[i].name != rows[j].name
  }

  /** The files on disk after the store is opened on `path`: an absent file
      is created holding only the header; a present one is left alone, with
      no check of its header. */
  function Opened(files: map<string, CsvFile>, path: string): (r: map<string, CsvFile>)
    ensures path in r
    ensures r.Keys == files.Keys + {path}
    ensures forall p :: p in files ==> r[p] == files[p]
    ensures path !in files ==> r[path].header == FieldNames && r[path].rows == []
  {
    if path in files then files else files[path := CsvFile(FieldNames, [])]
  }

  /** What an insertion reports and the rows it leaves behind. */
  datatype AddResult = AddResult(code: int, rows: seq<Record>)

  /** The insertion the store performs: report 0 and keep the rows when the
      name is taken, otherwise report 1 and append the record. */
  function Inserted(rows: seq<Record>, rec: Record): (r: AddResult)
    ensures r.code == 0 || r.code == 1
    ensures r.code == 0 <==> NameTaken(rows, rec.name)
    ensures |r.rows| == |rows| + r.code
    ensures r.rows[..|rows|] == rows
    ensures r.code == 1 ==> r.rows[|rows|] == rec
  {
    if NameTaken(rows, rec.name) then AddResult(0, rows) else AddResult(1, rows + [rec])
  }

  /** Rows after a series of insertions made one after another. */
  function InsertAll(rows: seq<Record>, recs: seq<Record>): (r: seq<Record>)
    ensures |rows| <= |r| <= |rows| + |recs|
    ensures r[..|rows|] == rows
    decreases |recs|
  {
    if recs == [] then rows else InsertAll(Inserted(rows, recs[0]).rows, recs[1..])
  }

  /** Whatever an insertion reports, a store whose names were distinct keeps them distinct. */
  lemma InsertedKeepsNamesUnique(rows: seq<Record>, rec: Record)
    requires UniqueNames(rows)
    ensures UniqueNames(Inserted(rows, rec).rows)
  {
  }

  /** After an insertion the record's name is taken, whichever code it reports. */
  lemma InsertedTakesName(rows: seq<Record>, rec: Record)
    ensures NameTaken(Inserted(rows, rec).rows, rec.name)
  {
  }

  /** A second insertion under the same name is rejected and changes nothing,
      so the first record's url is never overwritten. */
  lemma SecondInsertRejected(rows: seq<Record>, first: Record, second: Record)
    requires second.name == first.name
    ensures Inserted(Inserted(rows, first).rows, second) == AddResult(0, Inserted(rows, first).rows)
  {
  }

  /** A record whose name was new is stored exactly once, at the end. */
  lemma NewRecordStoredOnce(rows: seq<Record>, rec: Record)
    requires !NameTaken(rows, rec.name)
    ensures multiset(Inserted(rows, rec).rows)[rec] == 1
  {
  }

  /** Any series of insertions keeps distinct names distinct. */
  lemma {:induction false} InsertAllKeepsNamesUnique(rows: seq<Record>, recs: seq<Record>)
    requires UniqueNames(rows)
    ensures UniqueNames(InsertAll(rows, recs))
    decreases |recs|
  {
    if recs != [] {
      InsertedKeepsNamesUnique(rows, recs[0]);
      InsertAllKeepsNamesUnique(Inserted(rows, recs[0]).rows, recs[1..]);
    }
  }

  /** A store created on a missing path holds, after any series of insertions,
      rows with pairwise distinct names. */
  lemma FreshStoreStaysUnique(files: map<string, CsvFile>, path: string, recs: seq<Record>)
    requires path !in files
    ensures UniqueNames(InsertAll(Opened(files, path)[path].rows, recs))
  {
    InsertAllKeepsNamesUnique(Opened(files, path)[path].rows, recs);
  }

  /** Opening the store twice on one path is the same as opening it once. */
  lemma OpenedIdempotent(files: map<string, CsvFile>, path: string)
    ensures Opened(Opened(files, path), path) == Opened(files, path)
  {
  }

  /** Insert "Alice" with one url, then "Alice" with another: the first is
      stored, the second rejected, and one record with the first url remains. */
  lemma FirstWriteWinsScenario()
    ensures var a := Record("Alice", "http://a.test", "2024-01-01T00:00:00");
            var b := Record("Alice", "http://b.test", "2024-01-01T00:00:01");
            var first := Inserted([], a);
            var second := Inserted(first.rows, b);
            first.code == 1 && second.code == 0 && second.rows == [a]
  {
  }
}
