/**
 The channel store itself: a handle on one comma-separated file, which it
 creates with a header row when missing, reads in full, and appends to
 unless a row with the same name is already there.
 */
module FileDb {
  import opened Records

  /** The disk, as far as the store sees it: each existing path with its
      parsed content. A path is absent from `files` when no file exists there. */
  class FileSystem {
    var files: map<string, CsvFile>

    constructor (files: map<string, CsvFile>)
      ensures this.files == files
    {
      this.files := files;
    }
  }

  /** A store bound to one path. The path and the field names are set once;
      everything else lives in the file. */
  class FileDB {
    const path: string
    const fs: FileSystem
    const fieldnames: seq<string>

    /** The object invariant: the backing file exists and the field names are the fixed ones. */
    ghost predicate Valid()
      reads fs
    {
      path in fs.files && fieldnames == FieldNames
    }

    /** The data rows of the backing file, in file order. */
    ghost function Rows(): seq<Record>
      reads fs
      requires Valid()
    {
      fs.files[path].rows
    }

    /** The header row of the backing file. */
    ghost function Header(): seq<string>
      reads fs
      requires Valid()
    {
      fs.files[path].header
    }

    /** Binds the store to `path` and creates the file there if it is missing. */
    constructor (path: string, fs: FileSystem)
      modifies fs
      ensures this.path == path && this.fs == fs
      ensures Valid()
      ensures fs.files == Opened(old(fs.files), path)
    {
      this.path := path;
      this.fs := fs;
      this.fieldnames := ["name", "url", "created_at"];
      new;
      CreateIfNotExist();
    }

    /** The fixed column names, in writing order. */
    method GetFieldNames() returns (names: seq<string>)
      requires fieldnames == FieldNames
      ensures names == ["name", "url", "created_at"]
    {
      names := fieldnames;
    }

    /** Creates the backing file holding only the header row when no file is
        at `path`; leaves an existing file, and every other file, as it is. */
    method CreateIfNotExist()
      requires fieldnames == FieldNames
      modifies fs
      ensures Valid()
      ensures fs.files == Opened(old(fs.files), path)
    {
      if path !in fs.files {
        fs.files := fs.files[path := CsvFile(fieldnames, [])];
      }
    }

    /** Every data row of the backing file, in file order, header excluded. */
    method Read() returns (data: seq<Record>)
      requires Valid()
      ensures data == Rows()
    {
      var rows := fs.files[path].rows;
      data := [];
      for i := 0 to |rows|
        invariant data == rows[..i]
      {
        data := data + [rows[i]];
      }
    }

    /** Appends `rec` and returns 1 unless a stored row has the same name, in
        which case it returns 0 and writes nothing. */
    method Add(rec: Record) returns (r: int)
      requires Valid()
      modifies fs
      ensures Valid()
      ensures r == 0 || r == 1
      ensures r == 0 <==> NameTaken(old(Rows()), rec.name)
      ensures r == 0 ==> fs.files == old(fs.files)
      ensures r == 1 ==> fs.files == old(fs.files)[path := CsvFile(old(Header()), old(Rows()) + [rec])]
      ensures AddResult(r, Rows()) == Inserted(old(Rows()), rec)
      ensures UniqueNames(old(Rows())) ==> UniqueNames(Rows())
    {
      var existing := Read();
      if |existing| > 0 {
        for i := 0 to |existing|
          invariant forall k :: 0 <= k < i ==> existing[k].name != rec.name
        {
          if rec.name == existing[i].name {
            return 0;
          }
        }
      }
      var file := fs.files[path];
      fs.files := fs.files[path := CsvFile(file.header, file.rows + [rec])];
      if UniqueNames(existing) {
        InsertedKeepsNamesUnique(existing, rec);
      }
      return 1;
    }
  }
}
