/**
 * The older extension (src/pg_sqlite_fs.c): the same SQL functions over the
 * earlier schema, `files(inode, path, header)` and `entries` with a nullable
 * `decrypted_size` column, with no extended attributes. Its guard lacks the
 * unset-location test, its truncation builds the statement text by joining
 * strings, and its entries loader ignores the result of one bind.
 */
module LegacyFs {
  import opened Wrappers
  import opened Guard
  import opened Engine

  // ---------------------------------------------------------------------------
  // The store

  /** A row of `entries`, keyed by inode; is_dir is stored as 1 or 0. */
  datatype Entry = Entry(name: string, parent: int, decryptedSize: Option<string>,
                         ctime: int, mtime: int, nlink: int, size: int, isDir: int)

  /** A row of `files`, keyed by inode: both columns are NOT NULL. */
  datatype FileRow = FileRow(path: string, header: Bytes)

  /** One store file: the schema objects it has and the rows of its two tables. */
  datatype Db = Db(schema: set<SchemaObject>, entries: map<int, Entry>, files: map<int, FileRow>)

  /** The store sqlite3_open creates when no file is there. */
  const Empty := Db({}, map[], map[])

  /** The row create seeds: (1, '/', parent 1) with the column defaults and no decrypted size. */
  const RootEntry := Entry("/", 1, None, 0, 0, 1, 0, 1)

  /** The schema statements of create, in order; the root seed follows them. */
  const Script: seq<SchemaObject> := [TableObject(Files), TableObject(Entries), NamesIndex, ListingIndex]

  /** Another inode already holds (parent, name). */
  predicate Clash(m: map<int, Entry>, inode: int, parent: int, name: string) {
    exists j :: j in m && j != inode && m[j].parent == parent && m[j].name == name
  }

  /** What the unique index `names` on entries(parent_inode, name) enforces. */
  predicate SiblingsUnique(m: map<int, Entry>) {
    forall a, b :: a in m && b in m && a != b ==> !(m[a].parent == m[b].parent && m[a].name == m[b].name)
  }

  /** A table that does not exist has no rows; the unique index holds once it exists. */
  ghost predicate WellFormed(db: Db) {
    && (TableObject(Entries) !in db.schema ==> db.entries == map[])
    && (TableObject(Files) !in db.schema ==> db.files == map[])
    && (NamesIndex in db.schema ==> SiblingsUnique(db.entries))
  }

  // ---------------------------------------------------------------------------
  // Create: the schema script and the root seed

  /**
   * INSERT INTO entries(inode, name, parent_inode) VALUES (1, '/', 1)
   * ON CONFLICT DO NOTHING: fails only without an entries table; adds the
   * root unless inode 1 exists or another inode holds ('/', parent 1).
   */
  function SeedRoot(db: Db): (r: Option<Db>)
    ensures r.None? <==> TableObject(Entries) !in db.schema
    ensures r.Some? ==> r.value.schema == db.schema && r.value.files == db.files
    ensures r.Some? ==> r.value.entries.Keys <= db.entries.Keys + {1}
    ensures r.Some? ==> forall k :: k in db.entries ==> k in r.value.entries && r.value.entries[k] == db.entries[k]
    ensures r.Some? && 1 !in db.entries ==>
      (1 in r.value.entries <==> !(NamesIndex in db.schema && Clash(db.entries, 1, 1, "/")))
    ensures r.Some? && 1 in r.value.entries && 1 !in db.entries ==> r.value.entries[1] == RootEntry
    ensures r.Some? && WellFormed(db) ==> WellFormed(r.value)
  {
    if TableObject(Entries) !in db.schema then None
    else if 1 in db.entries || (NamesIndex in db.schema && Clash(db.entries, 1, 1, "/")) then Some(db)
    else
      var r := db.(entries := db.entries[1 := RootEntry]);
      assert NamesIndex in db.schema && WellFormed(db) ==> SiblingsUnique(r.entries) by {
        if NamesIndex in db.schema && WellFormed(db) {
          forall a, b | a in r.entries && b in r.entries && a != b
            ensures !(r.entries[a].parent == r.entries[b].parent && r.entries[a].name == r.entries[b].name)
          {
            if a != 1 && b != 1 {
              assert r.entries[a] == db.entries[a] && r.entries[b] == db.entries[b];
            }
          }
        }
      }
      Some(r)
  }

  /** Statement k of create: a schema object of the script, or (k == |Script|) the root seed. */
  function CreateStep(db: Db, k: nat, faults: set<Call>): (r: Option<Db>)
    requires k <= |Script|
    ensures r.Some? ==> Ddl(k) !in faults
    ensures k < |Script| && r.Some? ==> r.value == db.(schema := db.schema + {Script[k]})
    ensures k == |Script| && Ddl(k) !in faults ==> r == SeedRoot(db)
    ensures r.Some? && WellFormed(db) ==> WellFormed(r.value)
  {
    if Ddl(k) in faults then None
    else if k < |Script| then
      match CreateIfNotExists(db.schema, Script[k], SiblingsUnique(db.entries))
      case None => None
      case Some(schema) => Some(db.(schema := schema))
    else SeedRoot(db)
  }

  /**
   * The statements of create from k on, each run on its own: the first
   * failure ends the call, and what ran before it stays.
   */
  function CreateFrom(db: Db, k: nat, faults: set<Call>): (r: (bool, Db))
    requires k <= |Script|
    ensures r.1.files == db.files
    ensures WellFormed(db) ==> WellFormed(r.1)
    decreases |Script| - k
  {
    match CreateStep(db, k, faults)
    case None => (false, db)
    case Some(next) =>
      if k == |Script| then (true, next)
      else
        CreateFrom(next, k + 1, faults)
  }

  /**
   * The script only adds its own objects, and a create that succeeds had no
   * statement fail and leaves every object of the script in place.
   */
  lemma {:induction false} CreateSchema(db: Db, k: nat, faults: set<Call>)
    requires k <= |Script|
    ensures var r := CreateFrom(db, k, faults);
            db.schema <= r.1.schema && forall o :: o in r.1.schema ==> o in db.schema || o in Script[k..]
    ensures var r := CreateFrom(db, k, faults);
            r.0 ==> (forall j :: k <= j <= |Script| ==> Ddl(j) !in faults)
                    && (forall o :: o in Script[k..] ==> o in r.1.schema)
    decreases |Script| - k
  {
    match CreateStep(db, k, faults)
    case None =>
    case Some(next) =>
      if k < |Script| {
        CreateSchema(next, k + 1, faults);
        assert Script[k..] == [Script[k]] + Script[k + 1..];
        if CreateFrom(db, k, faults).0 {
          forall j | k <= j <= |Script| ensures Ddl(j) !in faults {
            if j > k { assert k + 1 <= j <= |Script|; }
          }
        }
      }
  }

  /**
   * Create changes entries only through the root seed: a failed create leaves
   * them as they were; a successful one keeps every row, adds at most inode 1,
   * as the root, and leaves the root present or blocked by a sibling clash.
   */
  lemma {:induction false} CreateRows(db: Db, k: nat, faults: set<Call>)
    requires k <= |Script|
    ensures var r := CreateFrom(db, k, faults);
            !r.0 ==> r.1.entries == db.entries
    ensures var r := CreateFrom(db, k, faults);
            r.0 ==> r.1.entries.Keys <= db.entries.Keys + {1}
                    && (forall i :: i in db.entries ==> i in r.1.entries && r.1.entries[i] == db.entries[i])
    ensures var r := CreateFrom(db, k, faults);
            r.0 ==> (1 in r.1.entries || Clash(r.1.entries, 1, 1, "/"))
    ensures var r := CreateFrom(db, k, faults);
            r.0 && 1 in r.1.entries && 1 !in db.entries ==> r.1.entries[1] == RootEntry
    decreases |Script| - k
  {
    match CreateStep(db, k, faults)
    case None =>
    case Some(next) =>
      if k < |Script| {
        assert next.entries == db.entries;
        CreateRows(next, k + 1, faults);
      }
  }

  /** A create that ran to the end finds nothing left to do when run again. */
  lemma {:induction false} CreateAgainChangesNothing(db: Db, k: nat, faults: set<Call>)
    requires k <= |Script|
    requires forall j :: k <= j <= |Script| ==> Ddl(j) !in faults
    requires forall o :: o in Script ==> o in db.schema
    requires 1 in db.entries || Clash(db.entries, 1, 1, "/")
    ensures CreateFrom(db, k, faults) == (true, db)
    decreases |Script| - k
  {
    if k < |Script| {
      assert Script[k] in db.schema;
      CreateAgainChangesNothing(db, k + 1, faults);
    }
  }

  /** Repeating a successful create neither adds a second root nor alters any row. */
  lemma CreateIdempotent(db: Db, faults: set<Call>)
    requires CreateFrom(db, 0, faults).0
    ensures CreateFrom(CreateFrom(db, 0, faults).1, 0, faults) == CreateFrom(db, 0, faults)
  {
    var once := CreateFrom(db, 0, faults).1;
    CreateSchema(db, 0, faults);
    CreateRows(db, 0, faults);
    assert Script[0..] == Script;
    CreateAgainChangesNothing(once, 0, faults);
  }

  // ---------------------------------------------------------------------------
  // Point statements

  /**
   * INSERT INTO entries ... ON CONFLICT(inode) DO UPDATE of all eight other
   * columns, refused by the unique (parent_inode, name) index when another
   * inode holds that pair.
   */
  function UpsertEntry(db: Db, inode: int, e: Entry): (r: Option<Db>)
    ensures r.None? <==> NamesIndex in db.schema && Clash(db.entries, inode, e.parent, e.name)
    ensures r.Some? ==> inode in r.value.entries && r.value.entries[inode] == e
    ensures r.Some? ==> forall k :: k != inode ==> (k in r.value.entries <==> k in db.entries)
    ensures r.Some? ==> forall k :: k in db.entries && k != inode ==> r.value.entries[k] == db.entries[k]
    ensures r.Some? ==> r.value.schema == db.schema && r.value.files == db.files
    ensures r.Some? && WellFormed(db) && TableObject(Entries) in db.schema ==> WellFormed(r.value)
  {
    if NamesIndex in db.schema && Clash(db.entries, inode, e.parent, e.name) then None
    else
      var r := db.(entries := db.entries[inode := e]);
      assert NamesIndex in db.schema && WellFormed(db) ==> SiblingsUnique(r.entries) by {
        if NamesIndex in db.schema && WellFormed(db) {
          forall a, b | a in r.entries && b in r.entries && a != b
            ensures !(r.entries[a].parent == r.entries[b].parent && r.entries[a].name == r.entries[b].name)
          {
            if a != inode && b != inode {
              assert r.entries[a] == db.entries[a] && r.entries[b] == db.entries[b];
            }
          }
        }
      }
      Some(r)
  }

  /** INSERT INTO files(inode, path, header) ... ON CONFLICT(inode) DO UPDATE of path and header. */
  function UpsertFile(db: Db, inode: int, f: FileRow): (r: Db)
    ensures inode in r.files && r.files[inode] == f
    ensures forall k :: k != inode ==> (k in r.files <==> k in db.files)
    ensures forall k :: k in db.files && k != inode ==> r.files[k] == db.files[k]
    ensures r.schema == db.schema && r.entries == db.entries
    ensures WellFormed(db) && TableObject(Files) in db.schema ==> WellFormed(r)
  {
    db.(files := db.files[inode := f])
  }

  /** DELETE FROM files WHERE inode = ?: that one row goes. */
  function DeleteFileRow(db: Db, inode: int): (r: Db)
    ensures inode !in r.files
    ensures forall k :: k != inode ==> (k in r.files <==> k in db.files)
    ensures forall k :: k in r.files ==> r.files[k] == db.files[k]
    ensures r.schema == db.schema && r.entries == db.entries
    ensures WellFormed(db) ==> WellFormed(r)
  {
    db.(files := db.files - {inode})
  }

  /** DELETE FROM entries WHERE inode = ?1 or parent_inode = ?1: the entry and its direct children. */
  function DeleteEntryRows(db: Db, inode: int): (r: Db)
    ensures forall k :: k in r.entries <==> k in db.entries && k != inode && db.entries[k].parent != inode
    ensures forall k :: k in r.entries ==> r.entries[k] == db.entries[k]
    ensures r.schema == db.schema && r.files == db.files
    ensures WellFormed(db) ==> WellFormed(r)
  {
    var r := db.(entries := map k | k in db.entries && k != inode && db.entries[k].parent != inode :: db.entries[k]);
    assert NamesIndex in db.schema && WellFormed(db) ==> SiblingsUnique(r.entries) by {
      if NamesIndex in db.schema && WellFormed(db) {
        forall a, b | a in r.entries && b in r.entries && a != b
          ensures !(r.entries[a].parent == r.entries[b].parent && r.entries[a].name == r.entries[b].name)
        {
          assert r.entries[a] == db.entries[a] && r.entries[b] == db.entries[b];
        }
      }
    }
    r
  }

  /** Deleting an entry leaves its grandchildren, now under a parent that is gone. */
  lemma DeleteLeavesGrandchildren(db: Db, inode: int, child: int, grandchild: int)
    requires child in db.entries && db.entries[child].parent == inode && child != inode
    requires grandchild in db.entries && db.entries[grandchild].parent == child
    requires grandchild != inode
    ensures child !in DeleteEntryRows(db, inode).entries
    ensures grandchild in DeleteEntryRows(db, inode).entries
    ensures DeleteEntryRows(db, inode).entries[grandchild].parent !in DeleteEntryRows(db, inode).entries
  {
  }

  // ---------------------------------------------------------------------------
  // Truncation by a statement text built at run time

  /** The asprintf of truncate_table: "DELETE FROM ", the table and the where clause, with no separator added. */
  function TruncateSql(table: string, whereClause: string): (r: string)
    ensures |r| == |"DELETE FROM "| + |table| + |whereClause|
    ensures r[..|"DELETE FROM "|] == "DELETE FROM "
    ensures r[|"DELETE FROM "|..] == table + whereClause
  {
    "DELETE FROM " + table + whereClause
  }

  /** The text truncate_files builds is the statement that clears files. */
  lemma TruncateFilesText()
    ensures ParseDelete(TruncateSql("files", "")) == Some(DeleteAll(Files))
  {
    assert TruncateSql("files", "") == DeleteText(DeleteAll(Files));
    ParseDeleteText(DeleteAll(Files));
  }

  /**
   * The text truncate_entries builds, "DELETE FROM entriesWHERE inode > 1",
   * is none of the statements the store understands.
   */
  lemma TruncateEntriesTextRejected()
    ensures ParseDelete(TruncateSql("entries", "WHERE inode > 1")).None?
  {
    var sql := TruncateSql("entries", "WHERE inode > 1");
    assert |sql| == 34;
    DeleteTextLengths();
  }

  /** The DELETE statements: fail without the table (there is no attributes table); otherwise delete. */
  function ApplyDelete(db: Db, d: Delete): (r: Option<Db>)
    ensures r.None? <==> d.table == ExtendedAttributes || TableObject(d.table) !in db.schema
    ensures r.Some? ==> r.value.schema == db.schema
    ensures r.Some? && d == DeleteAll(Files) ==> r.value.files == map[] && r.value.entries == db.entries
    ensures r.Some? && d == DeleteAboveRoot(Entries) ==>
      (forall k :: k in r.value.entries <==> k in db.entries && k <= 1)
      && (forall k :: k in r.value.entries ==> r.value.entries[k] == db.entries[k])
      && r.value.files == db.files
    ensures r.Some? && WellFormed(db) ==> WellFormed(r.value)
  {
    if d.table == ExtendedAttributes || TableObject(d.table) !in db.schema then None
    else
      match d
      case DeleteAll(Files) => Some(db.(files := map[]))
      case DeleteAll(Entries) => Some(db.(entries := map[]))
      case DeleteAboveRoot(Files) => Some(db.(files := map k | k in db.files && k <= 1 :: db.files[k]))
      case DeleteAboveRoot(Entries) =>
        var r := db.(entries := map k | k in db.entries && k <= 1 :: db.entries[k]);
        assert NamesIndex in db.schema && WellFormed(db) ==> SiblingsUnique(r.entries) by {
          if NamesIndex in db.schema && WellFormed(db) {
            forall a, b | a in r.entries && b in r.entries && a != b
              ensures !(r.entries[a].parent == r.entries[b].parent && r.entries[a].name == r.entries[b].name)
            {
              assert r.entries[a] == db.entries[a] && r.entries[b] == db.entries[b];
            }
          }
        }
        Some(r)
  }

  // ---------------------------------------------------------------------------
  // Bulk loading

  /** The column types insert_entries checks: all nine positions. */
  const EntryTypes: seq<ColType> := [Int8Oid, TextOid, Int8Oid, TextOid, Int8Oid, Int8Oid, Int4Oid, Int8Oid, BoolOid]

  /** The column types insert_files checks: all three positions. */
  const FileTypes: seq<ColType> := [Int8Oid, TextOid, ByteaOid]

  /** With the count at 9, the type checks pin down every column. */
  lemma EveryEntryColumnChecked(types: seq<ColType>)
    requires |types| == 9 && TypesMatch(types, EntryTypes)
    ensures types == EntryTypes
  {
  }

  /**
   * Reading an entries row detoasts a NULL: once the inode is present, the
   * name goes through DatumGetTextPP before its isnull test, and once the
   * parent is present too, decrypted_filesize goes through it with no test.
   */
  predicate EntryDerefs(row: Row) {
    Cell(row, 0).Some? && (Cell(row, 1).None? || (Cell(row, 2).Some? && Cell(row, 3).None?))
  }

  /** An entries result row read to the end: all nine fields present. */
  function EntryOfRow(row: Row): (r: Option<(int, Entry)>)
    ensures r.Some? <==> forall k :: 0 <= k < 9 ==> Cell(row, k).Some?
    ensures r.Some? ==> !EntryDerefs(row)
    ensures r.Some? ==> r.value.0 == IntAt(row, 0).value && r.value.1.name == TextAt(row, 1).value
                        && r.value.1.parent == IntAt(row, 2).value && r.value.1.decryptedSize == TextAt(row, 3)
                        && r.value.1.ctime == IntAt(row, 4).value && r.value.1.mtime == IntAt(row, 5).value
                        && r.value.1.nlink == IntAt(row, 6).value && r.value.1.size == IntAt(row, 7).value
    ensures r.Some? ==> r.value.1.isDir == (if BoolAt(row, 8).value then 1 else 0)
  {
    if forall k :: 0 <= k < 9 ==> Cell(row, k).Some? then
      var isDir := if BoolAt(row, 8).value then 1 else 0;
      Some((IntAt(row, 0).value, Entry(TextAt(row, 1).value, IntAt(row, 2).value, TextAt(row, 3),
                                       IntAt(row, 4).value, IntAt(row, 5).value, IntAt(row, 6).value,
                                       IntAt(row, 7).value, isDir)))
    else None
  }

  /**
   * Reading a files row detoasts a NULL: once the inode is present, the path
   * goes through DatumGetTextPP and the header through DatumGetByteaP, each
   * before its isnull test.
   */
  predicate FileDerefs(row: Row) {
    Cell(row, 0).Some? && (Cell(row, 1).None? || Cell(row, 2).None?)
  }

  /** A files result row: all three fields are mandatory. */
  function FileOfRow(row: Row): (r: Option<(int, FileRow)>)
    ensures r.Some? <==> Cell(row, 0).Some? && Cell(row, 1).Some? && Cell(row, 2).Some?
    ensures r.Some? ==> !FileDerefs(row)
    ensures r.Some? ==> r.value.0 == IntAt(row, 0).value
                        && r.value.1 == FileRow(TextAt(row, 1).value, BytesAt(row, 2).value)
  {
    match (IntAt(row, 0), TextAt(row, 1), BytesAt(row, 2))
    case (Some(inode), Some(path), Some(header)) => Some((inode, FileRow(path, header)))
    case _ => None
  }

  /**
   * Row j as the upsert receives it. The result of the decrypted_size bind is
   * discarded, and sqlite3_bind_text clears the parameter to NULL before it can
   * fail, so a failed bind steps the row with a NULL decrypted size.
   */
  function BoundRow(rows: seq<Row>, j: nat, faults: set<Call>): (r: (int, Entry))
    requires j < |rows| && EntryOfRow(rows[j]).Some?
    ensures r.0 == EntryOfRow(rows[j]).value.0
    ensures BindSize(j) !in faults ==> r == EntryOfRow(rows[j]).value
    ensures BindSize(j) in faults ==> r.1.decryptedSize.None?
  {
    var x := EntryOfRow(rows[j]).value;
    (x.0, x.1.(decryptedSize := if BindSize(j) in faults then None else x.1.decryptedSize))
  }

  /** The upserts from row i on, once every row from i on has its mandatory fields. */
  function BoundFrom(rows: seq<Row>, i: nat, faults: set<Call>): (r: seq<(int, Entry)>)
    requires i <= |rows|
    requires forall j :: i <= j < |rows| ==> EntryOfRow(rows[j]).Some?
    ensures |r| == |rows| - i
    ensures forall j :: i <= j < |rows| ==> r[j - i] == BoundRow(rows, j, faults)
  {
    seq(|rows| - i, k requires 0 <= k < |rows| - i => BoundRow(rows, i + k, faults))
  }

  /** Reading and binding row i; a failed decrypted_size bind leaves that parameter NULL. */
  function EntryBind(faults: set<Call>): (nat, Row) -> Bound<(int, Entry)> {
    (i: nat, row: Row) =>
      if EntryDerefs(row) then NullRead
      else
        match EntryOfRow(row)
        case None => NullField
        case Some(x) =>
          if Bind(i) in faults then BindFailed
          else if BindSize(i) in faults then Bound((x.0, x.1.(decryptedSize := None)))
          else Bound(x)
  }

  function EntryStep(faults: set<Call>): (nat, Db, (int, Entry)) -> Option<Db> {
    (i: nat, work: Db, x: (int, Entry)) => if Step(i) in faults then None else UpsertEntry(work, x.0, x.1)
  }

  function FileBind(faults: set<Call>): (nat, Row) -> Bound<(int, FileRow)> {
    (i: nat, row: Row) =>
      if FileDerefs(row) then NullRead
      else
        match FileOfRow(row)
        case None => NullField
        case Some(x) => if Bind(i) in faults then BindFailed else Bound(x)
  }

  function FileStep(faults: set<Call>): (nat, Db, (int, FileRow)) -> Option<Db> {
    (i: nat, work: Db, x: (int, FileRow)) => if Step(i) in faults then None else Some(UpsertFile(work, x.0, x.1))
  }

  /** The upserts a whole files result asks for, when no row has a NULL field. */
  function FilesOf(rows: seq<Row>): (r: Option<seq<(int, FileRow)>>)
    ensures r.Some? <==> forall i :: 0 <= i < |rows| ==> FileOfRow(rows[i]).Some?
    ensures r.Some? ==> |r.value| == |rows| && forall i :: 0 <= i < |rows| ==> r.value[i] == FileOfRow(rows[i]).value
  {
    if forall i :: 0 <= i < |rows| ==> FileOfRow(rows[i]).Some? then
      Some(seq(|rows|, i requires 0 <= i < |rows| => FileOfRow(rows[i]).value))
    else None
  }

  lemma FilesOfFrom(rows: seq<Row>, i: nat)
    requires i < |rows| && FileOfRow(rows[i]).Some? && FilesOf(rows[i + 1..]).Some?
    ensures FilesOf(rows[i..]) == Some([FileOfRow(rows[i]).value] + FilesOf(rows[i + 1..]).value)
  {
    var s := rows[i..];
    var t := rows[i + 1..];
    forall j | 0 <= j < |s| ensures FileOfRow(s[j]).Some? {
      if j > 0 { assert s[j] == t[j - 1]; }
    }
    var all := FilesOf(s).value;
    var tail := FilesOf(t).value;
    forall j | 0 <= j < |all| ensures all[j] == ([FileOfRow(rows[i]).value] + tail)[j] {
      if j > 0 { assert s[j] == t[j - 1]; }
    }
    assert all == [FileOfRow(rows[i]).value] + tail;
  }

  lemma BoundFromCons(rows: seq<Row>, i: nat, faults: set<Call>)
    requires i < |rows|
    requires forall j :: i <= j < |rows| ==> EntryOfRow(rows[j]).Some?
    ensures BoundFrom(rows, i, faults) == [BoundRow(rows, i, faults)] + BoundFrom(rows, i + 1, faults)
  {
    var all := BoundFrom(rows, i, faults);
    var tail := BoundFrom(rows, i + 1, faults);
    var head := BoundRow(rows, i, faults);
    assert |all| == |[head] + tail|;
    forall k | 0 <= k < |all| ensures all[k] == ([head] + tail)[k] {
      assert all[k] == BoundRow(rows, i + k, faults);
      if k > 0 {
        assert i + 1 <= i + k < |rows|;
        assert tail[k - 1] == BoundRow(rows, i + k, faults);
      }
    }
    assert all == [head] + tail;
  }

  /** One row of an entries loop that goes on to commit: it was read, bound as BoundRow, stepped and upserted. */
  lemma EntryRunStep(work: Db, rows: seq<Row>, i: nat, rc: int, faults: set<Call>)
    requires i < |rows|
    requires RunFrom(work, rows, i, rc, EntryBind(faults), EntryStep(faults)).0 == 0
    ensures EntryOfRow(rows[i]).Some? && Bind(i) !in faults && Step(i) !in faults
    ensures var x := BoundRow(rows, i, faults);
            UpsertEntry(work, x.0, x.1).Some?
            && RunFrom(work, rows, i, rc, EntryBind(faults), EntryStep(faults))
               == RunFrom(work.(entries := work.entries[x.0 := x.1]), rows, i + 1, 0,
                          EntryBind(faults), EntryStep(faults))
  {
    var x := BoundRow(rows, i, faults);
    assert EntryBind(faults)(i, rows[i]) == Bound(x);
    var next := UpsertEntry(work, x.0, x.1).value;
    assert next == work.(entries := work.entries[x.0 := x.1]);
  }

  /**
   * A loop over an entries result that ends with rc 0 applied every row from
   * i on, in order, each with the decrypted size bound at that point.
   */
  lemma {:induction false} EntryRunApplied(work: Db, rows: seq<Row>, i: nat, rc: int, faults: set<Call>)
    requires i <= |rows|
    requires i == |rows| ==> rc == 0
    requires RunFrom(work, rows, i, rc, EntryBind(faults), EntryStep(faults)).0 == 0
    ensures forall j :: i <= j < |rows| ==> EntryOfRow(rows[j]).Some? && Bind(j) !in faults && Step(j) !in faults
    ensures RunFrom(work, rows, i, rc, EntryBind(faults), EntryStep(faults)).1
            == work.(entries := Upserts(work.entries, BoundFrom(rows, i, faults)))
    decreases |rows| - i
  {
    if i == |rows| {
      assert BoundFrom(rows, i, faults) == [];
    } else {
      EntryRunStep(work, rows, i, rc, faults);
      var x := BoundRow(rows, i, faults);
      var next := work.(entries := work.entries[x.0 := x.1]);
      EntryRunApplied(next, rows, i + 1, 0, faults);
      EntryRunClean(work, rows, i, rc, faults);
      BoundUpsertsCons(work.entries, rows, i, faults);
    }
  }

  /** A loop over an entries result that ends with rc 0 read, bound and stepped every row from i on. */
  lemma {:induction false} EntryRunClean(work: Db, rows: seq<Row>, i: nat, rc: int, faults: set<Call>)
    requires i <= |rows|
    requires RunFrom(work, rows, i, rc, EntryBind(faults), EntryStep(faults)).0 == 0
    ensures forall j :: i <= j < |rows| ==> EntryOfRow(rows[j]).Some? && Bind(j) !in faults && Step(j) !in faults
    decreases |rows| - i
  {
    if i < |rows| {
      EntryRunStep(work, rows, i, rc, faults);
      var x := BoundRow(rows, i, faults);
      EntryRunClean(work.(entries := work.entries[x.0 := x.1]), rows, i + 1, 0, faults);
      forall j | i <= j < |rows| ensures EntryOfRow(rows[j]).Some? && Bind(j) !in faults && Step(j) !in faults {
        if j > i { assert i + 1 <= j < |rows|; }
      }
    }
  }

  /** Upserting row i's bound entry, then the rest, is upserting the bound rows from i on. */
  lemma BoundUpsertsCons(m: map<int, Entry>, rows: seq<Row>, i: nat, faults: set<Call>)
    requires i < |rows|
    requires forall j :: i <= j < |rows| ==> EntryOfRow(rows[j]).Some?
    ensures var x := BoundRow(rows, i, faults);
            Upserts(m[x.0 := x.1], BoundFrom(rows, i + 1, faults)) == Upserts(m, BoundFrom(rows, i, faults))
  {
    var x := BoundRow(rows, i, faults);
    BoundFromCons(rows, i, faults);
    UpsertsCons(m, x, BoundFrom(rows, i + 1, faults));
  }

  lemma FileRunStep(work: Db, rows: seq<Row>, i: nat, rc: int, faults: set<Call>)
    requires i < |rows|
    requires RunFrom(work, rows, i, rc, FileBind(faults), FileStep(faults)).0 == 0
    ensures FileOfRow(rows[i]).Some? && Bind(i) !in faults && Step(i) !in faults
    ensures var x := FileOfRow(rows[i]).value;
            RunFrom(work, rows, i, rc, FileBind(faults), FileStep(faults))
            == RunFrom(work.(files := work.files[x.0 := x.1]), rows, i + 1, 0,
                       FileBind(faults), FileStep(faults))
  {
  }

  lemma {:induction false} FileRunApplied(work: Db, rows: seq<Row>, i: nat, rc: int, faults: set<Call>)
    requires i <= |rows|
    requires i == |rows| ==> rc == 0
    requires RunFrom(work, rows, i, rc, FileBind(faults), FileStep(faults)).0 == 0
    ensures FilesOf(rows[i..]).Some?
    ensures forall j :: i <= j < |rows| ==> Bind(j) !in faults && Step(j) !in faults
    ensures RunFrom(work, rows, i, rc, FileBind(faults), FileStep(faults)).1
            == work.(files := Upserts(work.files, FilesOf(rows[i..]).value))
    decreases |rows| - i
  {
    if i == |rows| {
      assert rows[i..] == [];
    } else {
      FileRunStep(work, rows, i, rc, faults);
      var x := FileOfRow(rows[i]).value;
      var next := work.(files := work.files[x.0 := x.1]);
      FileRunApplied(next, rows, i + 1, 0, faults);
      forall j | i <= j < |rows| ensures Bind(j) !in faults && Step(j) !in faults {
        if j > i { assert i + 1 <= j < |rows|; }
      }
      FilesOfFrom(rows, i);
      UpsertsCons(work.files, x, FilesOf(rows[i + 1..]).value);
    }
  }

  lemma {:induction false} EntryRunWellFormed(work: Db, rows: seq<Row>, i: nat, rc: int, faults: set<Call>)
    requires i <= |rows|
    requires WellFormed(work) && TableObject(Entries) in work.schema
    ensures WellFormed(RunFrom(work, rows, i, rc, EntryBind(faults), EntryStep(faults)).1)
    decreases |rows| - i
  {
    if i < |rows| {
      match EntryBind(faults)(i, rows[i])
      case Bound(x) =>
        if Step(i) !in faults {
          match UpsertEntry(work, x.0, x.1)
          case None =>
          case Some(next) => EntryRunWellFormed(next, rows, i + 1, 0, faults);
        }
      case _ =>
    }
  }

  lemma {:induction false} FileRunWellFormed(work: Db, rows: seq<Row>, i: nat, rc: int, faults: set<Call>)
    requires i <= |rows|
    requires WellFormed(work) && TableObject(Files) in work.schema
    ensures WellFormed(RunFrom(work, rows, i, rc, FileBind(faults), FileStep(faults)).1)
    decreases |rows| - i
  {
    if i < |rows| {
      match FileOfRow(rows[i])
      case None =>
      case Some(x) =>
        if Bind(i) !in faults && Step(i) !in faults {
          FileRunWellFormed(UpsertFile(work, x.0, x.1), rows, i + 1, 0, faults);
        }
    }
  }

  /**
   * The work of insert_entries inside its transaction: the status it ends
   * with (0 commits) and the working copy.
   */
  function LoadEntries(db: Db, q: QueryResult, faults: set<Call>): (r: (int, Db))
    ensures r.0 == 0 && WellFormed(db) ==> WellFormed(r.1)
  {
    if Prepare in faults || TableObject(Entries) !in db.schema then (1, db)
    else if SpiConnect in faults then (SpiErrorConnect, db)
    else if q.Failed? then (SpiRaised, db)
    else if q.NotSelect? then (2, db)
    else if |q.types| != 9 then (3, db)
    else if !TypesMatch(q.types, EntryTypes) then (4, db)
    else
      var r := RunFrom(db, q.rows, 0, SpiOkSelect, EntryBind(faults), EntryStep(faults));
      if r.0 == 0 then
        assert WellFormed(db) ==> WellFormed(r.1) by {
          if WellFormed(db) { EntryRunWellFormed(db, q.rows, 0, SpiOkSelect, faults); }
        }
        r
      else r
  }

  /** A batch that commits passed every check, decoded, bound and stepped every row, and upserted the bound rows in order. */
  lemma EntriesCommitted(db: Db, q: QueryResult, faults: set<Call>)
    requires LoadEntries(db, q, faults).0 == 0
    ensures
      Prepare !in faults && SpiConnect !in faults && TableObject(Entries) in db.schema
      && q.Select? && q.types == EntryTypes && |q.rows| > 0
      && (forall j :: 0 <= j < |q.rows| ==> EntryOfRow(q.rows[j]).Some? && Bind(j) !in faults && Step(j) !in faults)
      && LoadEntries(db, q, faults).1 == db.(entries := Upserts(db.entries, BoundFrom(q.rows, 0, faults)))
  {
    EntryRunApplied(db, q.rows, 0, SpiOkSelect, faults);
  }

  /** The work of insert_files inside its transaction. */
  function LoadFiles(db: Db, q: QueryResult, faults: set<Call>): (r: (int, Db))
    ensures r.0 == 0 && WellFormed(db) ==> WellFormed(r.1)
  {
    if Prepare in faults || TableObject(Files) !in db.schema then (1, db)
    else if SpiConnect in faults then (SpiErrorConnect, db)
    else if q.Failed? then (SpiRaised, db)
    else if q.NotSelect? then (2, db)
    else if |q.types| != 3 then (3, db)
    else if !TypesMatch(q.types, FileTypes) then (4, db)
    else
      var r := RunFrom(db, q.rows, 0, SpiOkSelect, FileBind(faults), FileStep(faults));
      if r.0 == 0 then
        assert WellFormed(db) ==> WellFormed(r.1) by {
          if WellFormed(db) { FileRunWellFormed(db, q.rows, 0, SpiOkSelect, faults); }
        }
        r
      else r
  }

  /** A batch that commits passed every check, decoded, bound and stepped every row, and upserted the rows in order. */
  lemma FilesCommitted(db: Db, q: QueryResult, faults: set<Call>)
    requires LoadFiles(db, q, faults).0 == 0
    ensures
      Prepare !in faults && SpiConnect !in faults && TableObject(Files) in db.schema
      && q.Select? && q.types == FileTypes && |q.rows| > 0
      && FilesOf(q.rows).Some?
      && (forall j :: 0 <= j < |q.rows| ==> Bind(j) !in faults && Step(j) !in faults)
      && LoadFiles(db, q, faults).1 == db.(files := Upserts(db.files, FilesOf(q.rows).value))
  {
    FileRunApplied(db, q.rows, 0, SpiOkSelect, faults);
    assert q.rows[0..] == q.rows;
  }

  /**
   * A bulk load escapes with an ERROR exactly when it gets past the prepare
   * and SPI_connect and the query then fails inside SPI_execute.
   */
  lemma QueryErrorRaises(db: Db, q: QueryResult, faults: set<Call>)
    ensures LoadEntries(db, q, faults).0 == SpiRaised <==>
      Prepare !in faults && TableObject(Entries) in db.schema && SpiConnect !in faults && q.Failed?
    ensures LoadFiles(db, q, faults).0 == SpiRaised <==>
      Prepare !in faults && TableObject(Files) in db.schema && SpiConnect !in faults && q.Failed?
  {
  }

  /** The store a bulk call leaves when its COMMIT or ROLLBACK goes through. */
  function Settle(db: Db, r: (int, Db)): Db {
    if r.0 == 0 then r.1 else db
  }

  /** After a commit, a row whose inode no later row repeats is stored as it was bound. */
  lemma LastBoundWins(db: Db, q: QueryResult, faults: set<Call>, j: nat)
    requires LoadEntries(db, q, faults).0 == 0
    requires q.Select? && j < |q.rows|
    requires forall j' :: j < j' < |q.rows| ==> IntAt(q.rows[j'], 0) != IntAt(q.rows[j], 0)
    ensures EntryOfRow(q.rows[j]).Some?
    ensures var x := BoundRow(q.rows, j, faults);
            x.0 in LoadEntries(db, q, faults).1.entries && LoadEntries(db, q, faults).1.entries[x.0] == x.1
  {
    EntriesCommitted(db, q, faults);
    var s := BoundFrom(q.rows, 0, faults);
    forall j' | j < j' < |s| ensures s[j'].0 != s[j].0 {
      assert s[j'] == BoundRow(q.rows, j', faults) && s[j] == BoundRow(q.rows, j, faults);
      assert s[j'].0 == IntAt(q.rows[j'], 0).value;
    }
    UpsertsLastWins(db.entries, s, j);
    assert s[j] == BoundRow(q.rows, j, faults);
  }

  /** With every decrypted_size bind going through, a committed batch stores the rows exactly as read. */
  lemma CommittedRowsAsRead(db: Db, q: QueryResult, faults: set<Call>, j: nat)
    requires LoadEntries(db, q, faults).0 == 0
    requires j < |q.rows| && BindSize(j) !in faults
    requires forall j' :: j < j' < |q.rows| ==> IntAt(q.rows[j'], 0) != IntAt(q.rows[j], 0)
    ensures EntryOfRow(q.rows[j]).Some?
    ensures var x := EntryOfRow(q.rows[j]).value;
            x.0 in LoadEntries(db, q, faults).1.entries && LoadEntries(db, q, faults).1.entries[x.0] == x.1
  {
    EntriesCommitted(db, q, faults);
    LastBoundWins(db, q, faults, j);
  }

  /**
   * A failed decrypted_size bind does not stop the batch: the row is stored
   * with a NULL decrypted size and every other field as read.
   */
  lemma FailedSizeBindStoresNull(db: Db, q: QueryResult, faults: set<Call>, j: nat)
    requires LoadEntries(db, q, faults).0 == 0
    requires j < |q.rows| && BindSize(j) in faults
    requires forall j' :: j < j' < |q.rows| ==> IntAt(q.rows[j'], 0) != IntAt(q.rows[j], 0)
    ensures EntryOfRow(q.rows[j]).Some?
    ensures var x := EntryOfRow(q.rows[j]).value;
            x.0 in LoadEntries(db, q, faults).1.entries
            && LoadEntries(db, q, faults).1.entries[x.0] == x.1.(decryptedSize := None)
  {
    EntriesCommitted(db, q, faults);
    LastBoundWins(db, q, faults, j);
  }

  /** Running the same insert_entries twice leaves the store as running it once did. */
  lemma EntriesLoadIdempotent(db: Db, q: QueryResult, faults: set<Call>)
    ensures var once := Settle(db, LoadEntries(db, q, faults));
            Settle(once, LoadEntries(once, q, faults)) == once
  {
    var r := LoadEntries(db, q, faults);
    if r.0 == 0 {
      var r2 := LoadEntries(r.1, q, faults);
      if r2.0 == 0 {
        EntriesCommitted(db, q, faults);
        EntriesCommitted(r.1, q, faults);
        UpsertsIdempotent(db.entries, BoundFrom(q.rows, 0, faults));
      }
    }
  }

  lemma FilesLoadIdempotent(db: Db, q: QueryResult, faults: set<Call>)
    ensures var once := Settle(db, LoadFiles(db, q, faults));
            Settle(once, LoadFiles(once, q, faults)) == once
  {
    var r := LoadFiles(db, q, faults);
    if r.0 == 0 {
      var r2 := LoadFiles(r.1, q, faults);
      if r2.0 == 0 {
        FilesCommitted(db, q, faults);
        FilesCommitted(r.1, q, faults);
        UpsertsIdempotent(db.files, FilesOf(q.rows).value);
      }
    }
  }

  /** One row with a NULL field, anywhere in the result, keeps the whole batch from committing. */
  lemma NullFieldNeverCommits(db: Db, q: QueryResult, faults: set<Call>, j: nat, k: nat)
    requires q.Select? && j < |q.rows| && k < 9 && Cell(q.rows[j], k).None?
    ensures LoadEntries(db, q, faults).0 != 0
    ensures Settle(db, LoadEntries(db, q, faults)) == db
  {
    assert EntryOfRow(q.rows[j]).None?;
    if LoadEntries(db, q, faults).0 == 0 {
      EntriesCommitted(db, q, faults);
      assert false;
    }
  }

  /**
   * The first row that does not go through decides how insert_entries ends:
   * once the checks passed and the rows before j went through, a row j that
   * detoasts a NULL name or decrypted_filesize is undefined behaviour, a row
   * j with another NULL field rolls back with rc 1, and a failed bind with rc 6.
   */
  lemma EntryRowDecides(db: Db, q: QueryResult, faults: set<Call>, j: nat)
    requires q.Select? && j < |q.rows|
    requires LoadEntries(db, Select(q.types, q.rows[..j]), faults).0 in {0, SpiOkSelect}
    ensures EntryDerefs(q.rows[j]) ==> LoadEntries(db, q, faults).0 == NullDeref
    ensures !EntryDerefs(q.rows[j]) && EntryOfRow(q.rows[j]).None? ==> LoadEntries(db, q, faults).0 == 1
    ensures EntryOfRow(q.rows[j]).Some? && Bind(j) in faults ==> LoadEntries(db, q, faults).0 == 6
  {
    RunSplit(db, q.rows, 0, j, SpiOkSelect, EntryBind(faults), EntryStep(faults));
  }

  /** The same for insert_files: a NULL path or header is undefined behaviour, a NULL inode rolls back. */
  lemma FileRowDecides(db: Db, q: QueryResult, faults: set<Call>, j: nat)
    requires q.Select? && j < |q.rows|
    requires LoadFiles(db, Select(q.types, q.rows[..j]), faults).0 in {0, SpiOkSelect}
    ensures FileDerefs(q.rows[j]) ==> LoadFiles(db, q, faults).0 == NullDeref
    ensures Cell(q.rows[j], 0).None? ==> LoadFiles(db, q, faults).0 == 1
    ensures FileOfRow(q.rows[j]).Some? && Bind(j) in faults ==> LoadFiles(db, q, faults).0 == 6
  {
    RunSplit(db, q.rows, 0, j, SpiOkSelect, FileBind(faults), FileStep(faults));
  }

  /** insert_entries ends in undefined behaviour only on a row that detoasts a NULL. */
  lemma EntryDerefHasCause(db: Db, q: QueryResult, faults: set<Call>)
    requires LoadEntries(db, q, faults).0 == NullDeref
    ensures q.Select? && exists j :: 0 <= j < |q.rows| && EntryDerefs(q.rows[j])
  {
    RunDerefHasCause(db, q.rows, 0, SpiOkSelect, EntryBind(faults), EntryStep(faults));
    var j :| 0 <= j < |q.rows| && EntryBind(faults)(j, q.rows[j]).NullRead?;
    assert EntryDerefs(q.rows[j]);
  }

  /** insert_files ends in undefined behaviour only on a row that detoasts a NULL. */
  lemma FileDerefHasCause(db: Db, q: QueryResult, faults: set<Call>)
    requires LoadFiles(db, q, faults).0 == NullDeref
    ensures q.Select? && exists j :: 0 <= j < |q.rows| && FileDerefs(q.rows[j])
  {
    RunDerefHasCause(db, q.rows, 0, SpiOkSelect, FileBind(faults), FileStep(faults));
    var j :| 0 <= j < |q.rows| && FileBind(faults)(j, q.rows[j]).NullRead?;
    assert FileDerefs(q.rows[j]);
  }

  /**
   * The work between BEGIN and the final COMMIT or ROLLBACK of
   * insert_entries, on a working copy of the store: the checks on the
   * result, then the per-row loop. `rc` decides COMMIT (0) or ROLLBACK.
   */
  method EntriesBatch(db: Db, q: QueryResult, faults: set<Call>) returns (rc: int, work: Db)
    ensures (rc, work) == LoadEntries(db, q, faults)
    ensures rc == 0 && WellFormed(db) ==> WellFormed(work)
  {
    work := db;
    if Prepare in faults || TableObject(Entries) !in db.schema {
      rc := 1;
    } else if SpiConnect in faults {
      rc := SpiErrorConnect;
    } else if q.Failed? {
      rc := SpiRaised;
    } else if q.NotSelect? {
      rc := 2;
    } else if |q.types| != 9 {
      rc := 3;
    } else if !TypesMatch(q.types, EntryTypes) {
      rc := 4;
    } else {
      rc, work := RunRows(db, q.rows, SpiOkSelect, EntryBind(faults), EntryStep(faults));
    }
  }

  /** The work between BEGIN and the final COMMIT or ROLLBACK of insert_files. */
  method FilesBatch(db: Db, q: QueryResult, faults: set<Call>) returns (rc: int, work: Db)
    ensures (rc, work) == LoadFiles(db, q, faults)
    ensures rc == 0 && WellFormed(db) ==> WellFormed(work)
  {
    work := db;
    if Prepare in faults || TableObject(Files) !in db.schema {
      rc := 1;
    } else if SpiConnect in faults {
      rc := SpiErrorConnect;
    } else if q.Failed? {
      rc := SpiRaised;
    } else if q.NotSelect? {
      rc := 2;
    } else if |q.types| != 3 {
      rc := 3;
    } else if !TypesMatch(q.types, FileTypes) {
      rc := 4;
    } else {
      rc, work := RunRows(db, q.rows, SpiOkSelect, FileBind(faults), FileStep(faults));
    }
  }

  // ---------------------------------------------------------------------------
  // The extension: the setting and the store files

  class Extension {
    /** PostgreSQL's data directory. */
    const dataDir: string
    /** canonicalize_path, which is outside this model. */
    const canonicalize: string -> string
    /** The sqlite_fs.location setting (NULL until set). */
    var location: Option<string>
    /** The store files, by canonical path. */
    var disk: map<string, Db>

    ghost predicate Valid()
      reads this
    {
      forall p :: p in disk ==> WellFormed(disk[p])
    }

    /** The store at p as sqlite3_open finds it, creating an empty one if absent. */
    function StoreAt(p: string): Db
      reads this
    {
      if p in disk then disk[p] else Empty
    }

    /** Writing a well-formed store at p keeps every store well formed. */
    method Save(p: string, db: Db)
      requires Valid() && WellFormed(db)
      modifies this`disk
      ensures Valid() && disk == old(disk)[p := db]
    {
      disk := disk[p := db];
    }

    constructor (dataDir: string, canonicalize: string -> string, disk: map<string, Db>)
      requires forall p :: p in disk ==> WellFormed(disk[p])
      ensures Valid()
      ensures this.dataDir == dataDir && this.canonicalize == canonicalize
      ensures this.disk == disk && location == None
    {
      this.dataDir := dataDir;
      this.canonicalize := canonicalize;
      this.disk := disk;
      location := None;
    }

    /** Setting sqlite_fs.location: the same check hook as the newer version. */
    method Configure(newval: Option<string>, source: GucSource) returns (accepted: bool)
      modifies this`location
      ensures var h := CheckHook(newval, source, dataDir, canonicalize);
              accepted == h.accept && location == (if h.accept then h.newval else old(location))
      ensures accepted && source == ConfigFile ==>
              location.Some? && IsAbsolute(newval.value) && !PathIsPrefix(dataDir, location.value)
    {
      var h := CheckHook(newval, source, dataDir, canonicalize);
      accepted := h.accept;
      if accepted {
        location := h.newval;
      }
    }

    /** pg_sqlite_fs_create: open (creating) the store, run the schema script and seed the root. */
    method Create(path: Option<string>, faults: set<Call>) returns (out: Outcome)
      requires Valid()
      modifies this`disk
      ensures Valid()
      ensures path.None? ==> out == Raised && disk == old(disk)
      ensures path.Some? ==>
        var chk := LegacyCheckPath(path.value, location, canonicalize);
        if chk.Undefined? then out == Outcome.Undefined && disk == old(disk)
        else if chk.Refused? then out == Raised && disk == old(disk)
        else if Open in faults then out == Returned(false) && disk == old(disk)
        else
          var r := CreateFrom(old(StoreAt(chk.path)), 0, faults);
          out == Returned(r.0) && disk == old(disk)[chk.path := r.1]
    {
      if path.None? {
        return Raised;
      }
      var chk := LegacyCheckPath(path.value, location, canonicalize);
      if chk.Undefined? {
        return Outcome.Undefined;
      }
      if chk.Refused? {
        return Raised;
      }
      var p := chk.path;
      if Open in faults {
        return Returned(false);
      }
      var r := CreateFrom(StoreAt(p), 0, faults);
      disk := disk[p := r.1];
      return Returned(r.0);
    }

    /** pg_sqlite_fs_remove: unlink the store file. */
    method Remove(path: Option<string>, faults: set<Call>) returns (out: Outcome)
      requires Valid()
      modifies this`disk
      ensures Valid()
      ensures path.None? ==> out == Raised && disk == old(disk)
      ensures path.Some? ==>
        var chk := LegacyCheckPath(path.value, location, canonicalize);
        if chk.Undefined? then out == Outcome.Undefined && disk == old(disk)
        else if chk.Refused? then out == Raised && disk == old(disk)
        else if chk.path !in old(disk) || Unlink in faults then out == Returned(false) && disk == old(disk)
        else out == Returned(true) && disk == old(disk) - {chk.path}
    {
      if path.None? {
        return Raised;
      }
      var chk := LegacyCheckPath(path.value, location, canonicalize);
      if chk.Undefined? {
        return Outcome.Undefined;
      }
      if chk.Refused? {
        return Raised;
      }
      var p := chk.path;
      if p !in disk || Unlink in faults {
        return Returned(false);
      }
      disk := disk - {p};
      return Returned(true);
    }

    /** pg_sqlite_fs_insert_file: upsert (inode, path, header); a NULL argument raises. */
    method InsertFile(path: Option<string>, inode: Option<int>, filePath: Option<string>, header: Option<Bytes>,
                      faults: set<Call>)
      returns (out: Outcome)
      requires Valid()
      modifies this`disk
      ensures Valid()
      ensures path.None? || inode.None? || filePath.None? || header.None? ==> out == Raised && disk == old(disk)
      ensures path.Some? && inode.Some? && filePath.Some? && header.Some? ==>
        var chk := LegacyCheckPath(path.value, location, canonicalize);
        if chk.Undefined? then out == Outcome.Undefined && disk == old(disk)
        else if chk.Refused? then out == Raised && disk == old(disk)
        else if Open in faults then out == Returned(false) && disk == old(disk)
        else
          var db := old(StoreAt(chk.path));
          var ok := Prepare !in faults && TableObject(Files) in db.schema && Bind(0) !in faults && Step(0) !in faults;
          out == Returned(ok)
          && disk == old(disk)[chk.path := if ok then UpsertFile(db, inode.value, FileRow(filePath.value, header.value)) else db]
    {
      if path.None? || inode.None? || filePath.None? || header.None? {
        return Raised;
      }
      var chk := LegacyCheckPath(path.value, location, canonicalize);
      if chk.Undefined? {
        return Outcome.Undefined;
      }
      if chk.Refused? {
        return Raised;
      }
      var p := chk.path;
      if Open in faults {
        return Returned(false);
      }
      var db := StoreAt(p);
      disk := disk[p := db];
      if Prepare in faults || TableObject(Files) !in db.schema {
        return Returned(false);
      }
      if Bind(0) in faults {
        return Returned(false);
      }
      if Step(0) in faults {
        return Returned(false);
      }
      disk := disk[p := UpsertFile(db, inode.value, FileRow(filePath.value, header.value))];
      return Returned(true);
    }

    /**
     * pg_sqlite_fs_insert_entry: upsert one entries row. The path, inode, name
     * and parent must not be NULL; a NULL decrypted size binds NULL.
     */
    method InsertEntry(path: Option<string>, inode: Option<int>, name: Option<string>, parent: Option<int>,
                       decryptedSize: Option<string>, ctime: int, mtime: int, nlink: int, size: int, isDir: bool,
                       faults: set<Call>)
      returns (out: Outcome)
      requires Valid()
      modifies this`disk
      ensures Valid()
      ensures path.None? || inode.None? || name.None? || parent.None? ==> out == Raised && disk == old(disk)
      ensures path.Some? && inode.Some? && name.Some? && parent.Some? ==>
        var chk := LegacyCheckPath(path.value, location, canonicalize);
        if chk.Undefined? then out == Outcome.Undefined && disk == old(disk)
        else if chk.Refused? then out == Raised && disk == old(disk)
        else if Open in faults then out == Returned(false) && disk == old(disk)
        else
          var db := old(StoreAt(chk.path));
          var e := Entry(name.value, parent.value, decryptedSize, ctime, mtime, nlink, size, if isDir then 1 else 0);
          var r := UpsertEntry(db, inode.value, e);
          var ok := Prepare !in faults && TableObject(Entries) in db.schema && Bind(0) !in faults
                    && Step(0) !in faults && r.Some?;
          out == Returned(ok) && disk == old(disk)[chk.path := if ok then r.value else db]
    {
      if path.None? || inode.None? || name.None? || parent.None? {
        return Raised;
      }
      var chk := LegacyCheckPath(path.value, location, canonicalize);
      if chk.Undefined? {
        return Outcome.Undefined;
      }
      if chk.Refused? {
        return Raised;
      }
      var p := chk.path;
      if Open in faults {
        return Returned(false);
      }
      var db := StoreAt(p);
      disk := disk[p := db];
      if Prepare in faults || TableObject(Entries) !in db.schema {
        return Returned(false);
      }
      if Bind(0) in faults {
        return Returned(false);
      }
      var e := Entry(name.value, parent.value, decryptedSize, ctime, mtime, nlink, size, if isDir then 1 else 0);
      var r := UpsertEntry(db, inode.value, e);
      if Step(0) in faults || r.None? {
        return Returned(false);
      }
      disk := disk[p := r.value];
      return Returned(true);
    }

    /** pg_sqlite_fs_delete_file: a failed step still returns true. */
    method DeleteFile(path: Option<string>, inode: int, faults: set<Call>) returns (out: Outcome)
      requires Valid()
      modifies this`disk
      ensures Valid()
      ensures path.None? ==> out == Outcome.Undefined && disk == old(disk)
      ensures path.Some? ==> var chk := LegacyCheckPath(path.value, location, canonicalize);
        if chk.Undefined? then out == Outcome.Undefined && disk == old(disk)
        else if chk.Refused? || chk.path !in old(disk) || Open in faults then out == Raised && disk == old(disk)
        else
          var db := old(disk)[chk.path];
          if Prepare in faults || TableObject(Files) !in db.schema || Bind(0) in faults then
            out == Returned(false) && disk == old(disk)
          else if Step(0) in faults then out == Returned(true) && disk == old(disk)
          else out == Returned(true) && disk == old(disk)[chk.path := DeleteFileRow(db, inode)]
    {
      if path.None? {
        return Outcome.Undefined;
      }
      var chk := LegacyCheckPath(path.value, location, canonicalize);
      if chk.Undefined? {
        return Outcome.Undefined;
      }
      if chk.Refused? {
        return Raised;
      }
      var p := chk.path;
      if p !in disk || Open in faults {
        return Raised;
      }
      var db := disk[p];
      if Prepare in faults || TableObject(Files) !in db.schema || Bind(0) in faults {
        return Returned(false);
      }
      if Step(0) in faults {
        return Returned(true);
      }
      disk := disk[p := DeleteFileRow(db, inode)];
      return Returned(true);
    }

    /** pg_sqlite_fs_delete_entry: delete an entry and its direct children. */
    method DeleteEntry(path: Option<string>, inode: int, faults: set<Call>) returns (out: Outcome)
      requires Valid()
      modifies this`disk
      ensures Valid()
      ensures path.None? ==> out == Outcome.Undefined && disk == old(disk)
      ensures path.Some? ==> var chk := LegacyCheckPath(path.value, location, canonicalize);
        if chk.Undefined? then out == Outcome.Undefined && disk == old(disk)
        else if chk.Refused? || chk.path !in old(disk) || Open in faults then out == Raised && disk == old(disk)
        else
          var db := old(disk)[chk.path];
          if Prepare in faults || TableObject(Entries) !in db.schema || Bind(0) in faults || Step(0) in faults then
            out == Returned(false) && disk == old(disk)
          else out == Returned(true) && disk == old(disk)[chk.path := DeleteEntryRows(db, inode)]
    {
      if path.None? {
        return Outcome.Undefined;
      }
      var chk := LegacyCheckPath(path.value, location, canonicalize);
      if chk.Undefined? {
        return Outcome.Undefined;
      }
      if chk.Refused? {
        return Raised;
      }
      var p := chk.path;
      if p !in disk || Open in faults {
        return Raised;
      }
      var db := disk[p];
      if Prepare in faults || TableObject(Entries) !in db.schema || Bind(0) in faults {
        return Returned(false);
      }
      if Step(0) in faults {
        return Returned(false);
      }
      disk := disk[p := DeleteEntryRows(db, inode)];
      return Returned(true);
    }

    /**
     * pg_sqlite_fs_truncate_table: build "DELETE FROM <table><where>" (a failed
     * allocation returns false) and execute it on an existing store.
     */
    method TruncateTable(path: Option<string>, table: string, whereClause: string, faults: set<Call>) returns (out: Outcome)
      requires Valid()
      modifies this`disk
      ensures Valid()
      ensures path.None? ==> out == Outcome.Undefined && disk == old(disk)
      ensures path.Some? ==> var chk := LegacyCheckPath(path.value, location, canonicalize);
        if chk.Undefined? then out == Outcome.Undefined && disk == old(disk)
        else if chk.Refused? || chk.path !in old(disk) || Open in faults then out == Raised && disk == old(disk)
        else
          var d := ParseDelete(TruncateSql(table, whereClause));
          var db := old(disk)[chk.path];
          if Alloc in faults || Exec in faults || d.None? || ApplyDelete(db, d.value).None? then
            out == Returned(false) && disk == old(disk)
          else out == Returned(true) && disk == old(disk)[chk.path := ApplyDelete(db, d.value).value]
    {
      if path.None? {
        return Outcome.Undefined;
      }
      var chk := LegacyCheckPath(path.value, location, canonicalize);
      if chk.Undefined? {
        return Outcome.Undefined;
      }
      if chk.Refused? {
        return Raised;
      }
      var p := chk.path;
      if p !in disk || Open in faults {
        return Raised;
      }
      var db := disk[p];
      if Alloc in faults {
        return Returned(false);
      }
      var sql := TruncateSql(table, whereClause);
      var d := ParseDelete(sql);
      if Exec in faults || d.None? {
        return Returned(false);
      }
      var r := ApplyDelete(db, d.value);
      if r.None? {
        return Returned(false);
      }
      disk := disk[p := r.value];
      return Returned(true);
    }

    /** pg_sqlite_fs_truncate_entries: its statement text is rejected, so it deletes nothing and returns false. */
    method TruncateEntries(path: Option<string>, faults: set<Call>) returns (out: Outcome)
      requires Valid()
      modifies this`disk
      ensures Valid()
      ensures disk == old(disk)
      ensures path.None? ==> out == Outcome.Undefined
      ensures path.Some? ==> var chk := LegacyCheckPath(path.value, location, canonicalize);
        if chk.Undefined? then out == Outcome.Undefined
        else if chk.Refused? || chk.path !in old(disk) || Open in faults then out == Raised
        else out == Returned(false)
    {
      TruncateEntriesTextRejected();
      out := TruncateTable(path, "entries", "WHERE inode > 1", faults);
    }

    /** pg_sqlite_fs_truncate_files: delete every files row. */
    method TruncateFiles(path: Option<string>, faults: set<Call>) returns (out: Outcome)
      requires Valid()
      modifies this`disk
      ensures Valid()
      ensures path.None? ==> out == Outcome.Undefined && disk == old(disk)
      ensures path.Some? ==> var chk := LegacyCheckPath(path.value, location, canonicalize);
        if chk.Undefined? then out == Outcome.Undefined && disk == old(disk)
        else if chk.Refused? || chk.path !in old(disk) || Open in faults then out == Raised && disk == old(disk)
        else
          var db := old(disk)[chk.path];
          if Alloc in faults || Exec in faults || TableObject(Files) !in db.schema then
            out == Returned(false) && disk == old(disk)
          else out == Returned(true) && disk == old(disk)[chk.path := db.(files := map[])]
    {
      TruncateFilesText();
      out := TruncateTable(path, "files", "", faults);
    }

    /**
     * pg_sqlite_fs_insert_entries: stream the rows of a query result into
     * entries inside one transaction; true whenever COMMIT or ROLLBACK goes through.
     */
    method InsertEntries(path: Option<string>, query: Option<QueryResult>, faults: set<Call>)
      returns (out: Outcome)
      requires Valid()
      requires query.Some? ==> WellTyped(query.value)
      modifies this`disk
      ensures Valid()
      ensures path.None? || query.None? ==> out == Raised && disk == old(disk)
      ensures path.Some? && query.Some? ==>
        var chk := LegacyCheckPath(path.value, location, canonicalize);
        if chk.Undefined? then out == Outcome.Undefined && disk == old(disk)
        else if chk.Refused? then out == Raised && disk == old(disk)
        else if Open in faults then out == Returned(false) && disk == old(disk)
        else
          var db := old(StoreAt(chk.path));
          if Begin in faults then out == Returned(false) && disk == old(disk)[chk.path := db]
          else
            var r := LoadEntries(db, query.value, faults);
            if r.0 == SpiRaised then out == Raised && disk == old(disk)[chk.path := db]
            else if r.0 == NullDeref then out == Outcome.Undefined && disk == old(disk)[chk.path := db]
            else
              out == Returned(EndTxn !in faults)
              && disk == old(disk)[chk.path := if EndTxn in faults then db else Settle(db, r)]
    {
      if path.None? || query.None? {
        return Raised;
      }
      var chk := LegacyCheckPath(path.value, location, canonicalize);
      if chk.Undefined? {
        return Outcome.Undefined;
      }
      if chk.Refused? {
        return Raised;
      }
      out := TransactEntries(chk.path, query.value, faults);
    }

    /** The part of insert_entries after the path check: open, BEGIN, the batch, then COMMIT or ROLLBACK. */
    method TransactEntries(p: string, q: QueryResult, faults: set<Call>) returns (out: Outcome)
      requires Valid()
      modifies this`disk
      ensures Valid()
      ensures Open in faults ==> out == Returned(false) && disk == old(disk)
      ensures Open !in faults && Begin !in faults && LoadEntries(old(StoreAt(p)), q, faults).0 == SpiRaised ==>
        out == Raised && disk == old(disk)[p := old(StoreAt(p))]
      ensures Open !in faults && Begin !in faults && LoadEntries(old(StoreAt(p)), q, faults).0 == NullDeref ==>
        out == Outcome.Undefined && disk == old(disk)[p := old(StoreAt(p))]
      ensures Open !in faults && (Begin in faults || (EndTxn in faults && LoadEntries(old(StoreAt(p)), q, faults).0 !in {SpiRaised, NullDeref})) ==>
        out == Returned(false) && disk == old(disk)[p := old(StoreAt(p))]
      ensures Open !in faults && Begin !in faults && EndTxn !in faults && LoadEntries(old(StoreAt(p)), q, faults).0 !in {SpiRaised, NullDeref} ==>
        out == Returned(true) && disk == old(disk)[p := Settle(old(StoreAt(p)), LoadEntries(old(StoreAt(p)), q, faults))]
    {
      if Open in faults {
        return Returned(false);
      }
      var db := StoreAt(p);
      Save(p, db);
      if Begin in faults {
        return Returned(false);
      }
      out := CommitEntries(p, db, q, faults);
    }

    /** After BEGIN on the store db at p: the batch, then COMMIT (status 0) or ROLLBACK; true once either goes through. */
    method CommitEntries(p: string, db: Db, q: QueryResult, faults: set<Call>) returns (out: Outcome)
      requires Valid() && p in disk && disk[p] == db
      modifies this`disk
      ensures Valid()
      ensures LoadEntries(db, q, faults).0 == SpiRaised ==> out == Raised && disk == old(disk)
      ensures LoadEntries(db, q, faults).0 == NullDeref ==> out == Outcome.Undefined && disk == old(disk)
      ensures LoadEntries(db, q, faults).0 !in {SpiRaised, NullDeref} && EndTxn in faults ==> out == Returned(false) && disk == old(disk)
      ensures LoadEntries(db, q, faults).0 !in {SpiRaised, NullDeref} && EndTxn !in faults ==>
        out == Returned(true) && disk == old(disk)[p := Settle(db, LoadEntries(db, q, faults))]
    {
      var rc, work := EntriesBatch(db, q, faults);
      if rc == SpiRaised {
        return Raised;
      }
      if rc == NullDeref {
        return Outcome.Undefined;
      }
      if EndTxn in faults {
        return Returned(false);
      }
      if rc == 0 {
        Save(p, work);
      } else {
        assert disk == disk[p := db];
      }
      return Returned(true);
    }

    /** pg_sqlite_fs_insert_files: stream (inode, path, header) rows into files inside one transaction. */
    method InsertFiles(path: Option<string>, query: Option<QueryResult>, faults: set<Call>)
      returns (out: Outcome)
      requires Valid()
      requires query.Some? ==> WellTyped(query.value)
      modifies this`disk
      ensures Valid()
      ensures path.None? || query.None? ==> out == Raised && disk == old(disk)
      ensures path.Some? && query.Some? ==>
        var chk := LegacyCheckPath(path.value, location, canonicalize);
        if chk.Undefined? then out == Outcome.Undefined && disk == old(disk)
        else if chk.Refused? then out == Raised && disk == old(disk)
        else if Open in faults then out == Returned(false) && disk == old(disk)
        else
          var db := old(StoreAt(chk.path));
          if Begin in faults then out == Returned(false) && disk == old(disk)[chk.path := db]
          else
            var r := LoadFiles(db, query.value, faults);
            if r.0 == SpiRaised then out == Raised && disk == old(disk)[chk.path := db]
            else if r.0 == NullDeref then out == Outcome.Undefined && disk == old(disk)[chk.path := db]
            else
              out == Returned(EndTxn !in faults)
              && disk == old(disk)[chk.path := if EndTxn in faults then db else Settle(db, r)]
    {
      if path.None? || query.None? {
        return Raised;
      }
      var chk := LegacyCheckPath(path.value, location, canonicalize);
      if chk.Undefined? {
        return Outcome.Undefined;
      }
      if chk.Refused? {
        return Raised;
      }
      out := TransactFiles(chk.path, query.value, faults);
    }

    /** The part of insert_files after the path check: open, BEGIN, the batch, then COMMIT or ROLLBACK. */
    method TransactFiles(p: string, q: QueryResult, faults: set<Call>) returns (out: Outcome)
      requires Valid()
      modifies this`disk
      ensures Valid()
      ensures Open in faults ==> out == Returned(false) && disk == old(disk)
      ensures Open !in faults && Begin !in faults && LoadFiles(old(StoreAt(p)), q, faults).0 == SpiRaised ==>
        out == Raised && disk == old(disk)[p := old(StoreAt(p))]
      ensures Open !in faults && Begin !in faults && LoadFiles(old(StoreAt(p)), q, faults).0 == NullDeref ==>
        out == Outcome.Undefined && disk == old(disk)[p := old(StoreAt(p))]
      ensures Open !in faults && (Begin in faults || (EndTxn in faults && LoadFiles(old(StoreAt(p)), q, faults).0 !in {SpiRaised, NullDeref})) ==>
        out == Returned(false) && disk == old(disk)[p := old(StoreAt(p))]
      ensures Open !in faults && Begin !in faults && EndTxn !in faults && LoadFiles(old(StoreAt(p)), q, faults).0 !in {SpiRaised, NullDeref} ==>
        out == Returned(true) && disk == old(disk)[p := Settle(old(StoreAt(p)), LoadFiles(old(StoreAt(p)), q, faults))]
    {
      if Open in faults {
        return Returned(false);
      }
      var db := StoreAt(p);
      Save(p, db);
      if Begin in faults {
        return Returned(false);
      }
      out := CommitFiles(p, db, q, faults);
    }

    /** After BEGIN on the store db at p: the batch, then COMMIT (status 0) or ROLLBACK; true once either goes through. */
    method CommitFiles(p: string, db: Db, q: QueryResult, faults: set<Call>) returns (out: Outcome)
      requires Valid() && p in disk && disk[p] == db
      modifies this`disk
      ensures Valid()
      ensures LoadFiles(db, q, faults).0 == SpiRaised ==> out == Raised && disk == old(disk)
      ensures LoadFiles(db, q, faults).0 == NullDeref ==> out == Outcome.Undefined && disk == old(disk)
      ensures LoadFiles(db, q, faults).0 !in {SpiRaised, NullDeref} && EndTxn in faults ==> out == Returned(false) && disk == old(disk)
      ensures LoadFiles(db, q, faults).0 !in {SpiRaised, NullDeref} && EndTxn !in faults ==>
        out == Returned(true) && disk == old(disk)[p := Settle(db, LoadFiles(db, q, faults))]
    {
      var rc, work := FilesBatch(db, q, faults);
      if rc == SpiRaised {
        return Raised;
      }
      if rc == NullDeref {
        return Outcome.Undefined;
      }
      if EndTxn in faults {
        return Returned(false);
      }
      if rc == 0 {
        Save(p, work);
      } else {
        assert disk == disk[p := db];
      }
      return Returned(true);
    }
  }
}
