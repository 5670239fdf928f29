/**
 * The newer extension (src/pg.c): per-tenant SQLite stores holding `entries`
 * (the directory tree), `files` (where each payload lives) and
 * `extended_attributes`, and the SQL-callable functions that create, remove,
 * mutate and bulk-load them.
 *
 * A store file is a value of `Db`; each fixed SQL statement the code issues is
 * a function on it. The `Extension` class holds what the functions act on:
 * the `sqlite_fs.location` setting and the store files by canonical path.
 */
module PgFs {
  import opened Wrappers
  import opened Guard
  import opened Engine

  // ---------------------------------------------------------------------------
  // The store

  /** A row of `entries`, keyed by inode; is_dir is stored as 1 or 0. */
  datatype Entry = Entry(name: string, parent: int, ctime: int, mtime: int, nlink: int, size: int, isDir: int)

  /** A row of `files`, keyed by inode. */
  datatype FileRow = FileRow(mountpoint: Option<string>, relPath: Option<string>, header: Option<Bytes>,
                             payloadSize: int, prepend: Option<Bytes>, append: Option<Bytes>)

  /** One store file: the schema objects it has and the rows of its tables. */
  datatype Db = Db(schema: set<SchemaObject>, entries: map<int, Entry>, files: map<int, FileRow>,
                   attributes: map<(int, string), string>)

  /** The store sqlite3_open creates when no file is there. */
  const Empty := Db({}, map[], map[], map[])

  /** The row create seeds: (1, '/', parent 1) with the column defaults. */
  const RootEntry := Entry("/", 1, 0, 0, 1, 0, 1)

  /** The schema statements of create, in order; the root seed follows them. */
  const Script: seq<SchemaObject> :=
    [TableObject(Files), TableObject(ExtendedAttributes), TableObject(Entries), NamesIndex, ListingIndex]

  /** Another inode already holds (parent, name). */
  predicate Clash(m: map<int, Entry>, inode: int, parent: int, name: string) {
    exists j :: j in m && j != inode && m[j].parent == parent && m[j].name == name
  }

  /** What the unique index `names` on entries(parent_inode, name) enforces. */
  predicate SiblingsUnique(m: map<int, Entry>) {
    forall a, b :: a in m && b in m && a != b ==> !(m[a].parent == m[b].parent && m[a].name == m[b].name)
  }

  /** A table that does not exist has no rows; the unique index holds once it exists. */
  ghost predicate WellFormed(db: Db) {
    && (TableObject(Entries) !in db.schema ==> db.entries == map[])
    && (TableObject(Files) !in db.schema ==> db.files == map[])
    && (TableObject(ExtendedAttributes) !in db.schema ==> db.attributes == map[])
    && (NamesIndex in db.schema ==> SiblingsUnique(db.entries))
  }

  // ---------------------------------------------------------------------------
  // Create: the schema script and the root seed

  /**
   * INSERT INTO entries(inode, name, parent_inode) VALUES (1, '/', 1)
   * ON CONFLICT DO NOTHING: fails only without an entries table; adds the
   * root unless inode 1 exists or another inode holds ('/', parent 1).
   */
  function SeedRoot(db: Db): (r: Option<Db>)
    ensures r.None? <==> TableObject(Entries) !in db.schema
    ensures r.Some? ==> r.value.schema == db.schema && r.value.files == db.files
                        && r.value.attributes == db.attributes
    ensures r.Some? ==> r.value.entries.Keys <= db.entries.Keys + {1}
    ensures r.Some? ==> forall k :: k in db.entries ==> k in r.value.entries && r.value.entries[k] == db.entries[k]
    ensures r.Some? && 1 !in db.entries ==>
      (1 in r.value.entries <==> !(NamesIndex in db.schema && Clash(db.entries, 1, 1, "/")))
    ensures r.Some? && 1 in r.value.entries && 1 !in db.entries ==> r.value.entries[1] == RootEntry
    ensures r.Some? && WellFormed(db) ==> WellFormed(r.value)
  {
    if TableObject(Entries) !in db.schema then None
    else if 1 in db.entries || (NamesIndex in db.schema && Clash(db.entries, 1, 1, "/")) then Some(db)
    else
      var r := db.(entries := db.entries[1 := RootEntry]);
      assert NamesIndex in db.schema && WellFormed(db) ==> SiblingsUnique(r.entries) by {
        if NamesIndex in db.schema && WellFormed(db) {
          forall a, b | a in r.entries && b in r.entries && a != b
            ensures !(r.entries[a].parent == r.entries[b].parent && r.entries[a].name == r.entries[b].name)
          {
            if a != 1 && b != 1 {
              assert r.entries[a] == db.entries[a] && r.entries[b] == db.entries[b];
            }
          }
        }
      }
      Some(r)
  }

  /** Statement k of create: a schema object of the script, or (k == |Script|) the root seed. */
  function CreateStep(db: Db, k: nat, faults: set<Call>): (r: Option<Db>)
    requires k <= |Script|
    ensures r.Some? ==> Ddl(k) !in faults
    ensures k < |Script| && r.Some? ==> r.value == db.(schema := db.schema + {Script[k]})
    ensures k == |Script| && Ddl(k) !in faults ==> r == SeedRoot(db)
    ensures r.Some? && WellFormed(db) ==> WellFormed(r.value)
  {
    if Ddl(k) in faults then None
    else if k < |Script| then
      match CreateIfNotExists(db.schema, Script[k], SiblingsUnique(db.entries))
      case None => None
      case Some(schema) => Some(db.(schema := schema))
    else SeedRoot(db)
  }

  /**
   * The statements of create from k on, each run on its own (there is no
   * transaction): the first failure ends the call, and what ran before it stays.
   */
  function CreateFrom(db: Db, k: nat, faults: set<Call>): (r: (bool, Db))
    requires k <= |Script|
    ensures r.1.files == db.files && r.1.attributes == db.attributes
    ensures WellFormed(db) ==> WellFormed(r.1)
    decreases |Script| - k
  {
    match CreateStep(db, k, faults)
    case None => (false, db)
    case Some(next) =>
      if k == |Script| then (true, next)
      else
        CreateFrom(next, k + 1, faults)
  }

  /**
   * The script only adds its own objects, and a create that succeeds had no
   * statement fail and leaves every object of the script in place.
   */
  lemma {:induction false} CreateSchema(db: Db, k: nat, faults: set<Call>)
    requires k <= |Script|
    ensures var r := CreateFrom(db, k, faults);
            db.schema <= r.1.schema && forall o :: o in r.1.schema ==> o in db.schema || o in Script[k..]
    ensures var r := CreateFrom(db, k, faults);
            r.0 ==> (forall j :: k <= j <= |Script| ==> Ddl(j) !in faults)
                    && (forall o :: o in Script[k..] ==> o in r.1.schema)
    decreases |Script| - k
  {
    match CreateStep(db, k, faults)
    case None =>
    case Some(next) =>
      if k < |Script| {
        CreateSchema(next, k + 1, faults);
        assert Script[k..] == [Script[k]] + Script[k + 1..];
        if CreateFrom(db, k, faults).0 {
          forall j | k <= j <= |Script| ensures Ddl(j) !in faults {
            if j > k { assert k + 1 <= j <= |Script|; }
          }
        }
      }
  }

  /**
   * Create changes entries only through the root seed: a failed create leaves
   * them as they were; a successful one keeps every row, adds at most inode 1,
   * as the root, and leaves the root present or blocked by a sibling clash.
   */
  lemma {:induction false} CreateRows(db: Db, k: nat, faults: set<Call>)
    requires k <= |Script|
    ensures var r := CreateFrom(db, k, faults);
            !r.0 ==> r.1.entries == db.entries
    ensures var r := CreateFrom(db, k, faults);
            r.0 ==> r.1.entries.Keys <= db.entries.Keys + {1}
                    && (forall i :: i in db.entries ==> i in r.1.entries && r.1.entries[i] == db.entries[i])
    ensures var r := CreateFrom(db, k, faults);
            r.0 ==> (1 in r.1.entries || Clash(r.1.entries, 1, 1, "/"))
    ensures var r := CreateFrom(db, k, faults);
            r.0 && 1 in r.1.entries && 1 !in db.entries ==> r.1.entries[1] == RootEntry
    decreases |Script| - k
  {
    match CreateStep(db, k, faults)
    case None =>
    case Some(next) =>
      if k < |Script| {
        assert next.entries == db.entries;
        CreateRows(next, k + 1, faults);
      }
  }

  /** A create that ran to the end finds nothing left to do when run again. */
  lemma {:induction false} CreateAgainChangesNothing(db: Db, k: nat, faults: set<Call>)
    requires k <= |Script|
    requires forall j :: k <= j <= |Script| ==> Ddl(j) !in faults
    requires forall o :: o in Script ==> o in db.schema
    requires 1 in db.entries || Clash(db.entries, 1, 1, "/")
    ensures CreateFrom(db, k, faults) == (true, db)
    decreases |Script| - k
  {
    if k < |Script| {
      assert Script[k] in db.schema;
      CreateAgainChangesNothing(db, k + 1, faults);
    }
  }

  /** Repeating a successful create neither adds a second root nor alters any row. */
  lemma CreateIdempotent(db: Db, faults: set<Call>)
    requires CreateFrom(db, 0, faults).0
    ensures CreateFrom(CreateFrom(db, 0, faults).1, 0, faults) == CreateFrom(db, 0, faults)
  {
    var once := CreateFrom(db, 0, faults).1;
    CreateSchema(db, 0, faults);
    CreateRows(db, 0, faults);
    assert Script[0..] == Script;
    CreateAgainChangesNothing(once, 0, faults);
  }

  // ---------------------------------------------------------------------------
  // Point statements

  /**
   * INSERT INTO entries ... ON CONFLICT(inode) DO UPDATE of every other column:
   * refused by the unique (parent_inode, name) index when another inode holds
   * that pair; otherwise the inode's row becomes `e` and no other row changes.
   */
  function UpsertEntry(db: Db, inode: int, e: Entry): (r: Option<Db>)
    ensures r.None? <==> NamesIndex in db.schema && Clash(db.entries, inode, e.parent, e.name)
    ensures r.Some? ==> inode in r.value.entries && r.value.entries[inode] == e
    ensures r.Some? ==> forall k :: k != inode ==> (k in r.value.entries <==> k in db.entries)
    ensures r.Some? ==> forall k :: k in db.entries && k != inode ==> r.value.entries[k] == db.entries[k]
    ensures r.Some? ==> r.value.schema == db.schema && r.value.files == db.files
                        && r.value.attributes == db.attributes
    ensures r.Some? && WellFormed(db) && TableObject(Entries) in db.schema ==> WellFormed(r.value)
  {
    if NamesIndex in db.schema && Clash(db.entries, inode, e.parent, e.name) then None
    else
      var r := db.(entries := db.entries[inode := e]);
      assert NamesIndex in db.schema && WellFormed(db) ==> SiblingsUnique(r.entries) by {
        if NamesIndex in db.schema && WellFormed(db) {
          forall a, b | a in r.entries && b in r.entries && a != b
            ensures !(r.entries[a].parent == r.entries[b].parent && r.entries[a].name == r.entries[b].name)
          {
            if a != inode && b != inode {
              assert r.entries[a] == db.entries[a] && r.entries[b] == db.entries[b];
            }
          }
        }
      }
      Some(r)
  }

  /** INSERT INTO files ... ON CONFLICT(inode) DO UPDATE of all six other columns. */
  function UpsertFile(db: Db, inode: int, f: FileRow): (r: Db)
    ensures inode in r.files && r.files[inode] == f
    ensures forall k :: k != inode ==> (k in r.files <==> k in db.files)
    ensures forall k :: k in db.files && k != inode ==> r.files[k] == db.files[k]
    ensures r.schema == db.schema && r.entries == db.entries && r.attributes == db.attributes
    ensures WellFormed(db) && TableObject(Files) in db.schema ==> WellFormed(r)
  {
    db.(files := db.files[inode := f])
  }

  /** DELETE FROM files WHERE inode = ?: that one row goes. */
  function DeleteFileRow(db: Db, inode: int): (r: Db)
    ensures inode !in r.files
    ensures forall k :: k != inode ==> (k in r.files <==> k in db.files)
    ensures forall k :: k in r.files ==> r.files[k] == db.files[k]
    ensures r.schema == db.schema && r.entries == db.entries && r.attributes == db.attributes
    ensures WellFormed(db) ==> WellFormed(r)
  {
    db.(files := db.files - {inode})
  }

  /**
   * DELETE FROM entries WHERE inode = ?1 OR parent_inode = ?1: the entry and
   * its direct children; files and attribute rows stay.
   */
  function DeleteEntryRows(db: Db, inode: int): (r: Db)
    ensures forall k :: k in r.entries <==> k in db.entries && k != inode && db.entries[k].parent != inode
    ensures forall k :: k in r.entries ==> r.entries[k] == db.entries[k]
    ensures r.schema == db.schema && r.files == db.files && r.attributes == db.attributes
    ensures WellFormed(db) ==> WellFormed(r)
  {
    var r := db.(entries := map k | k in db.entries && k != inode && db.entries[k].parent != inode :: db.entries[k]);
    assert NamesIndex in db.schema && WellFormed(db) ==> SiblingsUnique(r.entries) by {
      if NamesIndex in db.schema && WellFormed(db) {
        forall a, b | a in r.entries && b in r.entries && a != b
          ensures !(r.entries[a].parent == r.entries[b].parent && r.entries[a].name == r.entries[b].name)
        {
          assert r.entries[a] == db.entries[a] && r.entries[b] == db.entries[b];
        }
      }
    }
    r
  }

  /** Deleting an entry leaves its grandchildren, now under a parent that is gone. */
  lemma DeleteLeavesGrandchildren(db: Db, inode: int, child: int, grandchild: int)
    requires child in db.entries && db.entries[child].parent == inode && child != inode
    requires grandchild in db.entries && db.entries[grandchild].parent == child
    requires grandchild != inode
    ensures child !in DeleteEntryRows(db, inode).entries
    ensures grandchild in DeleteEntryRows(db, inode).entries
    ensures DeleteEntryRows(db, inode).entries[grandchild].parent !in DeleteEntryRows(db, inode).entries
  {
  }

  /** Deleting inode 1 removes the root itself and every entry directly under it. */
  lemma DeleteRootRemovesRoot(db: Db)
    ensures 1 !in DeleteEntryRows(db, 1).entries
    ensures forall k :: k in DeleteEntryRows(db, 1).entries ==> DeleteEntryRows(db, 1).entries[k].parent != 1
  {
  }

  /**
   * The DELETE statements of the truncations: fail without the table;
   * otherwise clear it, or keep only its rows with inode <= 1.
   */
  function ApplyDelete(db: Db, d: Delete): (r: Option<Db>)
    ensures r.None? <==> TableObject(d.table) !in db.schema
    ensures r.Some? ==> r.value.schema == db.schema
    ensures r.Some? && d == DeleteAboveRoot(Entries) ==>
      (forall k :: k in r.value.entries <==> k in db.entries && k <= 1)
      && (forall k :: k in r.value.entries ==> r.value.entries[k] == db.entries[k])
      && r.value.files == db.files && r.value.attributes == db.attributes
    ensures r.Some? && d == DeleteAll(Files) ==>
      r.value.files == map[] && r.value.entries == db.entries && r.value.attributes == db.attributes
    ensures r.Some? && d == DeleteAll(ExtendedAttributes) ==>
      r.value.attributes == map[] && r.value.entries == db.entries && r.value.files == db.files
    ensures r.Some? && WellFormed(db) ==> WellFormed(r.value)
  {
    if TableObject(d.table) !in db.schema then None
    else
      match d
      case DeleteAll(Files) => Some(db.(files := map[]))
      case DeleteAll(Entries) => Some(db.(entries := map[]))
      case DeleteAll(ExtendedAttributes) => Some(db.(attributes := map[]))
      case DeleteAboveRoot(Files) => Some(db.(files := map k | k in db.files && k <= 1 :: db.files[k]))
      case DeleteAboveRoot(ExtendedAttributes) =>
        Some(db.(attributes := map k | k in db.attributes && k.0 <= 1 :: db.attributes[k]))
      case DeleteAboveRoot(Entries) =>
        var r := db.(entries := map k | k in db.entries && k <= 1 :: db.entries[k]);
        assert NamesIndex in db.schema && WellFormed(db) ==> SiblingsUnique(r.entries) by {
          if NamesIndex in db.schema && WellFormed(db) {
            forall a, b | a in r.entries && b in r.entries && a != b
              ensures !(r.entries[a].parent == r.entries[b].parent && r.entries[a].name == r.entries[b].name)
            {
              assert r.entries[a] == db.entries[a] && r.entries[b] == db.entries[b];
            }
          }
        }
        Some(r)
  }

  /** truncate_entries keeps the root row as it was. */
  lemma TruncateEntriesKeepsRoot(db: Db)
    requires TableObject(Entries) in db.schema && 1 in db.entries
    ensures var r := ApplyDelete(db, DeleteAboveRoot(Entries));
            r.Some? && r.value.entries.Keys <= {1} + set k | k in db.entries && k < 1
            && 1 in r.value.entries && r.value.entries[1] == db.entries[1]
  {
  }

  // ---------------------------------------------------------------------------
  // Bulk loading: reading rows and the transaction's work

  /** The column types insert_entries checks, positions 0 to 7 (it demands 9 columns). */
  const EntryTypes: seq<ColType> := [Int8Oid, TextOid, Int8Oid, Int8Oid, Int8Oid, Int4Oid, Int8Oid, BoolOid]

  /** The column types insert_files checks at positions 0 to 3, of a result it demands have 4 columns. */
  const FileTypes: seq<ColType> := [Int8Oid, TextOid, TextOid, ByteaOid]

  /**
   * Reading an entries row detoasts a NULL: once the inode is present, the
   * name goes through DatumGetTextPP before its isnull test.
   */
  predicate EntryDerefs(row: Row) {
    Cell(row, 0).Some? && Cell(row, 1).None?
  }

  /** An entries result row: all eight fields are mandatory; is_dir binds as 1 or 0. */
  function EntryOfRow(row: Row): (r: Option<(int, Entry)>)
    ensures r.Some? <==> forall k :: 0 <= k < 8 ==> Cell(row, k).Some?
    ensures r.Some? ==> !EntryDerefs(row)
    ensures r.Some? ==> r.value.0 == IntAt(row, 0).value && r.value.1.name == TextAt(row, 1).value
                        && r.value.1.parent == IntAt(row, 2).value
                        && r.value.1.ctime == IntAt(row, 3).value && r.value.1.mtime == IntAt(row, 4).value
                        && r.value.1.nlink == IntAt(row, 5).value && r.value.1.size == IntAt(row, 6).value
    ensures r.Some? ==> r.value.1.isDir == (if BoolAt(row, 7).value then 1 else 0)
  {
    if forall k :: 0 <= k < 8 ==> Cell(row, k).Some? then
      var isDir := if BoolAt(row, 7).value then 1 else 0;
      Some((IntAt(row, 0).value, Entry(TextAt(row, 1).value, IntAt(row, 2).value, IntAt(row, 3).value,
                                       IntAt(row, 4).value, IntAt(row, 5).value, IntAt(row, 6).value, isDir)))
    else None
  }

  /**
   * Reading a files row detoasts a NULL: once the inode is present,
   * mountpoint and rel_path go through DatumGetTextPP before their isnull
   * tests, and header, prepend and append (positions 3, 5 and 6) through
   * DatumGetByteaP with no test before it.
   */
  predicate FileDerefs(row: Row) {
    Cell(row, 0).Some?
    && (Cell(row, 1).None? || Cell(row, 2).None? || Cell(row, 3).None? || Cell(row, 5).None? || Cell(row, 6).None?)
  }

  /** A files result row read to the end: every field but payload_size present; a NULL payload_size binds 0. */
  function FileOfRow(row: Row): (r: Option<(int, FileRow)>)
    ensures r.Some? <==> Cell(row, 0).Some? && !FileDerefs(row)
    ensures r.Some? ==> r.value.0 == IntAt(row, 0).value
                        && r.value.1.mountpoint == TextAt(row, 1) && r.value.1.relPath == TextAt(row, 2)
                        && r.value.1.header == BytesAt(row, 3) && r.value.1.prepend == BytesAt(row, 5)
                        && r.value.1.append == BytesAt(row, 6)
    ensures r.Some? ==> r.value.1.payloadSize == (if Cell(row, 4).None? then 0 else IntAt(row, 4).value)
  {
    if Cell(row, 0).Some? && !FileDerefs(row) then
      Some((IntAt(row, 0).value, FileRow(TextAt(row, 1), TextAt(row, 2), BytesAt(row, 3), IntAt(row, 4).GetOr(0),
                                         BytesAt(row, 5), BytesAt(row, 6))))
    else None
  }

  /** Reading and binding row i of an entries result. */
  function EntryBind(faults: set<Call>): (nat, Row) -> Bound<(int, Entry)> {
    (i: nat, row: Row) =>
      if EntryDerefs(row) then NullRead
      else
        match EntryOfRow(row)
        case None => NullField
        case Some(x) => if Bind(i) in faults then BindFailed else Bound(x)
  }

  /** Stepping the upsert for row i. */
  function EntryStep(faults: set<Call>): (nat, Db, (int, Entry)) -> Option<Db> {
    (i: nat, work: Db, x: (int, Entry)) => if Step(i) in faults then None else UpsertEntry(work, x.0, x.1)
  }

  function FileBind(faults: set<Call>): (nat, Row) -> Bound<(int, FileRow)> {
    (i: nat, row: Row) =>
      if FileDerefs(row) then NullRead
      else
        match FileOfRow(row)
        case None => NullField
        case Some(x) => if Bind(i) in faults then BindFailed else Bound(x)
  }

  function FileStep(faults: set<Call>): (nat, Db, (int, FileRow)) -> Option<Db> {
    (i: nat, work: Db, x: (int, FileRow)) => if Step(i) in faults then None else Some(UpsertFile(work, x.0, x.1))
  }

  /** The upserts a whole entries result asks for, when no row has a NULL mandatory field. */
  function EntriesOf(rows: seq<Row>): (r: Option<seq<(int, Entry)>>)
    ensures r.Some? <==> forall i :: 0 <= i < |rows| ==> EntryOfRow(rows[i]).Some?
    ensures r.Some? ==> |r.value| == |rows| && forall i :: 0 <= i < |rows| ==> r.value[i] == EntryOfRow(rows[i]).value
  {
    if forall i :: 0 <= i < |rows| ==> EntryOfRow(rows[i]).Some? then
      Some(seq(|rows|, i requires 0 <= i < |rows| => EntryOfRow(rows[i]).value))
    else None
  }

  function FilesOf(rows: seq<Row>): (r: Option<seq<(int, FileRow)>>)
    ensures r.Some? <==> forall i :: 0 <= i < |rows| ==> FileOfRow(rows[i]).Some?
    ensures r.Some? ==> |r.value| == |rows| && forall i :: 0 <= i < |rows| ==> r.value[i] == FileOfRow(rows[i]).value
  {
    if forall i :: 0 <= i < |rows| ==> FileOfRow(rows[i]).Some? then
      Some(seq(|rows|, i requires 0 <= i < |rows| => FileOfRow(rows[i]).value))
    else None
  }

  /** The entries of a result from row i on: row i's, then the rest. */
  lemma EntriesOfFrom(rows: seq<Row>, i: nat)
    requires i < |rows| && EntryOfRow(rows[i]).Some? && EntriesOf(rows[i + 1..]).Some?
    ensures EntriesOf(rows[i..]) == Some([EntryOfRow(rows[i]).value] + EntriesOf(rows[i + 1..]).value)
  {
    var s := rows[i..];
    var t := rows[i + 1..];
    forall j | 0 <= j < |s| ensures EntryOfRow(s[j]).Some? {
      if j > 0 { assert s[j] == t[j - 1]; }
    }
    var all := EntriesOf(s).value;
    var tail := EntriesOf(t).value;
    forall j | 0 <= j < |all| ensures all[j] == ([EntryOfRow(rows[i]).value] + tail)[j] {
      if j > 0 { assert s[j] == t[j - 1]; }
    }
    assert all == [EntryOfRow(rows[i]).value] + tail;
  }

  lemma FilesOfFrom(rows: seq<Row>, i: nat)
    requires i < |rows| && FileOfRow(rows[i]).Some? && FilesOf(rows[i + 1..]).Some?
    ensures FilesOf(rows[i..]) == Some([FileOfRow(rows[i]).value] + FilesOf(rows[i + 1..]).value)
  {
    var s := rows[i..];
    var t := rows[i + 1..];
    forall j | 0 <= j < |s| ensures FileOfRow(s[j]).Some? {
      if j > 0 { assert s[j] == t[j - 1]; }
    }
    var all := FilesOf(s).value;
    var tail := FilesOf(t).value;
    forall j | 0 <= j < |all| ensures all[j] == ([FileOfRow(rows[i]).value] + tail)[j] {
      if j > 0 { assert s[j] == t[j - 1]; }
    }
    assert all == [FileOfRow(rows[i]).value] + tail;
  }

  /** One row of an entries loop that goes on to commit: it decoded, bound, stepped and upserted. */
  lemma EntryRunStep(work: Db, rows: seq<Row>, i: nat, rc: int, faults: set<Call>)
    requires i < |rows|
    requires RunFrom(work, rows, i, rc, EntryBind(faults), EntryStep(faults)).0 == 0
    ensures EntryOfRow(rows[i]).Some? && Bind(i) !in faults && Step(i) !in faults
    ensures var x := EntryOfRow(rows[i]).value;
            UpsertEntry(work, x.0, x.1).Some?
            && RunFrom(work, rows, i, rc, EntryBind(faults), EntryStep(faults))
               == RunFrom(work.(entries := work.entries[x.0 := x.1]), rows, i + 1, 0,
                          EntryBind(faults), EntryStep(faults))
  {
    var x := EntryOfRow(rows[i]).value;
    var next := UpsertEntry(work, x.0, x.1).value;
    assert next == work.(entries := work.entries[x.0 := x.1]);
  }

  lemma FileRunStep(work: Db, rows: seq<Row>, i: nat, rc: int, faults: set<Call>)
    requires i < |rows|
    requires RunFrom(work, rows, i, rc, FileBind(faults), FileStep(faults)).0 == 0
    ensures FileOfRow(rows[i]).Some? && Bind(i) !in faults && Step(i) !in faults
    ensures var x := FileOfRow(rows[i]).value;
            RunFrom(work, rows, i, rc, FileBind(faults), FileStep(faults))
            == RunFrom(work.(files := work.files[x.0 := x.1]), rows, i + 1, 0,
                       FileBind(faults), FileStep(faults))
  {
  }

  /**
   * A loop over an entries result that ends with rc 0 applied every row from
   * i on, in order, with no NULL mandatory field and no failed bind or step.
   */
  lemma {:induction false} EntryRunApplied(work: Db, rows: seq<Row>, i: nat, rc: int, faults: set<Call>)
    requires i <= |rows|
    requires i == |rows| ==> rc == 0
    requires RunFrom(work, rows, i, rc, EntryBind(faults), EntryStep(faults)).0 == 0
    ensures EntriesOf(rows[i..]).Some?
    ensures forall j :: i <= j < |rows| ==> Bind(j) !in faults && Step(j) !in faults
    ensures RunFrom(work, rows, i, rc, EntryBind(faults), EntryStep(faults)).1
            == work.(entries := Upserts(work.entries, EntriesOf(rows[i..]).value))
    decreases |rows| - i
  {
    if i == |rows| {
      assert rows[i..] == [];
    } else {
      EntryRunStep(work, rows, i, rc, faults);
      var x := EntryOfRow(rows[i]).value;
      var next := work.(entries := work.entries[x.0 := x.1]);
      EntryRunApplied(next, rows, i + 1, 0, faults);
      forall j | i <= j < |rows| ensures Bind(j) !in faults && Step(j) !in faults {
        if j > i { assert i + 1 <= j < |rows|; }
      }
      EntriesOfFrom(rows, i);
      UpsertsCons(work.entries, x, EntriesOf(rows[i + 1..]).value);
    }
  }

  lemma {:induction false} FileRunApplied(work: Db, rows: seq<Row>, i: nat, rc: int, faults: set<Call>)
    requires i <= |rows|
    requires i == |rows| ==> rc == 0
    requires RunFrom(work, rows, i, rc, FileBind(faults), FileStep(faults)).0 == 0
    ensures FilesOf(rows[i..]).Some?
    ensures forall j :: i <= j < |rows| ==> Bind(j) !in faults && Step(j) !in faults
    ensures RunFrom(work, rows, i, rc, FileBind(faults), FileStep(faults)).1
            == work.(files := Upserts(work.files, FilesOf(rows[i..]).value))
    decreases |rows| - i
  {
    if i == |rows| {
      assert rows[i..] == [];
    } else {
      FileRunStep(work, rows, i, rc, faults);
      var x := FileOfRow(rows[i]).value;
      var next := work.(files := work.files[x.0 := x.1]);
      FileRunApplied(next, rows, i + 1, 0, faults);
      forall j | i <= j < |rows| ensures Bind(j) !in faults && Step(j) !in faults {
        if j > i { assert i + 1 <= j < |rows|; }
      }
      FilesOfFrom(rows, i);
      UpsertsCons(work.files, x, FilesOf(rows[i + 1..]).value);
    }
  }

  /** Every upsert of an entries loop keeps the store well formed. */
  lemma {:induction false} EntryRunWellFormed(work: Db, rows: seq<Row>, i: nat, rc: int, faults: set<Call>)
    requires i <= |rows|
    requires WellFormed(work) && TableObject(Entries) in work.schema
    ensures WellFormed(RunFrom(work, rows, i, rc, EntryBind(faults), EntryStep(faults)).1)
    decreases |rows| - i
  {
    if i < |rows| {
      match EntryOfRow(rows[i])
      case None =>
      case Some(x) =>
        if Bind(i) !in faults && Step(i) !in faults {
          match UpsertEntry(work, x.0, x.1)
          case None =>
          case Some(next) => EntryRunWellFormed(next, rows, i + 1, 0, faults);
        }
    }
  }

  lemma {:induction false} FileRunWellFormed(work: Db, rows: seq<Row>, i: nat, rc: int, faults: set<Call>)
    requires i <= |rows|
    requires WellFormed(work) && TableObject(Files) in work.schema
    ensures WellFormed(RunFrom(work, rows, i, rc, FileBind(faults), FileStep(faults)).1)
    decreases |rows| - i
  {
    if i < |rows| {
      match FileOfRow(rows[i])
      case None =>
      case Some(x) =>
        if Bind(i) !in faults && Step(i) !in faults {
          FileRunWellFormed(UpsertFile(work, x.0, x.1), rows, i + 1, 0, faults);
        }
    }
  }

  /**
   * The work of insert_entries inside its transaction: the status it ends
   * with (0 commits, anything else rolls back) and the working copy. Prepare,
   * SPI_connect, a non-SELECT result, a column count other than 9 or a type
   * mismatch at positions 0 to 7 stop it before any row is read.
   */
  function LoadEntries(db: Db, q: QueryResult, faults: set<Call>): (r: (int, Db))
    ensures r.0 == 0 && WellFormed(db) ==> WellFormed(r.1)
  {
    if Prepare in faults || TableObject(Entries) !in db.schema then (1, db)
    else if SpiConnect in faults then (SpiErrorConnect, db)
    else if q.Failed? then (SpiRaised, db)
    else if q.NotSelect? then (2, db)
    else if |q.types| != 9 then (3, db)
    else if !TypesMatch(q.types, EntryTypes) then (4, db)
    else
      var r := RunFrom(db, q.rows, 0, SpiOkSelect, EntryBind(faults), EntryStep(faults));
      if r.0 == 0 then
        assert WellFormed(db) ==> WellFormed(r.1) by {
          if WellFormed(db) { EntryRunWellFormed(db, q.rows, 0, SpiOkSelect, faults); }
        }
        r
      else r
  }

  /** A batch that commits passed every check, decoded, bound and stepped every row, and upserted the rows in order. */
  lemma EntriesCommitted(db: Db, q: QueryResult, faults: set<Call>)
    requires LoadEntries(db, q, faults).0 == 0
    ensures
      Prepare !in faults && SpiConnect !in faults && TableObject(Entries) in db.schema
      && q.Select? && |q.types| == 9 && TypesMatch(q.types, EntryTypes) && |q.rows| > 0
      && EntriesOf(q.rows).Some?
      && (forall j :: 0 <= j < |q.rows| ==> Bind(j) !in faults && Step(j) !in faults)
      && LoadEntries(db, q, faults).1 == db.(entries := Upserts(db.entries, EntriesOf(q.rows).value))
  {
    EntryRunApplied(db, q.rows, 0, SpiOkSelect, faults);
    assert q.rows[0..] == q.rows;
  }

  /**
   * The work of insert_files inside its transaction. The code demands 4
   * columns but checks types at 7 positions; what the checks at positions 4
   * to 6 read lies past the descriptor, so their verdict is the parameter
   * `strayTypesMatch`.
   */
  function LoadFiles(db: Db, q: QueryResult, strayTypesMatch: bool, faults: set<Call>): (r: (int, Db))
    ensures r.0 == 0 && WellFormed(db) ==> WellFormed(r.1)
  {
    if Prepare in faults || TableObject(Files) !in db.schema then (1, db)
    else if SpiConnect in faults then (SpiErrorConnect, db)
    else if q.Failed? then (SpiRaised, db)
    else if q.NotSelect? then (2, db)
    else if |q.types| != 4 then (3, db)
    else if !TypesMatch(q.types, FileTypes) || !strayTypesMatch then (4, db)
    else
      var r := RunFrom(db, q.rows, 0, SpiOkSelect, FileBind(faults), FileStep(faults));
      if r.0 == 0 then
        assert WellFormed(db) ==> WellFormed(r.1) by {
          if WellFormed(db) { FileRunWellFormed(db, q.rows, 0, SpiOkSelect, faults); }
        }
        r
      else r
  }

  /** A batch that commits passed every check, decoded, bound and stepped every row, and upserted the rows in order. */
  lemma FilesCommitted(db: Db, q: QueryResult, strayTypesMatch: bool, faults: set<Call>)
    requires LoadFiles(db, q, strayTypesMatch, faults).0 == 0
    ensures
      Prepare !in faults && SpiConnect !in faults && TableObject(Files) in db.schema
      && q.Select? && |q.types| == 4 && TypesMatch(q.types, FileTypes) && strayTypesMatch && |q.rows| > 0
      && FilesOf(q.rows).Some?
      && (forall j :: 0 <= j < |q.rows| ==> Bind(j) !in faults && Step(j) !in faults)
      && LoadFiles(db, q, strayTypesMatch, faults).1 == db.(files := Upserts(db.files, FilesOf(q.rows).value))
  {
    FileRunApplied(db, q.rows, 0, SpiOkSelect, faults);
    assert q.rows[0..] == q.rows;
  }

  /**
   * A bulk load escapes with an ERROR exactly when it gets past the prepare
   * and SPI_connect and the query then fails inside SPI_execute.
   */
  lemma QueryErrorRaises(db: Db, q: QueryResult, strayTypesMatch: bool, faults: set<Call>)
    ensures LoadEntries(db, q, faults).0 == SpiRaised <==>
      Prepare !in faults && TableObject(Entries) in db.schema && SpiConnect !in faults && q.Failed?
    ensures LoadFiles(db, q, strayTypesMatch, faults).0 == SpiRaised <==>
      Prepare !in faults && TableObject(Files) in db.schema && SpiConnect !in faults && q.Failed?
  {
  }

  /** The store a bulk call leaves when its COMMIT or ROLLBACK goes through. */
  function Settle(db: Db, r: (int, Db)): Db {
    if r.0 == 0 then r.1 else db
  }

  /** Running the same insert_entries twice leaves the store as running it once did. */
  lemma EntriesLoadIdempotent(db: Db, q: QueryResult, faults: set<Call>)
    ensures var once := Settle(db, LoadEntries(db, q, faults));
            Settle(once, LoadEntries(once, q, faults)) == once
  {
    var r := LoadEntries(db, q, faults);
    if r.0 == 0 {
      EntriesCommitted(db, q, faults);
      var s := EntriesOf(q.rows).value;
      var once := r.1;
      var r2 := LoadEntries(once, q, faults);
      if r2.0 == 0 {
        EntriesCommitted(once, q, faults);
        UpsertsIdempotent(db.entries, s);
      }
    }
  }

  lemma FilesLoadIdempotent(db: Db, q: QueryResult, strayTypesMatch: bool, faults: set<Call>)
    ensures var once := Settle(db, LoadFiles(db, q, strayTypesMatch, faults));
            Settle(once, LoadFiles(once, q, strayTypesMatch, faults)) == once
  {
    var r := LoadFiles(db, q, strayTypesMatch, faults);
    if r.0 == 0 {
      FilesCommitted(db, q, strayTypesMatch, faults);
      var s := FilesOf(q.rows).value;
      var r2 := LoadFiles(r.1, q, strayTypesMatch, faults);
      if r2.0 == 0 {
        FilesCommitted(r.1, q, strayTypesMatch, faults);
        UpsertsIdempotent(db.files, s);
      }
    }
  }

  /** One row with a NULL field, anywhere in the result, keeps the whole batch from committing. */
  lemma NullFieldNeverCommits(db: Db, q: QueryResult, faults: set<Call>, j: nat, k: nat)
    requires q.Select? && j < |q.rows| && k < 8 && Cell(q.rows[j], k).None?
    ensures LoadEntries(db, q, faults).0 != 0
    ensures Settle(db, LoadEntries(db, q, faults)) == db
  {
    assert EntryOfRow(q.rows[j]).None?;
    if LoadEntries(db, q, faults).0 == 0 {
      EntriesCommitted(db, q, faults);
      assert false;
    }
  }

  /**
   * The first row that does not go through decides how insert_entries ends:
   * once the checks passed and the rows before j went through, a row j that
   * detoasts a NULL name is undefined behaviour, a row j with another NULL
   * field rolls back with rc 1, and a failed bind with rc 6.
   */
  lemma EntryRowDecides(db: Db, q: QueryResult, faults: set<Call>, j: nat)
    requires q.Select? && j < |q.rows|
    requires LoadEntries(db, Select(q.types, q.rows[..j]), faults).0 in {0, SpiOkSelect}
    ensures EntryDerefs(q.rows[j]) ==> LoadEntries(db, q, faults).0 == NullDeref
    ensures !EntryDerefs(q.rows[j]) && EntryOfRow(q.rows[j]).None? ==> LoadEntries(db, q, faults).0 == 1
    ensures EntryOfRow(q.rows[j]).Some? && Bind(j) in faults ==> LoadEntries(db, q, faults).0 == 6
  {
    RunSplit(db, q.rows, 0, j, SpiOkSelect, EntryBind(faults), EntryStep(faults));
  }

  /** insert_entries ends in undefined behaviour only on a row that detoasts a NULL name. */
  lemma EntryDerefHasCause(db: Db, q: QueryResult, faults: set<Call>)
    requires LoadEntries(db, q, faults).0 == NullDeref
    ensures q.Select? && exists j :: 0 <= j < |q.rows| && EntryDerefs(q.rows[j])
  {
    RunDerefHasCause(db, q.rows, 0, SpiOkSelect, EntryBind(faults), EntryStep(faults));
    var j :| 0 <= j < |q.rows| && EntryBind(faults)(j, q.rows[j]).NullRead?;
    assert EntryDerefs(q.rows[j]);
  }

  /** insert_files ends in undefined behaviour only on a row that detoasts a NULL. */
  lemma FileDerefHasCause(db: Db, q: QueryResult, strayTypesMatch: bool, faults: set<Call>)
    requires LoadFiles(db, q, strayTypesMatch, faults).0 == NullDeref
    ensures q.Select? && exists j :: 0 <= j < |q.rows| && FileDerefs(q.rows[j])
  {
    RunDerefHasCause(db, q.rows, 0, SpiOkSelect, FileBind(faults), FileStep(faults));
    var j :| 0 <= j < |q.rows| && FileBind(faults)(j, q.rows[j]).NullRead?;
    assert FileDerefs(q.rows[j]);
  }

  /**
   * insert_files never commits: the result must have 4 columns, so prepend
   * and append (positions 5 and 6) read past the descriptor as NULL Datums.
   */
  lemma FilesNeverCommit(db: Db, q: QueryResult, strayTypesMatch: bool, faults: set<Call>)
    requires WellTyped(q)
    ensures LoadFiles(db, q, strayTypesMatch, faults).0 != 0
  {
    if LoadFiles(db, q, strayTypesMatch, faults).0 == 0 {
      FilesCommitted(db, q, strayTypesMatch, faults);
      assert false;
    }
  }

  /**
   * Once insert_files passed its checks, its first row decides everything: a
   * NULL inode rolls back with rc 1, and a present one is undefined behaviour.
   */
  lemma FirstFileRowDecides(db: Db, q: QueryResult, strayTypesMatch: bool, faults: set<Call>)
    requires WellTyped(q) && q.Select? && |q.rows| > 0
    requires LoadFiles(db, Select(q.types, []), strayTypesMatch, faults).0 == SpiOkSelect
    ensures Cell(q.rows[0], 0).None? ==> LoadFiles(db, q, strayTypesMatch, faults).0 == 1
    ensures Cell(q.rows[0], 0).Some? ==> LoadFiles(db, q, strayTypesMatch, faults).0 == NullDeref
  {
    assert |q.rows[0]| == 4;
  }

  /** A committed batch leaves each inode with the last row the result gave for it. */
  lemma LoadEntriesLastWins(db: Db, q: QueryResult, faults: set<Call>, j: nat)
    requires LoadEntries(db, q, faults).0 == 0
    requires j < |q.rows|
    requires forall j' :: j < j' < |q.rows| ==> IntAt(q.rows[j'], 0) != IntAt(q.rows[j], 0)
    ensures EntryOfRow(q.rows[j]).Some?
    ensures var x := EntryOfRow(q.rows[j]).value;
            x.0 in LoadEntries(db, q, faults).1.entries && LoadEntries(db, q, faults).1.entries[x.0] == x.1
  {
    EntriesCommitted(db, q, faults);
    var s := EntriesOf(q.rows).value;
    forall j' | j < j' < |s| ensures s[j'].0 != s[j].0 {
      assert s[j'].0 == IntAt(q.rows[j'], 0).value;
    }
    UpsertsLastWins(db.entries, s, j);
  }

  /** A result in the documented 7-column layout never gets past the column count. */
  lemma SevenColumnFilesNeverLoad(db: Db, types: seq<ColType>, rows: seq<Row>, strayTypesMatch: bool,
                                  faults: set<Call>)
    requires |types| == 7
    ensures LoadFiles(db, Select(types, rows), strayTypesMatch, faults).0 != 0
  {
  }

  /** insert_entries accepts anything at position 8: it counts 9 columns and checks 8. */
  lemma NinthColumnUnchecked(types: seq<ColType>, t: ColType)
    requires |types| == 8 && TypesMatch(types, EntryTypes)
    ensures TypesMatch(types + [t], EntryTypes)
  {
    assert (types + [t])[..8] == types;
  }

  /**
   * The work between BEGIN and the final COMMIT or ROLLBACK of
   * insert_entries, on a working copy of the store: the checks on the
   * result, then the per-row loop. `rc` decides COMMIT (0) or ROLLBACK.
   */
  method EntriesBatch(db: Db, q: QueryResult, faults: set<Call>) returns (rc: int, work: Db)
    ensures (rc, work) == LoadEntries(db, q, faults)
  {
    work := db;
    if Prepare in faults || TableObject(Entries) !in db.schema {
      rc := 1;
    } else if SpiConnect in faults {
      rc := SpiErrorConnect;
    } else if q.Failed? {
      rc := SpiRaised;
    } else if q.NotSelect? {
      rc := 2;
    } else if |q.types| != 9 {
      rc := 3;
    } else if !TypesMatch(q.types, EntryTypes) {
      rc := 4;
    } else {
      rc, work := RunRows(db, q.rows, SpiOkSelect, EntryBind(faults), EntryStep(faults));
    }
  }

  /** The work between BEGIN and the final COMMIT or ROLLBACK of insert_files. */
  method FilesBatch(db: Db, q: QueryResult, strayTypesMatch: bool, faults: set<Call>) returns (rc: int, work: Db)
    ensures (rc, work) == LoadFiles(db, q, strayTypesMatch, faults)
  {
    work := db;
    if Prepare in faults || TableObject(Files) !in db.schema {
      rc := 1;
    } else if SpiConnect in faults {
      rc := SpiErrorConnect;
    } else if q.Failed? {
      rc := SpiRaised;
    } else if q.NotSelect? {
      rc := 2;
    } else if |q.types| != 4 {
      rc := 3;
    } else if !TypesMatch(q.types, FileTypes) || !strayTypesMatch {
      rc := 4;
    } else {
      rc, work := RunRows(db, q.rows, SpiOkSelect, FileBind(faults), FileStep(faults));
    }
  }

  // ---------------------------------------------------------------------------
  // The extension: the setting and the store files

  class Extension {
    /** PostgreSQL's data directory. */
    const dataDir: string
    /** canonicalize_path, which is outside this model. */
    const canonicalize: string -> string
    /** The sqlite_fs.location setting (NULL until set). */
    var location: Option<string>
    /** The store files, by canonical path. */
    var disk: map<string, Db>

    ghost predicate Valid()
      reads this
    {
      forall p :: p in disk ==> WellFormed(disk[p])
    }

    /** The store at p as sqlite3_open finds it, creating an empty one if absent. */
    function StoreAt(p: string): Db
      reads this
    {
      if p in disk then disk[p] else Empty
    }

    constructor (dataDir: string, canonicalize: string -> string, disk: map<string, Db>)
      requires forall p :: p in disk ==> WellFormed(disk[p])
      ensures Valid()
      ensures this.dataDir == dataDir && this.canonicalize == canonicalize
      ensures this.disk == disk && location == None
    {
      this.dataDir := dataDir;
      this.canonicalize := canonicalize;
      this.disk := disk;
      location := None;
    }

    /** Setting sqlite_fs.location: the check hook decides, and an accepted value is stored. */
    method Configure(newval: Option<string>, source: GucSource) returns (accepted: bool)
      modifies this`location
      ensures var h := CheckHook(newval, source, dataDir, canonicalize);
              accepted == h.accept && location == (if h.accept then h.newval else old(location))
      ensures accepted && source == ConfigFile ==>
              location.Some? && IsAbsolute(newval.value) && !PathIsPrefix(dataDir, location.value)
    {
      var h := CheckHook(newval, source, dataDir, canonicalize);
      accepted := h.accept;
      if accepted {
        location := h.newval;
      }
    }

    /** pg_sqlite_fs_create: open (creating) the store, run the schema script and seed the root. */
    method Create(path: Option<string>, faults: set<Call>) returns (out: Outcome)
      requires Valid()
      modifies this`disk
      ensures Valid()
      ensures path.None? ==> out == Raised && disk == old(disk)
      ensures path.Some? ==>
        var chk := CheckPath(path.value, location, canonicalize);
        if !chk.Accepted? then out == Raised && disk == old(disk)
        else if Open in faults then out == Returned(false) && disk == old(disk)
        else
          var r := CreateFrom(old(StoreAt(chk.path)), 0, faults);
          out == Returned(r.0) && disk == old(disk)[chk.path := r.1]
    {
      if path.None? {
        return Raised;
      }
      var chk := CheckPath(path.value, location, canonicalize);
      if !chk.Accepted? {
        return Raised;
      }
      var p := chk.path;
      if Open in faults {
        return Returned(false);
      }
      var r := CreateFrom(StoreAt(p), 0, faults);
      disk := disk[p := r.1];
      return Returned(r.0);
    }

    /** pg_sqlite_fs_remove: unlink the store file. */
    method Remove(path: Option<string>, faults: set<Call>) returns (out: Outcome)
      requires Valid()
      modifies this`disk
      ensures Valid()
      ensures path.None? ==> out == Raised && disk == old(disk)
      ensures path.Some? ==>
        var chk := CheckPath(path.value, location, canonicalize);
        if !chk.Accepted? then out == Raised && disk == old(disk)
        else if chk.path !in old(disk) || Unlink in faults then out == Returned(false) && disk == old(disk)
        else out == Returned(true) && disk == old(disk) - {chk.path}
    {
      if path.None? {
        return Raised;
      }
      var chk := CheckPath(path.value, location, canonicalize);
      if !chk.Accepted? {
        return Raised;
      }
      var p := chk.path;
      if p !in disk || Unlink in faults {
        return Returned(false);
      }
      disk := disk - {p};
      return Returned(true);
    }

    /**
     * pg_sqlite_fs_insert_file: upsert one files row. The path and inode must
     * not be NULL; other NULL arguments bind NULL, a NULL payload_size binds 0.
     * `debug1` says whether DEBUG1 messages are emitted: the message logged
     * before the prepare reads the mountpoint and rel_path through their
     * pointers, so with it on a NULL one of the two is dereferenced.
     */
    method InsertFile(path: Option<string>, inode: Option<int>, mountpoint: Option<string>,
                      relPath: Option<string>, header: Option<Bytes>, payloadSize: Option<int>,
                      prepend: Option<Bytes>, append: Option<Bytes>, debug1: bool, faults: set<Call>)
      returns (out: Outcome)
      requires Valid()
      modifies this`disk
      ensures Valid()
      ensures path.None? || inode.None? ==> out == Raised && disk == old(disk)
      ensures path.Some? && inode.Some? ==>
        var chk := CheckPath(path.value, location, canonicalize);
        if !chk.Accepted? then out == Raised && disk == old(disk)
        else if Open in faults then out == Returned(false) && disk == old(disk)
        else
          var db := old(StoreAt(chk.path));
          if debug1 && (mountpoint.None? || relPath.None?) then
            out == Outcome.Undefined && disk == old(disk)[chk.path := db]
          else
            var ok := Prepare !in faults && TableObject(Files) in db.schema && Bind(0) !in faults && Step(0) !in faults;
            var row := FileRow(mountpoint, relPath, header, payloadSize.GetOr(0), prepend, append);
            out == Returned(ok) && disk == old(disk)[chk.path := if ok then UpsertFile(db, inode.value, row) else db]
    {
      if path.None? || inode.None? {
        return Raised;
      }
      var chk := CheckPath(path.value, location, canonicalize);
      if !chk.Accepted? {
        return Raised;
      }
      var p := chk.path;
      if Open in faults {
        return Returned(false);
      }
      var db := StoreAt(p);
      disk := disk[p := db];
      if debug1 && (mountpoint.None? || relPath.None?) {
        return Outcome.Undefined;
      }
      if Prepare in faults || TableObject(Files) !in db.schema {
        return Returned(false);
      }
      if Bind(0) in faults {
        return Returned(false);
      }
      if Step(0) in faults {
        return Returned(false);
      }
      var row := FileRow(mountpoint, relPath, header, payloadSize.GetOr(0), prepend, append);
      disk := disk[p := UpsertFile(db, inode.value, row)];
      return Returned(true);
    }

    /**
     * pg_sqlite_fs_insert_entry: upsert one entries row. The path, inode, name
     * and parent must not be NULL; a (parent, name) held by another inode
     * makes the step fail.
     */
    method InsertEntry(path: Option<string>, inode: Option<int>, name: Option<string>, parent: Option<int>,
                       ctime: int, mtime: int, nlink: int, size: int, isDir: bool, faults: set<Call>)
      returns (out: Outcome)
      requires Valid()
      modifies this`disk
      ensures Valid()
      ensures path.None? || inode.None? || name.None? || parent.None? ==> out == Raised && disk == old(disk)
      ensures path.Some? && inode.Some? && name.Some? && parent.Some? ==>
        var chk := CheckPath(path.value, location, canonicalize);
        if !chk.Accepted? then out == Raised && disk == old(disk)
        else if Open in faults then out == Returned(false) && disk == old(disk)
        else
          var db := old(StoreAt(chk.path));
          var e := Entry(name.value, parent.value, ctime, mtime, nlink, size, if isDir then 1 else 0);
          var r := UpsertEntry(db, inode.value, e);
          var ok := Prepare !in faults && TableObject(Entries) in db.schema && Bind(0) !in faults
                    && Step(0) !in faults && r.Some?;
          out == Returned(ok) && disk == old(disk)[chk.path := if ok then r.value else db]
    {
      if path.None? || inode.None? || name.None? || parent.None? {
        return Raised;
      }
      var chk := CheckPath(path.value, location, canonicalize);
      if !chk.Accepted? {
        return Raised;
      }
      var p := chk.path;
      if Open in faults {
        return Returned(false);
      }
      var db := StoreAt(p);
      disk := disk[p := db];
      if Prepare in faults || TableObject(Entries) !in db.schema {
        return Returned(false);
      }
      if Bind(0) in faults {
        return Returned(false);
      }
      var e := Entry(name.value, parent.value, ctime, mtime, nlink, size, if isDir then 1 else 0);
      var r := UpsertEntry(db, inode.value, e);
      if Step(0) in faults || r.None? {
        return Returned(false);
      }
      disk := disk[p := r.value];
      return Returned(true);
    }

    /**
     * pg_sqlite_fs_delete_file: delete one files row. A missing store raises;
     * a failed prepare or bind returns false; a failed step still returns true.
     */
    method DeleteFile(path: Option<string>, inode: int, faults: set<Call>) returns (out: Outcome)
      requires Valid()
      modifies this`disk
      ensures Valid()
      ensures path.None? ==> out == Outcome.Undefined && disk == old(disk)
      ensures path.Some? ==> var chk := CheckPath(path.value, location, canonicalize);
        if !chk.Accepted? || chk.path !in old(disk) || Open in faults then out == Raised && disk == old(disk)
        else
          var db := old(disk)[chk.path];
          if Prepare in faults || TableObject(Files) !in db.schema || Bind(0) in faults then
            out == Returned(false) && disk == old(disk)
          else if Step(0) in faults then out == Returned(true) && disk == old(disk)
          else out == Returned(true) && disk == old(disk)[chk.path := DeleteFileRow(db, inode)]
    {
      if path.None? {
        return Outcome.Undefined;
      }
      var chk := CheckPath(path.value, location, canonicalize);
      if !chk.Accepted? {
        return Raised;
      }
      var p := chk.path;
      if p !in disk || Open in faults {
        return Raised;
      }
      var db := disk[p];
      // a failed prepare leaves no statement, and binding to none fails
      if Prepare in faults || TableObject(Files) !in db.schema || Bind(0) in faults {
        return Returned(false);
      }
      if Step(0) in faults {
        return Returned(true);
      }
      disk := disk[p := DeleteFileRow(db, inode)];
      return Returned(true);
    }

    /**
     * pg_sqlite_fs_delete_entry: delete an entry and its direct children. A
     * missing store raises; a failed prepare, bind or step returns false.
     */
    method DeleteEntry(path: Option<string>, inode: int, faults: set<Call>) returns (out: Outcome)
      requires Valid()
      modifies this`disk
      ensures Valid()
      ensures path.None? ==> out == Outcome.Undefined && disk == old(disk)
      ensures path.Some? ==> var chk := CheckPath(path.value, location, canonicalize);
        if !chk.Accepted? || chk.path !in old(disk) || Open in faults then out == Raised && disk == old(disk)
        else
          var db := old(disk)[chk.path];
          if Prepare in faults || TableObject(Entries) !in db.schema || Bind(0) in faults || Step(0) in faults then
            out == Returned(false) && disk == old(disk)
          else out == Returned(true) && disk == old(disk)[chk.path := DeleteEntryRows(db, inode)]
    {
      if path.None? {
        return Outcome.Undefined;
      }
      var chk := CheckPath(path.value, location, canonicalize);
      if !chk.Accepted? {
        return Raised;
      }
      var p := chk.path;
      if p !in disk || Open in faults {
        return Raised;
      }
      var db := disk[p];
      if Prepare in faults || TableObject(Entries) !in db.schema || Bind(0) in faults {
        return Returned(false);
      }
      if Step(0) in faults {
        return Returned(false);
      }
      disk := disk[p := DeleteEntryRows(db, inode)];
      return Returned(true);
    }

    /** pg_sqlite_fs_truncate_table: run one fixed statement text on an existing store. */
    method TruncateTable(path: Option<string>, sql: string, faults: set<Call>) returns (out: Outcome)
      requires Valid()
      modifies this`disk
      ensures Valid()
      ensures path.None? ==> out == Outcome.Undefined && disk == old(disk)
      ensures path.Some? ==> var chk := CheckPath(path.value, location, canonicalize);
        if !chk.Accepted? || chk.path !in old(disk) || Open in faults then out == Raised && disk == old(disk)
        else
          var d := ParseDelete(sql);
          var db := old(disk)[chk.path];
          if Exec in faults || d.None? || ApplyDelete(db, d.value).None? then
            out == Returned(false) && disk == old(disk)
          else out == Returned(true) && disk == old(disk)[chk.path := ApplyDelete(db, d.value).value]
    {
      if path.None? {
        return Outcome.Undefined;
      }
      var chk := CheckPath(path.value, location, canonicalize);
      if !chk.Accepted? {
        return Raised;
      }
      var p := chk.path;
      if p !in disk || Open in faults {
        return Raised;
      }
      var db := disk[p];
      var d := ParseDelete(sql);
      if Exec in faults || d.None? {
        return Returned(false);
      }
      var r := ApplyDelete(db, d.value);
      if r.None? {
        return Returned(false);
      }
      disk := disk[p := r.value];
      return Returned(true);
    }

    /** pg_sqlite_fs_truncate_entries: delete every entry with inode > 1. */
    method TruncateEntries(path: Option<string>, faults: set<Call>) returns (out: Outcome)
      requires Valid()
      modifies this`disk
      ensures Valid()
      ensures path.None? ==> out == Outcome.Undefined && disk == old(disk)
      ensures path.Some? ==> var chk := CheckPath(path.value, location, canonicalize);
        if !chk.Accepted? || chk.path !in old(disk) || Open in faults then out == Raised && disk == old(disk)
        else
          var db := old(disk)[chk.path];
          if Exec in faults || TableObject(Entries) !in db.schema then out == Returned(false) && disk == old(disk)
          else
            out == Returned(true) && chk.path in disk && disk == old(disk)[chk.path := disk[chk.path]]
            && (forall k :: k in disk[chk.path].entries <==> k in db.entries && k <= 1)
            && (forall k :: k in disk[chk.path].entries ==> disk[chk.path].entries[k] == db.entries[k])
            && disk[chk.path].schema == db.schema
            && disk[chk.path].files == db.files && disk[chk.path].attributes == db.attributes
    {
      ParseDeleteText(DeleteAboveRoot(Entries));
      out := TruncateTable(path, DeleteText(DeleteAboveRoot(Entries)), faults);
    }

    /** pg_sqlite_fs_truncate_files: delete every files row. */
    method TruncateFiles(path: Option<string>, faults: set<Call>) returns (out: Outcome)
      requires Valid()
      modifies this`disk
      ensures Valid()
      ensures path.None? ==> out == Outcome.Undefined && disk == old(disk)
      ensures path.Some? ==> var chk := CheckPath(path.value, location, canonicalize);
        if !chk.Accepted? || chk.path !in old(disk) || Open in faults then out == Raised && disk == old(disk)
        else
          var db := old(disk)[chk.path];
          if Exec in faults || TableObject(Files) !in db.schema then out == Returned(false) && disk == old(disk)
          else
            out == Returned(true)
            && disk == old(disk)[chk.path := db.(files := map[])]
    {
      ParseDeleteText(DeleteAll(Files));
      out := TruncateTable(path, DeleteText(DeleteAll(Files)), faults);
    }

    /** pg_sqlite_fs_truncate_attributes: delete every extended_attributes row. */
    method TruncateAttributes(path: Option<string>, faults: set<Call>) returns (out: Outcome)
      requires Valid()
      modifies this`disk
      ensures Valid()
      ensures path.None? ==> out == Outcome.Undefined && disk == old(disk)
      ensures path.Some? ==> var chk := CheckPath(path.value, location, canonicalize);
        if !chk.Accepted? || chk.path !in old(disk) || Open in faults then out == Raised && disk == old(disk)
        else
          var db := old(disk)[chk.path];
          if Exec in faults || TableObject(ExtendedAttributes) !in db.schema then
            out == Returned(false) && disk == old(disk)
          else
            out == Returned(true)
            && disk == old(disk)[chk.path := db.(attributes := map[])]
    {
      ParseDeleteText(DeleteAll(ExtendedAttributes));
      out := TruncateTable(path, DeleteText(DeleteAll(ExtendedAttributes)), faults);
    }

    /**
     * pg_sqlite_fs_insert_entries: stream the rows of a query result into
     * entries inside one transaction. `query` is what SPI_execute yields for
     * the query text (None for a NULL argument). Whatever happens after BEGIN,
     * the call returns true once its COMMIT or ROLLBACK goes through.
     */
    method InsertEntries(path: Option<string>, query: Option<QueryResult>, faults: set<Call>)
      returns (out: Outcome)
      requires Valid()
      requires query.Some? ==> WellTyped(query.value)
      modifies this`disk
      ensures Valid()
      ensures path.None? || query.None? ==> out == Raised && disk == old(disk)
      ensures path.Some? && query.Some? ==>
        var chk := CheckPath(path.value, location, canonicalize);
        if !chk.Accepted? then out == Raised && disk == old(disk)
        else if Open in faults then out == Returned(false) && disk == old(disk)
        else
          var db := old(StoreAt(chk.path));
          if Begin in faults then out == Returned(false) && disk == old(disk)[chk.path := db]
          else
            var r := LoadEntries(db, query.value, faults);
            if r.0 == SpiRaised then out == Raised && disk == old(disk)[chk.path := db]
            else if r.0 == NullDeref then out == Outcome.Undefined && disk == old(disk)[chk.path := db]
            else
              out == Returned(EndTxn !in faults)
              && disk == old(disk)[chk.path := if EndTxn in faults then db else Settle(db, r)]
    {
      if path.None? || query.None? {
        return Raised;
      }
      var chk := CheckPath(path.value, location, canonicalize);
      if !chk.Accepted? {
        return Raised;
      }
      var p := chk.path;
      if Open in faults {
        return Returned(false);
      }
      var db := StoreAt(p);
      disk := disk[p := db];
      if Begin in faults {
        return Returned(false);
      }
      var rc, work := EntriesBatch(db, query.value, faults);
      if rc == SpiRaised {
        return Raised;
      }
      if rc == NullDeref {
        return Outcome.Undefined;
      }
      // SPI_finish and sqlite3_finalize; then ROLLBACK if rc is not 0, else COMMIT
      if EndTxn in faults {
        return Returned(false);
      }
      if rc == 0 {
        disk := disk[p := work];
      }
      return Returned(true);
    }

    /**
     * pg_sqlite_fs_insert_files: stream the rows of a query result into files
     * inside one transaction; `strayTypesMatch` is the verdict of the type
     * checks that read past the 4-column descriptor.
     */
    method InsertFiles(path: Option<string>, query: Option<QueryResult>, strayTypesMatch: bool, faults: set<Call>)
      returns (out: Outcome)
      requires Valid()
      requires query.Some? ==> WellTyped(query.value)
      modifies this`disk
      ensures Valid()
      ensures path.None? || query.None? ==> out == Raised && disk == old(disk)
      ensures path.Some? && query.Some? ==>
        var chk := CheckPath(path.value, location, canonicalize);
        if !chk.Accepted? then out == Raised && disk == old(disk)
        else if Open in faults then out == Returned(false) && disk == old(disk)
        else
          var db := old(StoreAt(chk.path));
          if Begin in faults then out == Returned(false) && disk == old(disk)[chk.path := db]
          else
            var r := LoadFiles(db, query.value, strayTypesMatch, faults);
            if r.0 == SpiRaised then out == Raised && disk == old(disk)[chk.path := db]
            else if r.0 == NullDeref then out == Outcome.Undefined && disk == old(disk)[chk.path := db]
            else
              out == Returned(EndTxn !in faults)
              && disk == old(disk)[chk.path := if EndTxn in faults then db else Settle(db, r)]
    {
      if path.None? || query.None? {
        return Raised;
      }
      var chk := CheckPath(path.value, location, canonicalize);
      if !chk.Accepted? {
        return Raised;
      }
      var p := chk.path;
      if Open in faults {
        return Returned(false);
      }
      var db := StoreAt(p);
      disk := disk[p := db];
      if Begin in faults {
        return Returned(false);
      }
      var rc, work := FilesBatch(db, query.value, strayTypesMatch, faults);
      if rc == SpiRaised {
        return Raised;
      }
      if rc == NullDeref {
        return Outcome.Undefined;
      }
      if EndTxn in faults {
        return Returned(false);
      }
      // COMMIT needs rc 0, which no well-typed result gives (FilesNeverCommit): ROLLBACK
      if rc == 0 {
        assert false;
      }
      return Returned(true);
    }
  }
}
