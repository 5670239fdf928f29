/**
 * What both versions of the extension share about the two engines they drive:
 * SQLite (schema objects, the DELETE statements of the truncations, upserts
 * keyed by inode) and PostgreSQL's SPI (a query result: column types plus rows
 * of nullable cells), the way an SQL-callable function ends, the engine calls
 * that may fail for reasons outside the model, and the per-row loop of the
 * bulk loaders.
 */
module Engine {
  import opened Wrappers

  type Bytes = seq<bv8>

  /** How an SQL-callable function of the extension ends. */
  datatype Outcome =
    | Returned(ok: bool)  // PG_RETURN_BOOL
    | Raised              // elog(ERROR) or ereport(ERROR): the call is aborted
    | Undefined           // the code dereferences NULL; nothing further is modelled

  /**
   * Engine calls whose failure the model does not decide (a busy or locked
   * file, I/O, memory, a bind error). An operation receives the set of calls
   * that fail; failures the model does decide (a missing table, a uniqueness
   * clash, a missing store file) come from the store itself.
   */
  datatype Call =
    | Open            // sqlite3_open / sqlite3_open_v2, other than for a missing file
    | Ddl(k: nat)     // statement k (from 0) of the schema script of create
    | Begin           // BEGIN TRANSACTION
    | Prepare         // sqlite3_prepare_v2
    | SpiConnect      // SPI_connect
    | Bind(row: nat)  // the chained binds of row `row` (row 0 for a point operation)
    | BindSize(row: nat)  // the separate decrypted_size bind of the older entry statement
    | Step(row: nat)  // sqlite3_step of row `row`
    | Exec            // the sqlite3_exec of a truncation
    | Alloc           // asprintf in the older truncation
    | EndTxn          // the closing COMMIT or ROLLBACK
    | Unlink          // unlink of the store file, other than for a missing file

  // ---------------------------------------------------------------------------
  // Schema

  datatype Table = Files | Entries | ExtendedAttributes

  /** The tables and the two indexes on entries(parent_inode, ...). */
  datatype SchemaObject = TableObject(table: Table) | NamesIndex | ListingIndex

  /**
   * CREATE TABLE / CREATE [UNIQUE] INDEX ... IF NOT EXISTS: a no-op when the
   * object exists; an index needs the entries table; the unique `names` index
   * cannot be built over rows that already share a (parent_inode, name).
   */
  function CreateIfNotExists(schema: set<SchemaObject>, o: SchemaObject, namesUnique: bool)
    : (r: Option<set<SchemaObject>>)
    ensures o in schema ==> r == Some(schema)
    ensures r.Some? ==> r.value == schema + {o}
    ensures r.None? <==>
      o !in schema
      && ((!o.TableObject? && TableObject(Entries) !in schema) || (o == NamesIndex && !namesUnique))
  {
    if o in schema then Some(schema)
    else if !o.TableObject? && TableObject(Entries) !in schema then None
    else if o == NamesIndex && !namesUnique then None
    else Some(schema + {o})
  }

  // ---------------------------------------------------------------------------
  // The DELETE statements of the truncations

  /** A DELETE of a whole table, or of its rows with inode > 1. */
  datatype Delete = DeleteAll(table: Table) | DeleteAboveRoot(table: Table)

  function TableName(t: Table): string {
    match t
    case Files => "files"
    case Entries => "entries"
    case ExtendedAttributes => "extended_attributes"
  }

  /** The statement text SQLite accepts for each DELETE. */
  function DeleteText(d: Delete): string {
    match d
    case DeleteAll(t) => "DELETE FROM " + TableName(t)
    case DeleteAboveRoot(t) => "DELETE FROM " + TableName(t) + " WHERE inode > 1"
  }

  /**
   * What SQLite makes of a statement text, for the DELETE statements over this
   * schema; any other text (a syntax error, an unknown table) is refused.
   */
  function ParseDelete(sql: string): (r: Option<Delete>)
    ensures r.Some? ==> DeleteText(r.value) == sql
  {
    if sql == DeleteText(DeleteAll(Files)) then Some(DeleteAll(Files))
    else if sql == DeleteText(DeleteAll(Entries)) then Some(DeleteAll(Entries))
    else if sql == DeleteText(DeleteAll(ExtendedAttributes)) then Some(DeleteAll(ExtendedAttributes))
    else if sql == DeleteText(DeleteAboveRoot(Files)) then Some(DeleteAboveRoot(Files))
    else if sql == DeleteText(DeleteAboveRoot(Entries)) then Some(DeleteAboveRoot(Entries))
    else if sql == DeleteText(DeleteAboveRoot(ExtendedAttributes)) then Some(DeleteAboveRoot(ExtendedAttributes))
    else None
  }

  /** Every DELETE text reads back as its statement. */
  lemma ParseDeleteText(d: Delete)
    ensures ParseDelete(DeleteText(d)) == Some(d)
  {
    DeleteTextLengths();
  }

  /** The six texts have six different lengths, so a text's length alone tells which one it can be. */
  lemma DeleteTextLengths()
    ensures |DeleteText(DeleteAll(Files))| == 17
    ensures |DeleteText(DeleteAll(Entries))| == 19
    ensures |DeleteText(DeleteAll(ExtendedAttributes))| == 31
    ensures |DeleteText(DeleteAboveRoot(Files))| == 33
    ensures |DeleteText(DeleteAboveRoot(Entries))| == 35
    ensures |DeleteText(DeleteAboveRoot(ExtendedAttributes))| == 47
  {
  }

  // ---------------------------------------------------------------------------
  // SPI query results

  /** The type tags the loaders compare against (INT8OID, INT4OID, TEXTOID, BYTEAOID, BOOLOID). */
  datatype ColType = Int8Oid | Int4Oid | TextOid | ByteaOid | BoolOid | OtherOid(oid: nat)

  datatype Value = IntVal(i: int) | TextVal(s: string) | BytesVal(b: Bytes) | BoolVal(flag: bool) | OtherVal

  /** One result row: a cell per column, None for SQL NULL. */
  type Row = seq<Option<Value>>

  /**
   * What SPI_execute yields: a non-SELECT status, the SELECT's descriptor and
   * rows, or an ERROR it raises (a query that does not parse, plan or run).
   */
  datatype QueryResult = NotSelect | Select(types: seq<ColType>, rows: seq<Row>) | Failed

  predicate Fits(t: ColType, v: Value) {
    match t
    case Int8Oid | Int4Oid => v.IntVal?
    case TextOid => v.TextVal?
    case ByteaOid => v.BytesVal?
    case BoolOid => v.BoolVal?
    case OtherOid(_) => v.OtherVal?
  }

  /** SPI's guarantee: every row has a cell per column, of the column's type. */
  ghost predicate WellTyped(q: QueryResult) {
    q.Select? ==>
      (forall i :: 0 <= i < |q.rows| ==> |q.rows[i]| == |q.types|)
      && (forall i, k :: 0 <= i < |q.rows| && 0 <= k < |q.rows[i]| && q.rows[i][k].Some? && k < |q.types|
            ==> Fits(q.types[k], q.rows[i][k].value))
  }

  /** SPI_getbinval at position k (0-based): a position past the row reads as NULL. */
  function Cell(row: Row, k: nat): Option<Value> {
    if k < |row| then row[k] else None
  }

  // The DatumGetX readings. A non-NULL cell of another kind cannot reach them
  // in a well-typed result whose column types passed the loader's check; they
  // read it as a zero value.

  function IntAt(row: Row, k: nat): (r: Option<int>)
    ensures r.Some? <==> Cell(row, k).Some?
    ensures r.Some? && Cell(row, k).value.IntVal? ==> r.value == Cell(row, k).value.i
  {
    match Cell(row, k)
    case None => None
    case Some(IntVal(i)) => Some(i)
    case Some(_) => Some(0)
  }

  function TextAt(row: Row, k: nat): (r: Option<string>)
    ensures r.Some? <==> Cell(row, k).Some?
    ensures r.Some? && Cell(row, k).value.TextVal? ==> r.value == Cell(row, k).value.s
  {
    match Cell(row, k)
    case None => None
    case Some(TextVal(s)) => Some(s)
    case Some(_) => Some("")
  }

  function BytesAt(row: Row, k: nat): (r: Option<Bytes>)
    ensures r.Some? <==> Cell(row, k).Some?
    ensures r.Some? && Cell(row, k).value.BytesVal? ==> r.value == Cell(row, k).value.b
  {
    match Cell(row, k)
    case None => None
    case Some(BytesVal(b)) => Some(b)
    case Some(_) => Some([])
  }

  function BoolAt(row: Row, k: nat): (r: Option<bool>)
    ensures r.Some? <==> Cell(row, k).Some?
    ensures r.Some? && Cell(row, k).value.BoolVal? ==> r.value == Cell(row, k).value.flag
  {
    match Cell(row, k)
    case None => None
    case Some(BoolVal(b)) => Some(b)
    case Some(_) => Some(false)
  }

  /** The SQLITE_FS_CHECK_TYPE checks: position k has type expected[k], for each k checked. */
  predicate TypesMatch(types: seq<ColType>, expected: seq<ColType>) {
    |expected| <= |types| && types[..|expected|] == expected
  }

  // ---------------------------------------------------------------------------
  // The per-row loop of the bulk loaders

  /** SPI_OK_SELECT: the status left in `rc` when the loop runs no row. */
  const SpiOkSelect := 5

  /** SPI_ERROR_CONNECT: the status SPI_connect returns when it fails. */
  const SpiErrorConnect := -1

  /**
   * Not a status the C code ever holds: SPI_execute raised an ERROR, and
   * control left the function through PostgreSQL's error handling.
   */
  const SpiRaised := -100

  /**
   * Not a status the C code ever holds: the loop handed a NULL Datum to
   * DatumGetTextPP or DatumGetByteaP, which read the varlena header through
   * it, so what happens next is undefined.
   */
  const NullDeref := -200

  /**
   * Reading and binding one row: a NULL mandatory field caught by its isnull
   * test, a NULL text or bytea cell detoasted before (or without) that test,
   * a failed bind, or the parameters now bound.
   */
  datatype Bound<P> = NullField | NullRead | BindFailed | Bound(params: P)

  /**
   * The loop from row i on, with `rc` and the working copy as they are before
   * row i: each row sets rc to 1, is read and bound, is stepped, and sets rc
   * to 0; the first NULL mandatory field (rc 1), failed bind (rc 6) or failed
   * step (rc 3) ends the loop, and the first NULL dereference ends the run.
   */
  function RunFrom<D, P>(work: D, rows: seq<Row>, i: nat, rc: int,
                         bind: (nat, Row) -> Bound<P>, step: (nat, D, P) -> Option<D>)
    : (r: (int, D))
    requires i <= |rows|
    ensures i == |rows| ==> r == (rc, work)
    ensures i < |rows| ==> r.0 in {0, 1, 3, 6, NullDeref}
    decreases |rows| - i
  {
    if i == |rows| then (rc, work)
    else
      match bind(i, rows[i])
      case NullField => (1, work)
      case NullRead => (NullDeref, work)
      case BindFailed => (6, work)
      case Bound(p) =>
        match step(i, work, p)
        case None => (3, work)
        case Some(next) => RunFrom(next, rows, i + 1, 0, bind, step)
  }

  /**
   * The loop `for (i = 0; i < SPI_processed; i++)` over one reused prepared
   * statement, applying each row to a working copy of the store (the open
   * transaction); `rc0` is the status before the loop.
   */
  method RunRows<D, P>(db: D, rows: seq<Row>, rc0: int,
                       bind: (nat, Row) -> Bound<P>, step: (nat, D, P) -> Option<D>)
    returns (rc: int, work: D)
    ensures (rc, work) == RunFrom(db, rows, 0, rc0, bind, step)
  {
    rc, work := rc0, db;
    var i := 0;
    while i < |rows|
      invariant 0 <= i <= |rows|
      invariant RunFrom(work, rows, i, rc, bind, step) == RunFrom(db, rows, 0, rc0, bind, step)
    {
      rc := 1;
      match bind(i, rows[i]) {
        case NullField =>
          return;
        case NullRead =>
          rc := NullDeref;
          return;
        case BindFailed =>
          rc := 6;
          return;
        case Bound(p) =>
          match step(i, work, p) {
            case None =>
              rc := 3;
              return;
            case Some(next) =>
              work := next;
          }
      }
      rc := 0;  // sqlite3_reset, ready for the next row
      i := i + 1;
    }
  }

  /**
   * A run whose rows before j all went through (rc 0, or no such row) goes
   * on from row j with the status and working copy those rows left.
   */
  lemma {:induction false} RunSplit<D, P>(work: D, rows: seq<Row>, i: nat, j: nat, rc: int,
                                          bind: (nat, Row) -> Bound<P>, step: (nat, D, P) -> Option<D>)
    requires i <= j <= |rows|
    requires j == i || RunFrom(work, rows[..j], i, rc, bind, step).0 == 0
    ensures var pre := RunFrom(work, rows[..j], i, rc, bind, step);
            RunFrom(work, rows, i, rc, bind, step) == RunFrom(pre.1, rows, j, pre.0, bind, step)
    decreases j - i
  {
    if i < j {
      assert rows[..j][i] == rows[i];
      match bind(i, rows[i])
      case Bound(p) =>
        match step(i, work, p) {
          case Some(next) => RunSplit(next, rows, i + 1, j, 0, bind, step);
          case None =>
        }
      case _ =>
    }
  }

  /** A run that ends in a NULL dereference met a row whose reading detoasts a NULL. */
  lemma {:induction false} RunDerefHasCause<D, P>(work: D, rows: seq<Row>, i: nat, rc: int,
                                                  bind: (nat, Row) -> Bound<P>, step: (nat, D, P) -> Option<D>)
    requires i <= |rows| && rc != NullDeref
    requires RunFrom(work, rows, i, rc, bind, step).0 == NullDeref
    ensures exists j :: i <= j < |rows| && bind(j, rows[j]).NullRead?
    decreases |rows| - i
  {
    match bind(i, rows[i])
    case NullRead =>
    case Bound(p) =>
      match step(i, work, p) {
        case Some(next) => RunDerefHasCause(next, rows, i + 1, 0, bind, step);
        case None =>
      }
    case _ =>
  }

  // ---------------------------------------------------------------------------
  // Upserts keyed by inode, in order

  /** `INSERT ... ON CONFLICT(inode) DO UPDATE` of each (inode, row) in turn. */
  function Upserts<V>(m: map<int, V>, s: seq<(int, V)>): (r: map<int, V>)
    ensures r.Keys == m.Keys + set j | 0 <= j < |s| :: s[j].0
    decreases |s|
  {
    if s == [] then m
    else
      var r := Upserts(m[s[0].0 := s[0].1], s[1..]);
      var all := set j | 0 <= j < |s| :: s[j].0;
      var rest := set j | 0 <= j < |s[1..]| :: s[1..][j].0;
      assert all == {s[0].0} + rest by {
        forall x | x in all ensures x in {s[0].0} + rest {
          var j :| 0 <= j < |s| && s[j].0 == x;
          if j > 0 { assert s[1..][j - 1].0 == x; }
        }
      }
      r
  }

  /** An upsert as a sequence of one followed by the rest. */
  lemma UpsertsCons<V>(m: map<int, V>, x: (int, V), tail: seq<(int, V)>)
    ensures Upserts(m, [x] + tail) == Upserts(m[x.0 := x.1], tail)
  {
    assert ([x] + tail)[1..] == tail;
  }

  /** The rows a sequence of upserts leaves are the old ones overridden by the upserted ones. */
  lemma {:induction false} UpsertsOverride<V>(m: map<int, V>, s: seq<(int, V)>)
    ensures Upserts(m, s) == m + Upserts(map[], s)
    decreases |s|
  {
    if s != [] {
      var k, v := s[0].0, s[0].1;
      var tail := Upserts(map[], s[1..]);
      calc {
        Upserts(m, s);
        Upserts(m[k := v], s[1..]);
        { UpsertsOverride(m[k := v], s[1..]); }
        m[k := v] + tail;
        { assert m[k := v] + tail == m + (map[k := v] + tail); }
        m + (map[k := v] + tail);
        { UpsertsOverride(map[k := v], s[1..]); }
        m + Upserts(map[k := v], s[1..]);
        { var empty: map<int, V> := map[]; assert empty[k := v] == map[k := v]; }
        m + Upserts(map[], s);
      }
    }
  }

  /** Applying the same sequence of upserts twice leaves what applying it once left. */
  lemma UpsertsIdempotent<V>(m: map<int, V>, s: seq<(int, V)>)
    ensures Upserts(Upserts(m, s), s) == Upserts(m, s)
  {
    var last := Upserts(map[], s);
    UpsertsOverride(m, s);
    UpsertsOverride(Upserts(m, s), s);
    assert (m + last) + last == m + last;
  }

  /** Last writer wins: the row an inode ends with is the last one upserted for it. */
  lemma {:induction false} UpsertsLastWins<V>(m: map<int, V>, s: seq<(int, V)>, j: nat)
    requires j < |s|
    requires forall j' :: j < j' < |s| ==> s[j'].0 != s[j].0
    ensures s[j].0 in Upserts(m, s) && Upserts(m, s)[s[j].0] == s[j].1
    decreases |s|
  {
    var m' := m[s[0].0 := s[0].1];
    if j == 0 {
      UpsertsUntouched(m', s[1..], s[0].0);
    } else {
      UpsertsLastWins(m', s[1..], j - 1);
    }
  }

  /** An inode no upsert names keeps its row. */
  lemma {:induction false} UpsertsUntouched<V>(m: map<int, V>, s: seq<(int, V)>, k: int)
    requires k in m
    requires forall j :: 0 <= j < |s| ==> s[j].0 != k
    ensures k in Upserts(m, s) && Upserts(m, s)[k] == m[k]
    decreases |s|
  {
    if s != [] {
      UpsertsUntouched(m[s[0].0 := s[0].1], s[1..], k);
    }
  }
}
