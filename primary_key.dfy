/**
 * Primary-key generation for tables whose auto-increment may be missing:
 * table_smallest_missing_pk and the three-stage table_insert_with_pk.
 */
module PrimaryKey {
  import opened Wrappers
  import opened Schema

  /** The integers the gap search collects: the (int) casts of the numeric values. */
  function NumericKeys(column: seq<Cell>): set<int> {
    set c | c in column && c.Num? :: c.n
  }

  /** `r` is the least positive integer not in `keys`. */
  predicate IsSmallestMissing(keys: set<int>, r: int) {
    && r >= 1
    && r !in keys
    && forall k :: 1 <= k < r ==> k in keys
  }

  /**
   * table_smallest_missing_pk over the plucked key column: collect the
   * numeric values into a set, then count up from 1 to the first gap.
   */
  method SmallestMissingPk(column: seq<Cell>) returns (r: int)
    ensures IsSmallestMissing(NumericKeys(column), r)
  {
    var present: set<int> := {};
    for j := 0 to |column|
      invariant present == NumericKeys(column[..j])
    {
      assert column[..j + 1] == column[..j] + [column[j]];
      if column[j].Num? {
        present := present + {column[j].n};
      }
    }
    assert column[..|column|] == column;
    var i := 1;
    ghost var seen: set<int> := {};
    while true
      invariant i >= 1
      invariant forall k :: k in seen <==> 1 <= k < i
      invariant seen <= present
      decreases |present - seen|
    {
      if i !in present {
        return i;
      }
      assert (present - seen) - {i} == present - (seen + {i});
      seen := seen + {i};
      i := i + 1;
    }
  }

  /** The column as `pluck($pk)` returns it: one value per row, NULL where the row lacks it. */
  function Column(rows: seq<Row>, col: string): (r: seq<Cell>)
    ensures |r| == |rows|
    ensures forall i :: 0 <= i < |rows| ==> r[i] == Get(rows[i], col)
  {
    seq(|rows|, i requires 0 <= i < |rows| => Get(rows[i], col))
  }

  /** What `max($pk)` reports: no value, a numeric maximum, or a non-numeric value. */
  datatype ColMax = NoValue | MaxNum(n: int) | MaxNonNumeric

  /**
   * SQL MAX over the key column, ignoring NULLs. A column holding any
   * non-numeric string is taken to have a non-numeric maximum.
   */
  function ColumnMax(column: seq<Cell>): (m: ColMax)
    ensures m.NoValue? <==> forall i :: 0 <= i < |column| ==> column[i].Null?
    ensures m.MaxNonNumeric? <==> exists i :: 0 <= i < |column| && column[i].Text?
    ensures m.MaxNum? ==> m.n in NumericKeys(column)
    ensures m.MaxNum? ==> forall k :: k in NumericKeys(column) ==> k <= m.n
  {
    if column == [] then NoValue
    else
      var rest := ColumnMax(column[1..]);
      assert forall i :: 1 <= i < |column| ==> column[i] == column[1..][i - 1];
      assert NumericKeys(column) == NumericKeys(column[..1]) + NumericKeys(column[1..]) by {
        assert column == column[..1] + column[1..];
      }
      match column[0]
      case Null => rest
      case Text(_) => MaxNonNumeric
      case Num(n) =>
        match rest
        case NoValue => MaxNum(n)
        case MaxNum(m) => MaxNum(if n < m then m else n)
        case MaxNonNumeric => MaxNonNumeric
  }

  /** The key the third stage assigns: max + 1, or 1 for an empty column or a non-numeric max. */
  function MaxFallbackKey(m: ColMax): (k: int)
    ensures m.MaxNum? ==> k == m.n + 1
    ensures !m.MaxNum? ==> k == 1
  {
    if m.MaxNum? then m.n + 1 else 1
  }

  /** On a column without non-numeric values, max + 1 never collides with an existing key. */
  lemma MaxFallbackIsFresh(column: seq<Cell>)
    requires !ColumnMax(column).MaxNonNumeric?
    ensures MaxFallbackKey(ColumnMax(column)) !in NumericKeys(column)
  {
    var m := ColumnMax(column);
    if m.NoValue? {
      assert forall c :: c in column ==> c.Null? by {
        forall c | c in column ensures c.Null? {
          var i :| 0 <= i < |column| && column[i] == c;
        }
      }
      assert NumericKeys(column) == {};
    }
  }

  /**
   * The gap the second stage picks is never above the key the third stage
   * would pick (or above 1, when every key is below 1): on a column without
   * gaps both fallbacks choose the same key.
   */
  lemma GapAtMostMaxFallback(column: seq<Cell>, r: int)
    requires IsSmallestMissing(NumericKeys(column), r)
    requires !ColumnMax(column).MaxNonNumeric?
    ensures var key := MaxFallbackKey(ColumnMax(column));
      r <= if key < 1 then 1 else key
  {
    MaxFallbackIsFresh(column);
    var key := MaxFallbackKey(ColumnMax(column));
    var bound := if key < 1 then 1 else key;
    assert bound !in NumericKeys(column);
  }

  /** Keys 1, 2 and 4: the gap search picks 3. */
  lemma GapScenario(r: int)
    requires IsSmallestMissing(NumericKeys([Num(1), Num(2), Text("x"), Num(4)]), r)
    ensures r == 3
  {
    var column := [Num(1), Num(2), Text("x"), Num(4)];
    assert NumericKeys(column) == {1, 2, 4} by {
      assert column[0] in column && column[1] in column && column[3] in column;
    }
    assert 1 in NumericKeys(column) && 2 in NumericKeys(column) && 3 !in NumericKeys(column);
  }

  /** Keys 1, 2 and 3, no gap: both fallbacks pick 4. */
  lemma NoGapScenario(r: int)
    requires IsSmallestMissing(NumericKeys([Num(1), Num(2), Num(3)]), r)
    ensures r == 4
    ensures MaxFallbackKey(ColumnMax([Num(1), Num(2), Num(3)])) == 4
  {
    var column := [Num(1), Num(2), Num(3)];
    assert NumericKeys(column) == {1, 2, 3} by {
      assert column[0] in column && column[1] in column && column[2] in column;
    }
    assert 1 in NumericKeys(column) && 2 in NumericKeys(column) && 3 in NumericKeys(column);
    assert 4 !in NumericKeys(column);
    assert ColumnMax(column[2..]) == MaxNum(3);
    assert ColumnMax(column[1..]) == MaxNum(3);
  }

  /** The failures each store call of table_insert_with_pk may meet. */
  datatype InsertFaults = InsertFaults(
    nativeKey: Option<int>,   // the key insertGetId generates, None when it throws
    gapQueryFails: bool,      // table_smallest_missing_pk throws
    gapInsertFails: bool,     // the insert with the gap key throws
    maxQueryFails: bool,      // max($pk) throws
    maxInsertFails: bool)     // the insert with max + 1 throws

  /** The error table_insert_with_pk lets escape. */
  datatype InsertError = NativeInsertError | MaxQueryError | MaxInsertError

  /** The row insertGetId stores: the data, with the generated key unless the data has one. */
  function NativeRow(data: Row, pk: string, key: int): (r: Row)
    ensures r.Keys == data.Keys + {pk}
    ensures forall col :: col in data ==> r[col] == data[col]
    ensures pk !in data ==> r[pk] == Num(key)
  {
    if pk in data then data else data[pk := Num(key)]
  }

  /** A table's rows, changed in place by the store calls. */
  class Table {
    var rows: seq<Row>

    constructor (rows0: seq<Row>)
      ensures rows == rows0
    {
      rows := rows0;
    }

    /** insertGetId: stores the row when the store generates a key. */
    method InsertGetId(data: Row, pk: string, generated: Option<int>) returns (key: Option<int>)
      modifies this
      ensures key == generated
      ensures rows == if generated.Some? then old(rows) + [NativeRow(data, pk, generated.value)] else old(rows)
    {
      key := generated;
      if generated.Some? {
        rows := rows + [NativeRow(data, pk, generated.value)];
      }
    }

    /** insert: stores the row unless the store rejects it. */
    method Insert(data: Row, fails: bool) returns (ok: bool)
      modifies this
      ensures ok == !fails
      ensures rows == if ok then old(rows) + [data] else old(rows)
    {
      ok := !fails;
      if ok {
        rows := rows + [data];
      }
    }

    /** pluck($col): the column, unless the query throws. */
    method Pluck(col: string, fails: bool) returns (r: Option<seq<Cell>>)
      ensures r == if fails then None else Some(Column(rows, col))
    {
      r := if fails then None else Some(Column(rows, col));
    }

    /** max($col): the column maximum, unless the query throws. */
    method Max(col: string, fails: bool) returns (r: Option<ColMax>)
      ensures r == if fails then None else Some(ColumnMax(Column(rows, col)))
    {
      r := if fails then None else Some(ColumnMax(Column(rows, col)));
    }

    /** update ... where $col = $value (a NULL value matches NULL, as whereNull does). */
    method UpdateWhere(col: string, value: Cell, updates: Row)
      modifies this
      ensures |rows| == |old(rows)|
      ensures forall i :: 0 <= i < |rows| ==>
        rows[i] == if Get(old(rows)[i], col) == value then old(rows)[i] + updates else old(rows)[i]
    {
      var was := rows;
      rows := seq(|was|, i requires 0 <= i < |was| =>
        if Get(was[i], col) == value then was[i] + updates else was[i]);
    }
  }

  /**
   * table_insert_with_pk: the native insert; on failure, when the data has
   * no key, the least missing key; when computing that gap throws, max + 1.
   * The original error escapes when the gap insert fails (the key is set by
   * then) or when the data already had a key.
   */
  method TableInsertWithPk(c: Catalog, name: string, t: Table, data: Row, faults: InsertFaults)
    returns (res: Result<int, InsertError>)
    modifies t
    ensures var pk := AuthPk(c, name);
      faults.nativeKey.Some? ==>
        res == Success(faults.nativeKey.value)
        && t.rows == old(t.rows) + [NativeRow(data, pk, faults.nativeKey.value)]
    ensures var pk := AuthPk(c, name);
      faults.nativeKey.None? && pk in data ==>
        res == Failure(NativeInsertError) && t.rows == old(t.rows)
    ensures var pk := AuthPk(c, name);
      faults.nativeKey.None? && pk !in data && !faults.gapQueryFails ==>
        && (faults.gapInsertFails ==> res == Failure(NativeInsertError) && t.rows == old(t.rows))
        && (!faults.gapInsertFails ==>
              && res.Success?
              && IsSmallestMissing(NumericKeys(Column(old(t.rows), pk)), res.value)
              && t.rows == old(t.rows) + [data[pk := Num(res.value)]])
    ensures var pk := AuthPk(c, name);
      faults.nativeKey.None? && pk !in data && faults.gapQueryFails ==>
        var key := MaxFallbackKey(ColumnMax(Column(old(t.rows), pk)));
        && (faults.maxQueryFails ==> res == Failure(MaxQueryError) && t.rows == old(t.rows))
        && (!faults.maxQueryFails && faults.maxInsertFails ==>
              res == Failure(MaxInsertError) && t.rows == old(t.rows))
        && (!faults.maxQueryFails && !faults.maxInsertFails ==>
              res == Success(key) && t.rows == old(t.rows) + [data[pk := Num(key)]])
  {
    var pk := AuthPkCol(c, name);
    var native := t.InsertGetId(data, pk, faults.nativeKey);
    if native.Some? {
      return Success(native.value);
    }
    var d := data;
    var inner := false;  // the inner try block threw
    if pk !in d {
      var column := t.Pluck(pk, faults.gapQueryFails);
      if column.None? {
        inner := true;
      } else {
        var available := SmallestMissingPk(column.value);
        d := d[pk := Num(available)];
        var ok := t.Insert(d, faults.gapInsertFails);
        if ok {
          return Success(available);
        }
        inner := true;
      }
    }
    if inner && pk !in d {
      var max := t.Max(pk, faults.maxQueryFails);
      if max.None? {
        return Failure(MaxQueryError);
      }
      var key := MaxFallbackKey(max.value);
      d := d[pk := Num(key)];
      var ok := t.Insert(d, faults.maxInsertFails);
      if !ok {
        return Failure(MaxInsertError);
      }
      return Success(key);
    }
    return Failure(NativeInsertError);
  }
}
