/**
 * Column values, rows and the schema catalogue the helper functions probe:
 * table_has_col, pick_auth_table and auth_pk_col.
 */
module Schema {
  import opened Wrappers

  /**
   * A column value as the helpers see it: SQL NULL, a value is_numeric()
   * accepts (carried as its (int) cast), or any other string.
   */
  datatype Cell = Null | Num(n: int) | Text(s: string)

  /** A row: column name to value; a column the row lacks reads as NULL. */
  type Row = map<string, Cell>

  function Get(row: Row, col: string): Cell {
    if col in row then row[col] else Null
  }

  /**
   * The schema as introspection reports it: each table's columns, and
   * whether introspection works at all (when it does not, every
   * Schema:: call throws).
   */
  datatype Catalog = Catalog(tables: map<string, set<string>>, reachable: bool)

  datatype SchemaError = IntrospectionFailed

  /** table_has_col: hasColumn, with a thrown error read as "no such column". */
  function TableHasCol(c: Catalog, table: string, col: string): (r: bool)
    ensures r ==> c.reachable && table in c.tables && col in c.tables[table]
    ensures c.reachable && table in c.tables && col in c.tables[table] ==> r
    ensures !c.reachable ==> !r
  {
    c.reachable && table in c.tables && col in c.tables[table]
  }

  /** pick_auth_table: the first of users, customer, pelanggan that exists, else null. */
  function PickAuthTable(c: Catalog): (r: Result<Option<string>, SchemaError>)
    ensures !c.reachable <==> r == Failure(IntrospectionFailed)
    ensures c.reachable ==> r.Success?
    ensures r == Success(Some("users")) <==> c.reachable && "users" in c.tables
    ensures r == Success(Some("customer")) <==>
      c.reachable && "users" !in c.tables && "customer" in c.tables
    ensures r == Success(Some("pelanggan")) <==>
      c.reachable && "users" !in c.tables && "customer" !in c.tables && "pelanggan" in c.tables
    ensures r == Success(None) <==>
      c.reachable && "users" !in c.tables && "customer" !in c.tables && "pelanggan" !in c.tables
  {
    if !c.reachable then Failure(IntrospectionFailed)
    else if "users" in c.tables then Success(Some("users"))
    else if "customer" in c.tables then Success(Some("customer"))
    else if "pelanggan" in c.tables then Success(Some("pelanggan"))
    else Success(None)
  }

  /** The primary-key column names auth_pk_col tries, in order. */
  const AuthPkCandidates: seq<string> :=
    ["id_users", "users_id", "id", "user_id", "usersid", "customer_id"]

  /** The position of the first column of `cols` the table has, or |cols| when none. */
  function FirstColIndex(c: Catalog, table: string, cols: seq<string>): (i: nat)
    ensures i <= |cols|
    ensures i < |cols| ==> TableHasCol(c, table, cols[i])
    ensures forall k :: 0 <= k < i ==> !TableHasCol(c, table, cols[k])
  {
    if cols == [] then 0
    else if TableHasCol(c, table, cols[0]) then 0
    else 1 + FirstColIndex(c, table, cols[1..])
  }

  /** The column auth_pk_col is meant to pick: the first candidate present, else "id". */
  function AuthPk(c: Catalog, table: string): string {
    var i := FirstColIndex(c, table, AuthPkCandidates);
    if i < |AuthPkCandidates| then AuthPkCandidates[i] else "id"
  }

  /** auth_pk_col: tries the candidates in order and returns the first the table has. */
  method AuthPkCol(c: Catalog, table: string) returns (col: string)
    ensures col == AuthPk(c, table)
    ensures col in AuthPkCandidates
  {
    var j := 0;
    while j < |AuthPkCandidates|
      invariant 0 <= j <= |AuthPkCandidates|
      invariant forall k :: 0 <= k < j ==> !TableHasCol(c, table, AuthPkCandidates[k])
    {
      if TableHasCol(c, table, AuthPkCandidates[j]) {
        FirstColIndexIsFirst(c, table, AuthPkCandidates, j);
        return AuthPkCandidates[j];
      }
      j := j + 1;
    }
    FirstColIndexIsFirst(c, table, AuthPkCandidates, j);
    return "id";
  }

  /** Any position with every earlier column absent and itself present (or the end) is the first. */
  lemma FirstColIndexIsFirst(c: Catalog, table: string, cols: seq<string>, j: nat)
    requires j <= |cols|
    requires forall k :: 0 <= k < j ==> !TableHasCol(c, table, cols[k])
    requires j < |cols| ==> TableHasCol(c, table, cols[j])
    ensures FirstColIndex(c, table, cols) == j
  {
  }

  /** With introspection down, auth_pk_col falls back to "id". */
  lemma AuthPkUnreachable(c: Catalog, table: string)
    requires !c.reachable
    ensures AuthPk(c, table) == "id"
  {
    FirstColIndexIsFirst(c, table, AuthPkCandidates, |AuthPkCandidates|);
  }

  /** A table with an id_users column always uses it, whatever else it has. */
  lemma AuthPkPrefersIdUsers(c: Catalog, table: string)
    requires TableHasCol(c, table, "id_users")
    ensures AuthPk(c, table) == "id_users"
  {
    FirstColIndexIsFirst(c, table, AuthPkCandidates, 0);
  }
}
