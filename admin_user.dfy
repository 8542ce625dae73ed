/**
 * The update decision of ensure_admin_user: on an existing "admin" row,
 * set the role to admin when it is not, fill in an empty api_token, and
 * stamp updated_at, all in one update of that row; otherwise do nothing.
 * Password hashing and the random token are opaque inputs.
 */
module AdminUser {
  import opened Wrappers
  import opened Schema
  import opened PrimaryKey

  /** PHP's empty() on a column value: NULL, "" and 0 are empty. */
  predicate IsEmptyCell(v: Cell)
    ensures v.Text? && v.s != "" ==> !IsEmptyCell(v)
    ensures v.Num? && v.n != 0 ==> !IsEmptyCell(v)
  {
    v == Null || v == Text("") || v == Num(0)
  }

  /** `where('username', 'admin')->first()`: the position of the first admin row, or |rows|. */
  function FindAdmin(rows: seq<Row>): (i: nat)
    ensures i <= |rows|
    ensures i < |rows| ==> Get(rows[i], "username") == Text("admin")
    ensures forall k :: 0 <= k < i ==> Get(rows[k], "username") != Text("admin")
  {
    if rows == [] then 0
    else if Get(rows[0], "username") == Text("admin") then 0
    else 1 + FindAdmin(rows[1..])
  }

  /** The `$updates` array for the admin row `admin` of table `table`. */
  function AdminUpdates(c: Catalog, table: string, admin: Row, token: Cell, now: Cell): (u: Row)
    ensures u.Keys <= {"role", "api_token", "updated_at"}
    ensures "role" in u <==> TableHasCol(c, table, "role") && Get(admin, "role") != Text("admin")
    ensures "role" in u ==> u["role"] == Text("admin")
    ensures "api_token" in u <==> TableHasCol(c, table, "api_token") && IsEmptyCell(Get(admin, "api_token"))
    ensures "api_token" in u ==> u["api_token"] == token
    ensures "updated_at" in u <==> ("role" in u || "api_token" in u) && TableHasCol(c, table, "updated_at")
    ensures "updated_at" in u ==> u["updated_at"] == now
  {
    var needsRole := TableHasCol(c, table, "role") && Get(admin, "role") != Text("admin");
    var needsToken := TableHasCol(c, table, "api_token") && IsEmptyCell(Get(admin, "api_token"));
    if !(needsRole || needsToken) then map[]
    else
      var withRole: Row := if needsRole then map["role" := Text("admin")] else map[];
      var withToken: Row := if needsToken then withRole["api_token" := token] else withRole;
      if TableHasCol(c, table, "updated_at") then withToken["updated_at" := now] else withToken
  }

  /**
   * Running the decision again on the updated row asks for nothing: once
   * the role is admin and the token is non-empty, ensure_admin_user is a
   * no-op.
   */
  lemma AdminUpdatesSettle(c: Catalog, table: string, admin: Row, token: Cell, now: Cell, token2: Cell, now2: Cell)
    requires !IsEmptyCell(token)
    ensures AdminUpdates(c, table, admin + AdminUpdates(c, table, admin, token, now), token2, now2) == map[]
  {
    var u := AdminUpdates(c, table, admin, token, now);
    var admin2 := admin + u;
    var u2 := AdminUpdates(c, table, admin2, token2, now2);
    assert "role" !in u2 by {
      if TableHasCol(c, table, "role") {
        assert Get(admin2, "role") == Text("admin");
      }
    }
    assert "api_token" !in u2 by {
      if TableHasCol(c, table, "api_token") {
        assert !IsEmptyCell(Get(admin2, "api_token"));
      }
    }
    assert u2.Keys == {};
  }

  /** What ensure_admin_user did. */
  datatype AdminOutcome =
    | Unchanged   // nothing to do, or no admin row
    | Updated     // the admin row was updated
    | PkMissing   // the admin row has no value for the key column: reading it throws

  /**
   * ensure_admin_user. `token` is the Str::random(40) the update uses and
   * `now` the current time; the `$base` array the source builds is never
   * written anywhere, so it has no counterpart here.
   */
  method EnsureAdminUser(c: Catalog, name: string, t: Table, token: Cell, now: Cell)
    returns (out: AdminOutcome)
    modifies t
    ensures out != Updated ==> t.rows == old(t.rows)
    ensures !TableHasCol(c, name, "username") || !TableHasCol(c, name, "password") ==> out == Unchanged
    ensures FindAdmin(old(t.rows)) == |old(t.rows)| ==> out == Unchanged
    ensures (TableHasCol(c, name, "username") && TableHasCol(c, name, "password")
             && FindAdmin(old(t.rows)) < |old(t.rows)|) ==>
        var admin := old(t.rows)[FindAdmin(old(t.rows))];
        var u := AdminUpdates(c, name, admin, token, now);
        var pk := AuthPk(c, name);
        && (u == map[] ==> out == Unchanged)
        && (u != map[] && pk !in admin ==> out == PkMissing)
        && (u != map[] && pk in admin ==>
              && out == Updated
              && |t.rows| == |old(t.rows)|
              && forall k :: 0 <= k < |t.rows| ==>
                   t.rows[k] == if Get(old(t.rows)[k], pk) == admin[pk] then old(t.rows)[k] + u
                                else old(t.rows)[k])
  {
    if !TableHasCol(c, name, "username") || !TableHasCol(c, name, "password") {
      return Unchanged;
    }
    var pk := AuthPkCol(c, name);
    var i := FindAdmin(t.rows);
    if i == |t.rows| {
      return Unchanged;
    }
    var admin := t.rows[i];
    var needsRole := TableHasCol(c, name, "role") && Get(admin, "role") != Text("admin");
    var needsToken := TableHasCol(c, name, "api_token") && IsEmptyCell(Get(admin, "api_token"));
    if needsRole || needsToken {
      var updates: Row := map[];
      if needsRole {
        updates := updates["role" := Text("admin")];
      }
      if needsToken {
        updates := updates["api_token" := token];
      }
      if TableHasCol(c, name, "updated_at") {
        updates := updates["updated_at" := now];
      }
      assert updates == AdminUpdates(c, name, admin, token, now);
      if pk !in admin {
        return PkMissing;
      }
      t.UpdateWhere(pk, admin[pk], updates);
      return Updated;
    }
    return Unchanged;
  }
}
