/**
 * canonical_jadwal: the schedules sharing a studio, date and start time
 * form one group, and the smallest id of the group is its canonical id.
 */
module Jadwal {
  import opened Wrappers

  /** A row of the schedule table, with the columns the grouping reads. */
  datatype Schedule = Schedule(jadwalId: int, studioId: int, tanggal: string, jamMulai: string)

  /** `[canonId, ids, row]`: the canonical id, the group's ids in order, the row looked up. */
  datatype Canonical = Canonical(canonId: Option<int>, ids: seq<int>, row: Option<Schedule>)

  /** Two schedules occupy the same slot. */
  predicate SameSlot(a: Schedule, b: Schedule) {
    a.studioId == b.studioId && a.tanggal == b.tanggal && a.jamMulai == b.jamMulai
  }

  /** `where('jadwal_id', $id)->first()`: the first row, in table order, with that id. */
  function FindSchedule(table: seq<Schedule>, id: int): (r: Option<Schedule>)
    ensures r.Some? ==> r.value in table && r.value.jadwalId == id
    ensures r.None? ==> forall j :: 0 <= j < |table| ==> table[j].jadwalId != id
  {
    if table == [] then None
    else if table[0].jadwalId == id then Some(table[0])
    else
      assert forall j :: 1 <= j < |table| ==> table[j] == table[1..][j - 1];
      FindSchedule(table[1..], id)
  }

  /** `pluck('jadwal_id')` of the rows in the slot of `jd`, in table order. */
  function SlotIds(table: seq<Schedule>, jd: Schedule): (r: seq<int>)
    ensures forall x :: x in r <==>
      exists j :: 0 <= j < |table| && SameSlot(table[j], jd) && table[j].jadwalId == x
  {
    if table == [] then []
    else
      var rest := SlotIds(table[1..], jd);
      assert forall j :: 1 <= j < |table| ==> table[j] == table[1..][j - 1];
      if SameSlot(table[0], jd) then [table[0].jadwalId] + rest else rest
  }

  predicate SortedAsc(s: seq<int>) {
    forall i, j :: 0 <= i < j < |s| ==> s[i] <= s[j]
  }

  /** Inserts `x` into a sorted sequence, keeping it sorted. */
  function InsertSorted(x: int, s: seq<int>): (r: seq<int>)
    requires SortedAsc(s)
    ensures SortedAsc(r)
    ensures forall y :: y in r <==> y == x || y in s
    ensures multiset(r) == multiset(s) + multiset{x}
  {
    if s == [] || x <= s[0] then [x] + s
    else
      var rest := InsertSorted(x, s[1..]);
      var r := [s[0]] + rest;
      assert forall k :: 0 <= k < |rest| ==> s[0] <= rest[k] by {
        forall k | 0 <= k < |rest| ensures s[0] <= rest[k] {
          assert rest[k] in rest;
        }
      }
      assert SortedAsc(r) by {
        forall i, j | 0 <= i < j < |r| ensures r[i] <= r[j] {
          assert r[j] == rest[j - 1];
          if i > 0 {
            assert r[i] == rest[i - 1];
          }
        }
      }
      assert s == [s[0]] + s[1..];
      r
  }

  /** `orderBy('jadwal_id')`: the same ids, ascending. */
  function SortAsc(s: seq<int>): (r: seq<int>)
    ensures SortedAsc(r)
    ensures multiset(r) == multiset(s)
  {
    if s == [] then []
    else
      assert s == [s[0]] + s[1..];
      InsertSorted(s[0], SortAsc(s[1..]))
  }

  /** PHP's min() over a non-empty list. */
  function MinOf(s: seq<int>): (m: int)
    requires |s| > 0
    ensures m in s
    ensures forall x :: x in s ==> m <= x
  {
    if |s| == 1 then s[0]
    else
      var rest := MinOf(s[1..]);
      assert forall x :: x in s ==> x == s[0] || x in s[1..];
      if s[0] <= rest then s[0] else rest
  }

  /** The minimum of a sorted sequence is its first element. */
  lemma MinOfSorted(s: seq<int>)
    requires |s| > 0 && SortedAsc(s)
    ensures MinOf(s) == s[0]
  {
    assert s[0] in s;
  }

  /** canonical_jadwal. */
  function CanonicalJadwal(table: seq<Schedule>, jadwalId: int): (r: Canonical)
    ensures FindSchedule(table, jadwalId).None? ==> r == Canonical(None, [], None)
    ensures FindSchedule(table, jadwalId).Some? ==>
      var jd := FindSchedule(table, jadwalId).value;
      && r.row == Some(jd)
      && SortedAsc(r.ids)
      && multiset(r.ids) == multiset(SlotIds(table, jd))
      && jadwalId in r.ids
      && r.canonId == Some(r.ids[0])
      && r.canonId.value <= jadwalId
      && forall x :: x in r.ids ==> r.canonId.value <= x
  {
    var found := FindSchedule(table, jadwalId);
    if found.None? then Canonical(None, [], None)
    else
      var jd := found.value;
      var ids := SortAsc(SlotIds(table, jd));
      assert jadwalId in SlotIds(table, jd) by {
        var j :| 0 <= j < |table| && table[j] == jd;
      }
      assert jadwalId in multiset(ids);
      if |ids| == 0 then Canonical(None, [], None)
      else
        MinOfSorted(ids);
        Canonical(Some(MinOf(ids)), ids, Some(jd))
  }

  /** Every member of a schedule's group has that group's canonical id. */
  lemma {:induction false} CanonicalSharedByGroup(table: seq<Schedule>, a: int, b: int)
    requires FindSchedule(table, a).Some? && FindSchedule(table, b).Some?
    requires SameSlot(FindSchedule(table, a).value, FindSchedule(table, b).value)
    ensures CanonicalJadwal(table, a).canonId == CanonicalJadwal(table, b).canonId
  {
    var ja := FindSchedule(table, a).value;
    var jb := FindSchedule(table, b).value;
    assert a in CanonicalJadwal(table, a).ids;
    SlotIdsSameSlot(table, ja, jb);
    SortedUnique(SortAsc(SlotIds(table, ja)), SortAsc(SlotIds(table, jb)));
  }

  /** Schedules in the same slot have the same group. */
  lemma {:induction false} SlotIdsSameSlot(table: seq<Schedule>, a: Schedule, b: Schedule)
    requires SameSlot(a, b)
    ensures SlotIds(table, a) == SlotIds(table, b)
  {
    if table != [] {
      SlotIdsSameSlot(table[1..], a, b);
    }
  }

  /** Two sorted sequences with the same elements have the same first element. */
  lemma SortedUnique(s: seq<int>, t: seq<int>)
    requires SortedAsc(s) && SortedAsc(t) && multiset(s) == multiset(t) && |s| > 0
    ensures |t| > 0 && s[0] == t[0]
  {
    assert s[0] in multiset(t);
    assert t[0] in multiset(s);
    assert |t| == |multiset(t)|;
    var i :| 0 <= i < |t| && t[i] == s[0];
    var j :| 0 <= j < |s| && s[j] == t[0];
  }
}
