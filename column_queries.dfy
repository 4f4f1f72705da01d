/**
 * The read-only queries of the column observer (src/engine/event-manager.js) over its
 * `columns` dictionary: column id -> the ordered list of event records placed in it.
 */
module ColumnQueries {
  import opened Wrappers
  import opened Dict

  /** What `addEventToColumn` stores for an event: its id and the rectangle measured for it. */
  datatype EventRecord = EventRecord(id: string, top: real, bottom: real, width: real, height: real, left: real)

  type Columns = Dict<seq<EventRecord>>

  /** Strict vertical intersection of two records: touching edges do not overlap. */
  predicate Overlaps(a: EventRecord, b: EventRecord) {
    !(a.bottom <= b.top || a.top >= b.bottom)
  }

  lemma OverlapsSymmetric(a: EventRecord, b: EventRecord)
    ensures Overlaps(a, b) <==> Overlaps(b, a)
  {}

  /** The ids of a list of records, in list order. */
  function Ids(evs: seq<EventRecord>): (ids: seq<string>)
    ensures |ids| == |evs|
    ensures forall i :: 0 <= i < |evs| ==> ids[i] == evs[i].id
  {
    if evs == [] then [] else [evs[0].id] + Ids(evs[1..])
  }

  /** `evs.find(e => e.id === id)`: the first record carrying `id`. */
  function FindRecord(evs: seq<EventRecord>, id: string): (r: Option<EventRecord>)
    ensures r.None? <==> id !in Ids(evs)
    ensures r.Some? ==> r.value in evs && r.value.id == id
  {
    if evs == [] then None
    else
      assert Ids(evs) == [evs[0].id] + Ids(evs[1..]);
      if evs[0].id == id then Some(evs[0])
      else FindRecord(evs[1..], id)
  }

  /** The record found is the first one carrying `id`. */
  lemma {:induction false} FindRecordFirst(evs: seq<EventRecord>, id: string, i: nat)
    requires i < |evs| && evs[i].id == id
    requires forall j :: 0 <= j < i ==> evs[j].id != id
    ensures FindRecord(evs, id) == Some(evs[i])
  {
    if i > 0 {
      assert evs[0].id != id;
      assert forall j :: 0 <= j < i - 1 ==> evs[1..][j] == evs[j + 1];
      FindRecordFirst(evs[1..], id, i - 1);
    }
  }

  /** When a list holds `id` only once, that record is the one `FindRecord` returns. */
  lemma {:induction false} FindRecordUnique(evs: seq<EventRecord>, i: nat)
    requires i < |evs|
    requires forall j :: 0 <= j < |evs| && j != i ==> evs[j].id != evs[i].id
    ensures FindRecord(evs, evs[i].id) == Some(evs[i])
  {
    var r := FindRecord(evs, evs[i].id);
    assert evs[i].id in Ids(evs);
    var k :| 0 <= k < |evs| && evs[k] == r.value && r.value.id == evs[i].id;
    assert k == i;
  }

  /** `arr.flat()` of a list of record lists. */
  function Concat(ss: seq<seq<EventRecord>>): (r: seq<EventRecord>)
    ensures forall e :: e in r <==> exists i :: 0 <= i < |ss| && e in ss[i]
  {
    if ss == [] then []
    else
      var r := ss[0] + Concat(ss[1..]);
      assert forall e :: e in Concat(ss[1..]) ==> exists i :: 0 <= i < |ss| && e in ss[i] by {
        forall e | e in Concat(ss[1..]) ensures exists i :: 0 <= i < |ss| && e in ss[i] {
          var i :| 0 <= i < |ss[1..]| && e in ss[1..][i];
          assert e in ss[i + 1];
        }
      }
      assert forall e :: (exists i :: 0 <= i < |ss| && e in ss[i]) ==> e in r by {
        forall e | exists i :: 0 <= i < |ss| && e in ss[i] ensures e in r {
          var i :| 0 <= i < |ss| && e in ss[i];
          if i > 0 { assert e in ss[1..][i - 1]; }
        }
      }
      r
  }

  lemma {:induction false} FindRecordAppend(a: seq<EventRecord>, b: seq<EventRecord>, id: string)
    ensures FindRecord(a + b, id) == if FindRecord(a, id).Some? then FindRecord(a, id) else FindRecord(b, id)
  {
    if a != [] {
      assert (a + b)[1..] == a[1..] + b;
      FindRecordAppend(a[1..], b, id);
    } else {
      assert a + b == b;
    }
  }

  /** The column's list, or `[]` when the column is not registered (`columns[c] || []`). */
  function ColumnEvents(cols: Columns, c: string): seq<EventRecord> {
    Get(cols, c).GetOr([])
  }

  /** The ids other than `id` of the records in `evs` that overlap `target`, in list order. */
  function OverlappingIds(evs: seq<EventRecord>, target: EventRecord, id: string): (r: seq<string>)
    ensures forall x :: x in r <==> exists e :: e in evs && e.id == x && x != id && Overlaps(target, e)
  {
    if evs == [] then []
    else
      var rest := OverlappingIds(evs[1..], target, id);
      assert forall e :: e in evs <==> e == evs[0] || e in evs[1..];
      (if evs[0].id != id && Overlaps(target, evs[0]) then [evs[0].id] else []) + rest
  }

  /** The overlapping ids keep the column order: the search distributes over concatenation. */
  lemma {:induction false} OverlappingIdsAppend(a: seq<EventRecord>, b: seq<EventRecord>, target: EventRecord, id: string)
    ensures OverlappingIds(a + b, target, id) == OverlappingIds(a, target, id) + OverlappingIds(b, target, id)
  {
    if a == [] {
      assert a + b == b;
    } else {
      assert (a + b)[0] == a[0] && (a + b)[1..] == a[1..] + b;
      OverlappingIdsAppend(a[1..], b, target, id);
    }
  }

  /** `GetOverlapping` reports the overlapping ids of the column's list in that list's order. */
  lemma GetOverlappingOrder(cols: Columns, id: string, c: string, target: EventRecord)
    requires FindRecord(ColumnEvents(cols, c), id) == Some(target)
    ensures GetOverlapping(cols, id, c).Some? ==> GetOverlapping(cols, id, c).value == OverlappingIds(ColumnEvents(cols, c), target, id)
    ensures GetOverlapping(cols, id, c).None? <==> OverlappingIds(ColumnEvents(cols, c), target, id) == []
  {
  }

  /**
   * `_getOverlappingEventsFromColumn(id, c)`: None when `id` has no record in column `c`
   * or nothing overlaps that record; otherwise the other ids of `c` whose record overlaps
   * the first record of `id` (see `GetOverlappingMembers`), in column order.
   */
  function GetOverlapping(cols: Columns, id: string, c: string): (r: Option<seq<string>>)
    ensures id !in Ids(ColumnEvents(cols, c)) ==> r.None?
    ensures r.Some? ==> r.value != [] && id !in r.value
  {
    var evs := ColumnEvents(cols, c);
    match FindRecord(evs, id)
    case None => None
    case Some(target) =>
      var ids := OverlappingIds(evs, target, id);
      if ids == [] then None else Some(ids)
  }

  /** An id is reported by `GetOverlapping` exactly when it is another id of the column
      whose record overlaps the first record of `id`. */
  lemma GetOverlappingMembers(cols: Columns, id: string, c: string, target: EventRecord, x: string)
    requires FindRecord(ColumnEvents(cols, c), id) == Some(target)
    ensures (GetOverlapping(cols, id, c).Some? && x in GetOverlapping(cols, id, c).value) <==>
              exists e :: e in ColumnEvents(cols, c) && e.id == x && x != id && Overlaps(target, e)
  {
    var ids := OverlappingIds(ColumnEvents(cols, c), target, id);
    assert ids == [] ==> x !in ids;
  }

  /** Every id `GetOverlapping` reports is an id of the column. */
  lemma GetOverlappingWithin(cols: Columns, id: string, c: string)
    ensures GetOverlapping(cols, id, c).Some? ==>
              forall x :: x in GetOverlapping(cols, id, c).value ==> x in Ids(ColumnEvents(cols, c))
  {
    var evs := ColumnEvents(cols, c);
    if GetOverlapping(cols, id, c).Some? {
      var target := FindRecord(evs, id).value;
      forall x | x in GetOverlapping(cols, id, c).value ensures x in Ids(evs) {
        var e :| e in evs && e.id == x && x != id && Overlaps(target, e);
        var i :| 0 <= i < |evs| && evs[i] == e;
        assert Ids(evs)[i] == x;
      }
    }
  }

  /** `getEventById`: the first record carrying `id` across all columns, in key order. */
  function GetEventById(cols: Columns, id: string): Option<EventRecord> {
    FindRecord(Concat(Values(cols)), id)
  }

  /** `getColIdEvIsLoc`: the first column, in key order, holding a record with `id`. */
  function GetColIdEvIsLoc(cols: Columns, id: string): (r: Option<string>)
    ensures r.None? <==> forall i :: 0 <= i < |cols| ==> id !in Ids(cols[i].val)
    ensures r.Some? ==> r.value in Keys(cols)
  {
    if cols == [] then None
    else
      assert Keys(cols) == [cols[0].key] + Keys(cols[1..]);
      assert forall i :: 0 < i < |cols| ==> cols[i] == cols[1..][i - 1];
      if id in Ids(cols[0].val) then Some(cols[0].key)
      else GetColIdEvIsLoc(cols[1..], id)
  }

  /** The column found is the first one holding `id`. */
  lemma {:induction false} GetColIdEvIsLocFirst(cols: Columns, id: string, i: nat)
    requires i < |cols| && id in Ids(cols[i].val)
    requires forall j :: 0 <= j < i ==> id !in Ids(cols[j].val)
    ensures GetColIdEvIsLoc(cols, id) == Some(cols[i].key)
  {
    if i > 0 {
      assert id !in Ids(cols[0].val);
      assert forall j :: 0 <= j < i - 1 ==> cols[1..][j] == cols[j + 1];
      GetColIdEvIsLocFirst(cols[1..], id, i - 1);
    }
  }

  /**
   * The two lookups agree: `getEventById` finds the first record of `id` in the column
   * `getColIdEvIsLoc` names, and finds nothing when no column holds `id`.
   */
  lemma {:induction false} EventByIdInLocatedColumn(cols: Columns, id: string)
    requires WellFormed(cols)
    ensures GetEventById(cols, id) == match GetColIdEvIsLoc(cols, id)
                                       case None => None
                                       case Some(c) => FindRecord(Get(cols, c).value, id)
  {
    if cols != [] {
      assert Values(cols) == [cols[0].val] + Values(cols[1..]);
      assert Concat(Values(cols)) == cols[0].val + Concat(Values(cols[1..]));
      FindRecordAppend(cols[0].val, Concat(Values(cols[1..])), id);
      EventByIdInLocatedColumn(cols[1..], id);
      var loc := GetColIdEvIsLoc(cols[1..], id);
      if id !in Ids(cols[0].val) && loc.Some? {
        assert loc.value in Keys(cols[1..]);
        assert Get(cols, loc.value) == Get(cols[1..], loc.value);
      }
    }
  }

  /**
   * `_doEventsOverlap`: true for the same id, false when either id has no record,
   * otherwise the strict intersection of the two records `getEventById` finds.
   */
  function DoEventsOverlap(cols: Columns, id1: string, id2: string): bool {
    if id1 == id2 then true
    else
      match (GetEventById(cols, id1), GetEventById(cols, id2))
      case (Some(e1), Some(e2)) => Overlaps(e1, e2)
      case _ => false
  }

  lemma DoEventsOverlapSymmetric(cols: Columns, id1: string, id2: string)
    ensures DoEventsOverlap(cols, id1, id2) == DoEventsOverlap(cols, id2, id1)
  {}

  /** Every id occurs at most once in the list. */
  ghost predicate UniqueIds(evs: seq<EventRecord>) {
    forall i, j :: 0 <= i < j < |evs| ==> evs[i].id != evs[j].id
  }

  /** The record `getEventById` finds for a located event is its first record in its column. */
  lemma LocatedRecord(cols: Columns, c: string, id: string)
    requires WellFormed(cols)
    requires GetColIdEvIsLoc(cols, id) == Some(c)
    ensures id in Ids(ColumnEvents(cols, c))
    ensures GetEventById(cols, id) == FindRecord(ColumnEvents(cols, c), id)
  {
    EventByIdInLocatedColumn(cols, id);
    LocatedColumnHolds(cols, id);
  }

  /** The column `getColIdEvIsLoc` names does hold `id`. */
  lemma {:induction false} LocatedColumnHolds(cols: Columns, id: string)
    requires WellFormed(cols) && GetColIdEvIsLoc(cols, id).Some?
    ensures id in Ids(Get(cols, GetColIdEvIsLoc(cols, id).value).value)
  {
    if id !in Ids(cols[0].val) {
      var c := GetColIdEvIsLoc(cols[1..], id).value;
      LocatedColumnHolds(cols[1..], id);
      assert c in Keys(cols[1..]);
      assert Get(cols, c) == Get(cols[1..], c);
    }
  }

  /**
   * For two distinct events located in the same column, whose ids are unique there,
   * `_doEventsOverlap` and `_getOverlappingEventsFromColumn` give the same answer.
   */
  lemma {:induction false} DoEventsOverlapMatchesColumn(cols: Columns, c: string, id1: string, id2: string)
    requires WellFormed(cols)
    requires id1 != id2
    requires GetColIdEvIsLoc(cols, id1) == Some(c) && GetColIdEvIsLoc(cols, id2) == Some(c)
    requires UniqueIds(ColumnEvents(cols, c))
    ensures DoEventsOverlap(cols, id1, id2) <==>
              (GetOverlapping(cols, id1, c).Some? && id2 in GetOverlapping(cols, id1, c).value)
  {
    LocatedRecord(cols, c, id1);
    LocatedRecord(cols, c, id2);
    var evs := ColumnEvents(cols, c);
    var e1 := FindRecord(evs, id1).value;
    var e2 := FindRecord(evs, id2).value;
    assert DoEventsOverlap(cols, id1, id2) == Overlaps(e1, e2);
    var k2 :| 0 <= k2 < |evs| && evs[k2] == e2 && e2.id == id2;
    GetOverlappingMembers(cols, id1, c, e1, id2);
    if e :| e in evs && e.id == id2 && Overlaps(e1, e) {
      var k :| 0 <= k < |evs| && evs[k] == e;
      assert k == k2;
    }
  }
}
