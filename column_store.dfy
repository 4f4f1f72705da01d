/**
 * The state of the column observer (src/engine/event-manager.js) as a value, and the
 * effect of its updating operations as functions of the old state: registering columns,
 * removing an event from every event column, and placing an event in one column.
 */
module ColumnStore {
  import opened Wrappers
  import opened Dict
  import opened Geometry
  import opened ColumnQueries
  import opened OverlapGroups

  /** The two dictionaries of the observer. */
  datatype Store = Store(columns: Columns, overlapped: Overlapped)

  /** The record `addEventToColumn` stores for event `id` measured at `rect`. */
  function Record(id: string, rect: ClientRect): EventRecord {
    EventRecord(id, rect.top, rect.bottom, rect.width, rect.height, rect.left)
  }

  /** `key.startsWith('column')`: the columns `removeEventFromColumns` visits. */
  predicate IsEventColumn(k: string) {
    "column" <= k
  }

  // ---------------------------------------------------------------------------
  // initializeColumns

  /** `ids.forEach(id => columns[id] = [])`. */
  function RegisterColumns(cols: Columns, ids: seq<string>): Columns {
    if ids == [] then cols
    else Set(RegisterColumns(cols, ids[..|ids| - 1]), ids[|ids| - 1], [])
  }

  /** Every listed column id ends up with an empty list; every other column keeps its list. */
  lemma {:induction false} RegisterColumnsGet(cols: Columns, ids: seq<string>, k: string)
    ensures Get(RegisterColumns(cols, ids), k) == if k in ids then Some([]) else Get(cols, k)
  {
    if ids != [] {
      var init := ids[..|ids| - 1];
      var last := ids[|ids| - 1];
      var d := RegisterColumns(cols, init);
      assert RegisterColumns(cols, ids) == Set(d, last, []);
      assert k in ids <==> k in init || k == last by {
        assert ids == init + [last];
      }
      if k == last {
        SetGet(d, last, []);
      } else {
        RegisterColumnsGet(cols, init, k);
        SetGetOther(d, last, [], k);
      }
    }
  }

  /** The keys afterwards are the old keys and the listed ids. */
  lemma {:induction false} RegisterColumnsKeys(cols: Columns, ids: seq<string>, k: string)
    ensures k in Keys(RegisterColumns(cols, ids)) <==> k in Keys(cols) || k in ids
  {
    if ids != [] {
      var init := ids[..|ids| - 1];
      var last := ids[|ids| - 1];
      RegisterColumnsKeys(cols, init, k);
      SetKeys(RegisterColumns(cols, init), last, []);
      assert ids == init + [last];
    }
  }

  /** Registering columns keeps every key listed once. */
  lemma {:induction false} RegisterColumnsWellFormed(cols: Columns, ids: seq<string>)
    requires WellFormed(cols)
    ensures WellFormed(RegisterColumns(cols, ids))
  {
    if ids != [] {
      RegisterColumnsWellFormed(cols, ids[..|ids| - 1]);
      SetWellFormed(RegisterColumns(cols, ids[..|ids| - 1]), ids[|ids| - 1], []);
    }
  }

  /** Two distinct ids registered on an empty observer give exactly those two keys, each
      with an empty list. */
  lemma RegisterTwoColumns(a: string, b: string)
    requires a != b
    ensures RegisterColumns([], [a, b]) == [Entry(a, []), Entry(b, [])]
    ensures |Keys(RegisterColumns([], [a, b]))| == 2
  {
    assert [a, b][..1] == [a];
    assert [a][..0] == [];
    assert RegisterColumns([], [a]) == [Entry(a, [])];
    var empty: seq<EventRecord> := [];
    assert Set([Entry(a, empty)], b, empty) == [Entry(a, empty)] + Set([], b, empty);
  }

  // ---------------------------------------------------------------------------
  // removeEventFromColumns

  /** `evs.filter(e => e.id !== id)`. */
  function RemoveRecords(evs: seq<EventRecord>, id: string): (r: seq<EventRecord>)
    ensures forall e :: e in r <==> e in evs && e.id != id
  {
    if evs == [] then []
    else
      assert forall e :: e in evs <==> e == evs[0] || e in evs[1..];
      (if evs[0].id != id then [evs[0]] else []) + RemoveRecords(evs[1..], id)
  }

  /** Filtering keeps the order: it distributes over concatenation. */
  lemma {:induction false} RemoveRecordsAppend(a: seq<EventRecord>, b: seq<EventRecord>, id: string)
    ensures RemoveRecords(a + b, id) == RemoveRecords(a, id) + RemoveRecords(b, id)
  {
    if a == [] {
      assert a + b == b;
    } else {
      assert (a + b)[0] == a[0] && (a + b)[1..] == a[1..] + b;
      RemoveRecordsAppend(a[1..], b, id);
    }
  }

  /** On ids, filtering the records is filtering the ids. */
  lemma {:induction false} RemoveRecordsIds(evs: seq<EventRecord>, id: string)
    ensures Ids(RemoveRecords(evs, id)) == Without(Ids(evs), id)
  {
    if evs != [] {
      RemoveRecordsIds(evs[1..], id);
      assert Ids(evs)[1..] == Ids(evs[1..]);
      var head := if evs[0].id != id then [evs[0]] else [];
      assert Ids(head + RemoveRecords(evs[1..], id)) == Ids(head) + Ids(RemoveRecords(evs[1..], id));
    }
  }

  /** Filtering out an id that is not there changes nothing. */
  lemma {:induction false} RemoveRecordsAbsent(evs: seq<EventRecord>, id: string)
    requires id !in Ids(evs)
    ensures RemoveRecords(evs, id) == evs
  {
    if evs != [] {
      assert evs[0].id == Ids(evs)[0];
      assert Ids(evs)[1..] == Ids(evs[1..]);
      RemoveRecordsAbsent(evs[1..], id);
    }
  }

  /** What `removeEventFromColumns` does to one column's list. */
  function StripOne(k: string, evs: seq<EventRecord>, id: string): seq<EventRecord> {
    if IsEventColumn(k) && id in Ids(evs) then RemoveRecords(evs, id) else evs
  }

  /** `columns` after `removeEventFromColumns(id)`. */
  function StripEvent(cols: Columns, id: string): Columns {
    if cols == [] then []
    else [Entry(cols[0].key, StripOne(cols[0].key, cols[0].val, id))] + StripEvent(cols[1..], id)
  }

  /** Whether some event column holds `id` (so that `removeFromOverlapped` is called). */
  predicate Holds(cols: Columns, id: string) {
    cols != [] && ((IsEventColumn(cols[0].key) && id in Ids(cols[0].val)) || Holds(cols[1..], id))
  }

  lemma {:induction false} StripEventAppend(a: Columns, b: Columns, id: string)
    ensures StripEvent(a + b, id) == StripEvent(a, id) + StripEvent(b, id)
    ensures Holds(a + b, id) == (Holds(a, id) || Holds(b, id))
  {
    if a == [] {
      assert a + b == b;
    } else {
      assert (a + b)[0] == a[0] && (a + b)[1..] == a[1..] + b;
      StripEventAppend(a[1..], b, id);
    }
  }

  /**
   * Removal keeps every key in place, empties `id` out of every event column, and leaves
   * every other column alone.
   */
  lemma {:induction false} StripEventGet(cols: Columns, id: string, k: string)
    ensures Keys(StripEvent(cols, id)) == Keys(cols)
    ensures Get(StripEvent(cols, id), k) == match Get(cols, k)
                                             case None => None
                                             case Some(evs) => Some(StripOne(k, evs, id))
    ensures WellFormed(StripEvent(cols, id)) == WellFormed(cols)
  {
    if cols != [] {
      StripEventGet(cols[1..], id, k);
      assert Keys(StripEvent(cols, id)) == [cols[0].key] + Keys(StripEvent(cols[1..], id));
      assert Keys(cols) == [cols[0].key] + Keys(cols[1..]);
    }
    WellFormedSameKeys(StripEvent(cols, id), cols);
  }

  /** `Holds` says that some event column lists `id`. */
  lemma {:induction false} HoldsExactly(cols: Columns, id: string)
    ensures Holds(cols, id) <==> exists i :: 0 <= i < |cols| && IsEventColumn(cols[i].key) && id in Ids(cols[i].val)
  {
    if cols != [] {
      HoldsExactly(cols[1..], id);
      assert forall i :: 0 < i < |cols| ==> cols[i] == cols[1..][i - 1];
      if Holds(cols[1..], id) {
        var i :| 0 <= i < |cols[1..]| && IsEventColumn(cols[1..][i].key) && id in Ids(cols[1..][i].val);
        assert cols[i + 1] == cols[1..][i];
      }
    }
  }

  /** Removing an event that no column lists changes nothing. */
  lemma {:induction false} StripAbsent(cols: Columns, id: string)
    requires forall i :: 0 <= i < |cols| ==> id !in Ids(cols[i].val)
    ensures StripEvent(cols, id) == cols && !Holds(cols, id)
  {
    if cols != [] {
      assert forall i :: 0 <= i < |cols[1..]| ==> cols[1..][i] == cols[i + 1];
      StripAbsent(cols[1..], id);
    }
  }

  /** `removeEventFromColumns(id)`: the overlap groups are pruned once if some event column
      held the event. */
  function RemoveEverywhere(s: Store, id: string): Store {
    Store(StripEvent(s.columns, id), if Holds(s.columns, id) then PruneColumns(s.overlapped, id) else s.overlapped)
  }

  /**
   * After `removeEventFromColumns(id)` no event column lists `id`, no group holds it when
   * some event column did, and columns whose key does not start with "column" are untouched.
   */
  lemma RemoveEverywhereSpec(s: Store, id: string)
    ensures var r := RemoveEverywhere(s, id);
            && Keys(r.columns) == Keys(s.columns)
            && (forall k :: IsEventColumn(k) ==> id !in Ids(ColumnEvents(r.columns, k)))
            && (forall k :: !IsEventColumn(k) ==> Get(r.columns, k) == Get(s.columns, k))
            && (Holds(s.columns, id) ==> forall i, j :: 0 <= i < |r.overlapped| && 0 <= j < |r.overlapped[i].val| ==>
                                                         id !in r.overlapped[i].val[j].val)
            && (!Holds(s.columns, id) ==> r.overlapped == s.overlapped)
  {
    RemoveEverywhereColumns(s.columns, id);
    RemovedFromEveryGroup(s.overlapped, id);
  }

  /** The column side of `RemoveEverywhereSpec`. */
  lemma RemoveEverywhereColumns(cols: Columns, id: string)
    ensures Keys(StripEvent(cols, id)) == Keys(cols)
    ensures forall k :: IsEventColumn(k) ==> id !in Ids(ColumnEvents(StripEvent(cols, id), k))
    ensures forall k :: !IsEventColumn(k) ==> Get(StripEvent(cols, id), k) == Get(cols, k)
  {
    var r := StripEvent(cols, id);
    StripEventGet(cols, id, "");
    forall k | IsEventColumn(k) ensures id !in Ids(ColumnEvents(r, k)) {
      StripEventGet(cols, id, k);
      match Get(cols, k)
      case None =>
      case Some(evs) =>
        RemoveRecordsIds(evs, id);
    }
    forall k | !IsEventColumn(k) ensures Get(r, k) == Get(cols, k) {
      StripEventGet(cols, id, k);
    }
  }

  // ---------------------------------------------------------------------------
  // addEventToColumn

  /** `columns` after `addEventToColumn(id, rect, c)`; unchanged past the removal when `c`
      is not registered. */
  function Placed(s: Store, id: string, rect: ClientRect, c: string): Columns {
    var cols := RemoveEverywhere(s, id).columns;
    match Get(cols, c)
    case None => cols
    case Some(evs) => Set(cols, c, evs + [Record(id, rect)])
  }

  /** The ids `addEventToColumn` hands to `_addToOverlapped`, None when it does not call it. */
  function NewGroup(s: Store, id: string, rect: ClientRect, c: string): Option<seq<string>> {
    if c !in Keys(RemoveEverywhere(s, id).columns) then None
    else
      match GetOverlapping(Placed(s, id, rect, c), id, c)
      case None => None
      case Some(ids) => Some(ids + [id])
  }

  /** `addEventToColumn(id, rect, c)` when `_get3CharId` produces `key`. */
  function AddEvent(s: Store, id: string, rect: ClientRect, c: string, key: string): Store {
    var r := RemoveEverywhere(s, id);
    Store(Placed(s, id, rect, c),
          match NewGroup(s, id, rect, c)
          case None => r.overlapped
          case Some(g) => AddGroup(r.overlapped, c, g, key))
  }

  /** `key` is a key `_get3CharId` may return during `addEventToColumn(id, rect, c)`. */
  ghost predicate FreshAddKey(s: Store, id: string, rect: ClientRect, c: string, key: string) {
    NewGroup(s, id, rect, c).Some? ==>
      key !in GroupKeys(StripColumn(RemoveEverywhere(s, id).overlapped, c, NewGroup(s, id, rect, c).value))
  }

  /** `addEventToColumn` on a column that has no entry after the event left every column:
      nothing is placed and no group is formed, whatever key is drawn. */
  lemma AddEventUnplaced(s: Store, id: string, rect: ClientRect, c: string)
    requires Get(RemoveEverywhere(s, id).columns, c) == None
    ensures FreshAddKey(s, id, rect, c, "") && AddEvent(s, id, rect, c, "") == RemoveEverywhere(s, id)
  {
  }

  /** `addEventToColumn` when the placed event overlaps nothing: no group is formed. */
  lemma AddEventUngrouped(s: Store, id: string, rect: ClientRect, c: string, evs: seq<EventRecord>)
    requires Get(RemoveEverywhere(s, id).columns, c) == Some(evs)
    requires GetOverlapping(Set(RemoveEverywhere(s, id).columns, c, evs + [Record(id, rect)]), id, c) == None
    ensures FreshAddKey(s, id, rect, c, "")
    ensures AddEvent(s, id, rect, c, "") ==
              Store(Set(RemoveEverywhere(s, id).columns, c, evs + [Record(id, rect)]), RemoveEverywhere(s, id).overlapped)
  {
  }

  /** `addEventToColumn` when the placed event overlaps `ids`: the group `ids + [id]` is added. */
  lemma AddEventGrouped(s: Store, id: string, rect: ClientRect, c: string, evs: seq<EventRecord>, ids: seq<string>, key: string)
    requires Get(RemoveEverywhere(s, id).columns, c) == Some(evs)
    requires GetOverlapping(Set(RemoveEverywhere(s, id).columns, c, evs + [Record(id, rect)]), id, c) == Some(ids)
    requires key !in GroupKeys(StripColumn(RemoveEverywhere(s, id).overlapped, c, ids + [id]))
    ensures FreshAddKey(s, id, rect, c, key)
    ensures AddEvent(s, id, rect, c, key) ==
              Store(Set(RemoveEverywhere(s, id).columns, c, evs + [Record(id, rect)]),
                    AddGroup(RemoveEverywhere(s, id).overlapped, c, ids + [id], key))
  {
  }

  /**
   * Placing an event in a registered event column `c`: the column's list is its old list
   * without the event, in the same order, followed by the event's record, so the event
   * occurs exactly once there, last; no other event column lists it; columns whose key does
   * not start with "column" are untouched; and the keys stay the same.
   */
  lemma AddEventPlacement(s: Store, id: string, rect: ClientRect, c: string, key: string)
    requires WellFormed(s.columns)
    requires IsEventColumn(c) && c in Keys(s.columns)
    ensures var cols := AddEvent(s, id, rect, c, key).columns;
            var l := ColumnEvents(cols, c);
            && l == RemoveRecords(ColumnEvents(s.columns, c), id) + [Record(id, rect)]
            && l[|l| - 1] == Record(id, rect)
            && (forall j :: 0 <= j < |l| - 1 ==> l[j].id != id)
            && (forall k :: k != c && IsEventColumn(k) ==> id !in Ids(ColumnEvents(cols, k)))
            && (forall k :: !IsEventColumn(k) ==> Get(cols, k) == Get(s.columns, k))
            && Keys(cols) == Keys(s.columns)
            && WellFormed(cols)
  {
    var r := RemoveEverywhere(s, id);
    RemoveEverywhereSpec(s, id);
    StripEventGet(s.columns, id, c);
    var old_evs := Get(s.columns, c).value;
    var evs := Get(r.columns, c).value;
    assert evs == RemoveRecords(old_evs, id) by {
      if id !in Ids(old_evs) {
        RemoveRecordsAbsent(old_evs, id);
      }
    }
    var cols := Set(r.columns, c, evs + [Record(id, rect)]);
    assert cols == AddEvent(s, id, rect, c, key).columns;
    SetSpec(r.columns, c, evs + [Record(id, rect)]);
    StripEventGet(s.columns, id, "");
    SetWellFormed(r.columns, c, evs + [Record(id, rect)]);
    var l := ColumnEvents(cols, c);
    RemoveRecordsIds(old_evs, id);
    forall j | 0 <= j < |l| - 1 ensures l[j].id != id {
      assert l[j] == evs[j];
      assert Ids(evs)[j] == l[j].id;
    }
    forall k | k != c && IsEventColumn(k) ensures id !in Ids(ColumnEvents(cols, k)) {
      assert Get(cols, k) == Get(r.columns, k);
    }
    forall k | !IsEventColumn(k) ensures Get(cols, k) == Get(s.columns, k) {
      assert Get(cols, k) == Get(r.columns, k);
    }
  }

  /** An unregistered target column leaves the observer as the removal left it. */
  lemma AddEventMissingColumn(s: Store, id: string, rect: ClientRect, c: string, key: string)
    requires c !in Keys(s.columns)
    ensures AddEvent(s, id, rect, c, key) == RemoveEverywhere(s, id)
  {
    StripEventGet(s.columns, id, c);
  }

  /**
   * The group `addEventToColumn` records is the event with every other id of the column
   * whose record overlaps the new record, and it is recorded exactly when there is one.
   */
  lemma AddEventGroup(s: Store, id: string, rect: ClientRect, c: string, key: string, x: string)
    requires WellFormed(s.columns)
    requires IsEventColumn(c) && c in Keys(s.columns)
    ensures var cols := Placed(s, id, rect, c);
            && (NewGroup(s, id, rect, c).Some? <==>
                 exists e :: e in ColumnEvents(cols, c) && e.id != id && Overlaps(Record(id, rect), e))
            && (x != id ==>
                 (NewGroup(s, id, rect, c).Some? && x in NewGroup(s, id, rect, c).value <==>
                   exists e :: e in ColumnEvents(cols, c) && e.id == x && Overlaps(Record(id, rect), e)))
  {
    AddEventPlacement(s, id, rect, c, key);
    StripEventGet(s.columns, id, c);
    var cols := Placed(s, id, rect, c);
    var l := ColumnEvents(cols, c);
    var rec := Record(id, rect);
    assert l[|l| - 1] == rec;
    FindRecordFirst(l, id, |l| - 1);
    GetOverlappingMembers(cols, id, c, rec, x);
    var ov := GetOverlapping(cols, id, c);
    if ov.Some? {
      var y := ov.value[0];
      GetOverlappingMembers(cols, id, c, rec, y);
    } else {
      forall e | e in l && e.id != id ensures !Overlaps(rec, e) {
        GetOverlappingMembers(cols, id, c, rec, e.id);
      }
    }
  }

  // ---------------------------------------------------------------------------
  // Scenarios

  /** A rectangle spanning `top` to `bottom` at the left edge used by both scenarios. */
  function Band(top: real, bottom: real): ClientRect {
    ClientRect(10.0, top, 130.0, bottom, 120.0, bottom - top)
  }

  const ScenarioColumn: string := "column_2025-07-26"

  /** Adding an event that no column lists yet, to a registered column. */
  lemma AddNewEvent(s: Store, id: string, rect: ClientRect, c: string, key: string)
    requires forall i :: 0 <= i < |s.columns| ==> id !in Ids(s.columns[i].val)
    requires Get(s.columns, c).Some?
    ensures var cols := Set(s.columns, c, Get(s.columns, c).value + [Record(id, rect)]);
            AddEvent(s, id, rect, c, key) ==
              Store(cols, match GetOverlapping(cols, id, c)
                          case None => s.overlapped
                          case Some(ids) => AddGroup(s.overlapped, c, ids + [id], key))
  {
    StripAbsent(s.columns, id);
  }

  /** `AddNewEvent` for a store of one column whose new event overlaps the ids `g`. */
  lemma AddToSingleColumn(ov: Overlapped, id: string, rect: ClientRect, c: string, key: string,
                          evs: seq<EventRecord>, evs': seq<EventRecord>, g: seq<string>, ov': Overlapped)
    requires id !in Ids(evs) && evs' == evs + [Record(id, rect)]
    requires GetOverlapping([Entry(c, evs')], id, c) == Some(g)
    requires AddGroup(ov, c, g + [id], key) == ov'
    ensures AddEvent(Store([Entry(c, evs)], ov), id, rect, c, key) == Store([Entry(c, evs')], ov')
  {
    var s := Store([Entry(c, evs)], ov);
    assert s.columns[0].val == evs;
    assert Get(s.columns, c) == Some(evs);
    assert Set(s.columns, c, evs') == [Entry(c, evs')];
    AddNewEvent(s, id, rect, c, key);
  }

  lemma ChainStep1(k: string)
    ensures AddEvent(Store([Entry(ScenarioColumn, [])], []), "event1", Band(100.0, 200.0), ScenarioColumn, k)
            == Store([Entry(ScenarioColumn, [Record("event1", Band(100.0, 200.0))])], [])
  {
    var c := ScenarioColumn;
    var r1 := Record("event1", Band(100.0, 200.0));
    var none: seq<EventRecord> := [];
    AddNewEvent(Store([Entry(c, none)], []), "event1", Band(100.0, 200.0), c, k);
    assert none + [r1] == [r1];
    assert OverlappingIds([r1], r1, "event1") == [];
  }

  function R1(): EventRecord { Record("event1", Band(100.0, 200.0)) }
  function R2(): EventRecord { Record("event2", Band(150.0, 250.0)) }
  function R3(): EventRecord { Record("event3", Band(180.0, 280.0)) }

  /** `GetOverlapping` on a store of one column, from the record found and the ids it overlaps. */
  lemma OverlappingInSingleColumn(c: string, evs: seq<EventRecord>, id: string, target: EventRecord, ids: seq<string>)
    requires FindRecord(evs, id) == Some(target)
    requires OverlappingIds(evs, target, id) == ids && ids != []
    ensures GetOverlapping([Entry(c, evs)], id, c) == Some(ids)
  {
    assert Get([Entry(c, evs)], c) == Some(evs);
  }

  lemma OverlapStep2()
    ensures GetOverlapping([Entry(ScenarioColumn, [R1(), R2()])], "event2", ScenarioColumn) == Some(["event1"])
  {
    var l := [R1(), R2()];
    assert l[1..] == [R2()] && [R2()][1..] == [];
    assert FindRecord(l, "event2") == Some(R2()) by {
      assert "event1" != "event2";
    }
    assert OverlappingIds(l, R2(), "event2") == ["event1"] by {
      assert OverlappingIds([R2()], R2(), "event2") == [];
    }
    OverlappingInSingleColumn(ScenarioColumn, l, "event2", R2(), ["event1"]);
  }

  lemma ChainStep2(k: string)
    ensures AddEvent(Store([Entry(ScenarioColumn, [R1()])], []), "event2", Band(150.0, 250.0), ScenarioColumn, k)
            == Store([Entry(ScenarioColumn, [R1(), R2()])], [Entry(ScenarioColumn, [Entry(k, ["event1", "event2"])])])
  {
    assert [R1()] + [R2()] == [R1(), R2()];
    OverlapStep2();
    GroupStep2(k);
    AddToSingleColumn([], "event2", Band(150.0, 250.0), ScenarioColumn, k, [R1()], [R1(), R2()], ["event1"],
                      [Entry(ScenarioColumn, [Entry(k, ["event1", "event2"])])]);
  }

  lemma GroupStep2(k: string)
    ensures AddGroup([], ScenarioColumn, ["event1"] + ["event2"], k) == [Entry(ScenarioColumn, [Entry(k, ["event1", "event2"])])]
  {
    var g := ["event1", "event2"];
    assert ["event1"] + ["event2"] == g;
    assert SharingKeys([], g) == [];
    assert KeptGroups([], g) == [];
  }

  lemma ThirdNotListed()
    ensures "event3" !in Ids([R1(), R2()])
  {
    assert Ids([R1(), R2()]) == ["event1", "event2"];
  }

  lemma OverlapStep3()
    ensures GetOverlapping([Entry(ScenarioColumn, [R1(), R2(), R3()])], "event3", ScenarioColumn) == Some(["event1", "event2"])
  {
    var l := [R1(), R2(), R3()];
    FindThird(R1(), R2(), R3());
    OverlappingIdsOfThree(R1(), R2(), R3(), "event3");
    assert Overlaps(R3(), R1()) && Overlaps(R3(), R2());
    assert R1().id == "event1" && R2().id == "event2";
    assert ["event1"] + ["event2"] == ["event1", "event2"];
    OverlappingInSingleColumn(ScenarioColumn, l, "event3", R3(), ["event1", "event2"]);
  }

  /** The ids a record `t` of `id`, listed last of three, overlaps. */
  lemma OverlappingIdsOfThree(a: EventRecord, b: EventRecord, t: EventRecord, id: string)
    requires t.id == id
    ensures OverlappingIds([a, b, t], t, id) ==
              (if a.id != id && Overlaps(t, a) then [a.id] else []) + (if b.id != id && Overlaps(t, b) then [b.id] else [])
  {
    var l := [a, b, t];
    assert l[1..] == [b, t] && [b, t][1..] == [t] && [t][1..] == [];
    assert OverlappingIds([t], t, id) == [];
  }

  /** The record of "event3" behind those of "event1" and "event2" is the one found. */
  lemma FindThird(a: EventRecord, b: EventRecord, r: EventRecord)
    requires a.id == "event1" && b.id == "event2" && r.id == "event3"
    ensures FindRecord([a, b, r], "event3") == Some(r)
  {
    var l := [a, b, r];
    assert l[1..] == [b, r] && [b, r][1..] == [r];
    assert FindRecord([r], "event3") == Some(r);
    assert FindRecord([b, r], "event3") == Some(r);
  }

  lemma AppendStep3()
    ensures [R1(), R2()] + [Record("event3", Band(180.0, 280.0))] == [R1(), R2(), R3()]
  {
  }

  lemma GroupStep3(k2: string, k: string)
    ensures AddGroup([Entry(ScenarioColumn, [Entry(k2, ["event1", "event2"])])], ScenarioColumn, ["event1", "event2"] + ["event3"], k)
            == [Entry(ScenarioColumn, [Entry(k, ["event1", "event2", "event3"])])]
  {
    var c := ScenarioColumn;
    var g := ["event1", "event2", "event3"];
    assert ["event1", "event2"] + ["event3"] == g;
    var gs := [Entry(k2, ["event1", "event2"])];
    var ov := [Entry(c, gs)];
    assert GroupsOf(ov, c) == gs;
    assert "event1" in g && "event1" in ["event1", "event2"];
    assert Shares(["event1", "event2"], g);
    assert gs[..0] == [];
    assert SharingKeys(gs, g) == [k2];
    assert [k2][..0] == [];
    assert DeleteAll(gs, [k2]) == Delete(gs, k2);
    assert gs[1..] == [];
    assert Delete(gs, k2) == Delete(gs[1..], k2) == [];
    assert KeptGroups(gs, g) == DeleteAll(gs, [k2]) == [];
    assert ov[1..] == [];
  }

  lemma ChainStep3(k2: string, k: string)
    ensures AddEvent(Store([Entry(ScenarioColumn, [R1(), R2()])], [Entry(ScenarioColumn, [Entry(k2, ["event1", "event2"])])]),
                     "event3", Band(180.0, 280.0), ScenarioColumn, k)
            == Store([Entry(ScenarioColumn, [R1(), R2(), R3()])], [Entry(ScenarioColumn, [Entry(k, ["event1", "event2", "event3"])])])
  {
    ThirdNotListed();
    AppendStep3();
    OverlapStep3();
    GroupStep3(k2, k);
    AddToSingleColumn([Entry(ScenarioColumn, [Entry(k2, ["event1", "event2"])])], "event3", Band(180.0, 280.0),
                      ScenarioColumn, k, [R1(), R2()], [R1(), R2(), R3()], ["event1", "event2"],
                      [Entry(ScenarioColumn, [Entry(k, ["event1", "event2", "event3"])])]);
  }

  /**
   * Three chained events [100,200], [150,250], [180,280] added in turn to a freshly
   * registered column end up in one group holding all three, in column order, whatever
   * keys are drawn.
   */
  lemma ChainedEventsFormOneGroup(k1: string, k2: string, k3: string)
    ensures var c := ScenarioColumn;
            var s0 := Store(RegisterColumns([], [c]), []);
            var s1 := AddEvent(s0, "event1", Band(100.0, 200.0), c, k1);
            var s2 := AddEvent(s1, "event2", Band(150.0, 250.0), c, k2);
            var s3 := AddEvent(s2, "event3", Band(180.0, 280.0), c, k3);
            && |ColumnEvents(s3.columns, c)| == 3
            && AllGroups(s3.overlapped) == [["event1", "event2", "event3"]]
  {
    var c := ScenarioColumn;
    RegisterScenarioColumn();
    ChainStep1(k1);
    ChainStep2(k2);
    ChainStep3(k2, k3);
    OneGroupOfThree(k3);
  }

  /** Registering the scenario column on an empty observer gives it an empty list. */
  lemma RegisterScenarioColumn()
    ensures RegisterColumns([], [ScenarioColumn]) == [Entry(ScenarioColumn, [])]
  {
    var none: seq<EventRecord> := [];
    assert [ScenarioColumn][..0] == [];
    assert RegisterColumns([], [ScenarioColumn]) == Set(RegisterColumns([], []), ScenarioColumn, none);
  }

  lemma OneGroupOfThree(k: string)
    ensures |ColumnEvents([Entry(ScenarioColumn, [R1(), R2(), R3()])], ScenarioColumn)| == 3
    ensures AllGroups([Entry(ScenarioColumn, [Entry(k, ["event1", "event2", "event3"])])]) == [["event1", "event2", "event3"]]
  {
    var gs: Groups := [Entry(k, ["event1", "event2", "event3"])];
    var ov := [Entry(ScenarioColumn, gs)];
    assert Get([Entry(ScenarioColumn, [R1(), R2(), R3()])], ScenarioColumn) == Some([R1(), R2(), R3()]);
    assert ov[1..] == [];
    assert Values(gs) == [["event1", "event2", "event3"]];
    assert AllGroups(ov) == Values(gs) + AllGroups([]);
  }

  function R3Late(): EventRecord { Record("event3", Band(240.0, 300.0)) }

  lemma OverlapStep3Late()
    ensures GetOverlapping([Entry(ScenarioColumn, [R1(), R2(), R3Late()])], "event3", ScenarioColumn) == Some(["event2"])
  {
    var l := [R1(), R2(), R3Late()];
    FindThird(R1(), R2(), R3Late());
    OverlappingIdsOfThree(R1(), R2(), R3Late(), "event3");
    assert !Overlaps(R3Late(), R1()) && Overlaps(R3Late(), R2());
    OverlappingInSingleColumn(ScenarioColumn, l, "event3", R3Late(), ["event2"]);
  }

  lemma AppendStep3Late()
    ensures [R1(), R2()] + [Record("event3", Band(240.0, 300.0))] == [R1(), R2(), R3Late()]
  {
  }

  lemma GroupStep3Late(k2: string, k: string)
    ensures AddGroup([Entry(ScenarioColumn, [Entry(k2, ["event1", "event2"])])], ScenarioColumn, ["event2"] + ["event3"], k)
            == [Entry(ScenarioColumn, [Entry(k, ["event2", "event3"])])]
  {
    var c := ScenarioColumn;
    var g := ["event2", "event3"];
    assert ["event2"] + ["event3"] == g;
    var gs := [Entry(k2, ["event1", "event2"])];
    var ov := [Entry(c, gs)];
    assert GroupsOf(ov, c) == gs;
    assert "event2" in g && "event2" in ["event1", "event2"];
    assert Shares(["event1", "event2"], g);
    assert gs[..0] == [];
    assert SharingKeys(gs, g) == [k2];
    assert [k2][..0] == [];
    assert gs[1..] == [];
    assert Delete(gs, k2) == Delete(gs[1..], k2) == [];
    assert KeptGroups(gs, g) == DeleteAll(gs, [k2]) == [];
    assert ov[1..] == [];
  }

  lemma ChainStep3Late(k2: string, k: string)
    ensures AddEvent(Store([Entry(ScenarioColumn, [R1(), R2()])], [Entry(ScenarioColumn, [Entry(k2, ["event1", "event2"])])]),
                     "event3", Band(240.0, 300.0), ScenarioColumn, k)
            == Store([Entry(ScenarioColumn, [R1(), R2(), R3Late()])], [Entry(ScenarioColumn, [Entry(k, ["event2", "event3"])])])
  {
    ThirdNotListed();
    AppendStep3Late();
    OverlapStep3Late();
    GroupStep3Late(k2, k);
    AddToSingleColumn([Entry(ScenarioColumn, [Entry(k2, ["event1", "event2"])])], "event3", Band(240.0, 300.0),
                      ScenarioColumn, k, [R1(), R2()], [R1(), R2(), R3Late()], ["event2"],
                      [Entry(ScenarioColumn, [Entry(k, ["event2", "event3"])])]);
  }

  lemma FirstTwoStillOverlap()
    ensures DoEventsOverlap([Entry(ScenarioColumn, [R1(), R2(), R3Late()])], "event1", "event2")
  {
    var cols := [Entry(ScenarioColumn, [R1(), R2(), R3Late()])];
    var l := [R1(), R2(), R3Late()];
    assert cols[1..] == [];
    assert Values(cols) == [l];
    var ls: seq<seq<EventRecord>> := [l];
    assert |ls[1..]| == 0;
    assert Concat(Values(cols)) == l + [];
    assert l + [] == l;
    assert FindRecord(l, "event1") == Some(R1());
    assert l[1..] == [R2(), R3Late()];
    assert "event1" != "event2";
    assert FindRecord([R2(), R3Late()], "event2") == Some(R2());
  }

  /**
   * Groups are replaced, not merged: after [100,200] and [150,250] form a group, a third
   * event [240,300] overlapping only the second replaces that group by [event2, event3], so
   * the first event is in no group although it still overlaps the second.
   */
  lemma ReplacedGroupDropsMember(k1: string, k2: string, k3: string)
    ensures var c := ScenarioColumn;
            var s0 := Store(RegisterColumns([], [c]), []);
            var s1 := AddEvent(s0, "event1", Band(100.0, 200.0), c, k1);
            var s2 := AddEvent(s1, "event2", Band(150.0, 250.0), c, k2);
            var s3 := AddEvent(s2, "event3", Band(240.0, 300.0), c, k3);
            && AllGroups(s3.overlapped) == [["event2", "event3"]]
            && DoEventsOverlap(s3.columns, "event1", "event2")
  {
    var c := ScenarioColumn;
    var none: seq<EventRecord> := [];
    RegisterScenarioColumn();
    ChainStep1(k1);
    ChainStep2(k2);
    var s0 := Store(RegisterColumns([], [c]), []);
    assert s0 == Store([Entry(c, none)], []);
    var s1 := AddEvent(s0, "event1", Band(100.0, 200.0), c, k1);
    assert s1 == Store([Entry(c, [R1()])], []);
    var s2 := AddEvent(s1, "event2", Band(150.0, 250.0), c, k2);
    assert s2 == Store([Entry(c, [R1(), R2()])], [Entry(c, [Entry(k2, ["event1", "event2"])])]);
    ChainStep3Late(k2, k3);
    OneGroupOfTwo(k3);
    FirstTwoStillOverlap();
  }

  lemma OneGroupOfTwo(k: string)
    ensures AllGroups([Entry(ScenarioColumn, [Entry(k, ["event2", "event3"])])]) == [["event2", "event3"]]
  {
    var gs: Groups := [Entry(k, ["event2", "event3"])];
    var ov := [Entry(ScenarioColumn, gs)];
    assert ov[1..] == [];
    assert Values(gs) == [["event2", "event3"]];
    assert AllGroups(ov) == Values(gs) + AllGroups([]);
  }
}
