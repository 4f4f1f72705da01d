/**
 * The `ColumnObserver` class of src/engine/event-manager.js: the two dictionaries it
 * updates in place and the loops that update them, each proved against the functions of
 * `ColumnStore`, `OverlapGroups` and `Layout` that state its effect.
 */
module EventManager {
  import opened Wrappers
  import opened Dict
  import opened Geometry
  import opened ColumnQueries
  import opened OverlapGroups
  import opened ColumnStore
  import Layout

  // ---------------------------------------------------------------------------
  // One step of each loop, stated on the specification functions

  /** Pruning one more group of a prefix: the group is dropped or filtered. */
  lemma PruneGroupsExtend(gs: Groups, j: nat, e: string)
    requires j < |gs|
    ensures var w := Without(gs[j].val, e);
            PruneGroups(gs[..j + 1], e) == PruneGroups(gs[..j], e) + (if |w| <= 1 then [] else [Entry(gs[j].key, w)])
  {
    assert gs[..j + 1] == gs[..j] + [gs[j]];
    PruneGroupsAppend(gs[..j], [gs[j]], e);
    assert [gs[j]][1..] == [];
  }

  /** The entries from `j` on are entry `j` followed by the rest. */
  lemma SplitAt<V>(p: Dict<V>, d: Dict<V>, j: nat)
    requires j < |d|
    ensures p + d[j..] == p + [Entry(d[j].key, d[j].val)] + d[j + 1..]
  {
    assert d[j..] == [d[j]] + d[j + 1..];
  }

  /** The inner loop of `_removeFromOverlapped` at group `j` finds the group unchanged. */
  lemma PruneGroupsFind(gs: Groups, j: nat, e: string)
    requires WellFormed(gs) && j < |gs|
    ensures Get(PruneGroups(gs[..j], e) + gs[j..], gs[j].key) == Some(gs[j].val)
  {
    var p := PruneGroups(gs[..j], e);
    WellFormedAt(gs, j);
    PruneGroupsKeys(gs[..j], e);
    SplitAt(p, gs, j);
    GetInPlace(p, gs[j].key, gs[j].val, gs[j + 1..]);
  }

  /** Deleting group `j` once at most one id is left extends the pruned prefix. */
  lemma PruneGroupsDrop(gs: Groups, j: nat, e: string)
    requires WellFormed(gs) && j < |gs| && |Without(gs[j].val, e)| <= 1
    ensures Delete(PruneGroups(gs[..j], e) + gs[j..], gs[j].key) == PruneGroups(gs[..j + 1], e) + gs[j + 1..]
  {
    var k := gs[j].key;
    var v := gs[j].val;
    var p := PruneGroups(gs[..j], e);
    var rest := gs[j + 1..];
    WellFormedAt(gs, j);
    PruneGroupsKeys(gs[..j], e);
    SplitAt(p, gs, j);
    PruneGroupsExtend(gs, j, e);
    DeleteInPlace(p, k, v, rest);
  }

  /** Writing back the filtered group `j` extends the pruned prefix. */
  lemma PruneGroupsKeep(gs: Groups, j: nat, e: string)
    requires WellFormed(gs) && j < |gs| && |Without(gs[j].val, e)| > 1
    ensures Set(PruneGroups(gs[..j], e) + gs[j..], gs[j].key, Without(gs[j].val, e)) == PruneGroups(gs[..j + 1], e) + gs[j + 1..]
  {
    var k := gs[j].key;
    var v := gs[j].val;
    var p := PruneGroups(gs[..j], e);
    var rest := gs[j + 1..];
    WellFormedAt(gs, j);
    PruneGroupsKeys(gs[..j], e);
    SplitAt(p, gs, j);
    PruneGroupsExtend(gs, j, e);
    SetInPlace(p, k, v, Without(v, e), rest);
  }

  /** The outer loop of `_removeFromOverlapped` at column `i`. */
  lemma PruneColumnsStep(ov: Overlapped, i: nat, e: string)
    requires WellFormedOverlapped(ov) && i < |ov|
    ensures var p := PruneColumns(ov[..i], e);
            var k := ov[i].key;
            var g := PruneGroups(ov[i].val, e);
            && k !in Keys(p) && k !in Keys(ov[i + 1..])
            && WellFormed(ov[i].val)
            && p + ov[i..] == p + [Entry(k, ov[i].val)] + ov[i + 1..]
            && (if g == [] then p + ov[i + 1..] else p + [Entry(k, g)] + ov[i + 1..]) == PruneColumns(ov[..i + 1], e) + ov[i + 1..]
  {
    WellFormedAt(ov, i);
    PruneColumnsKeys(ov[..i], e);
    SplitAt(PruneColumns(ov[..i], e), ov, i);
    PruneColumnsExtend(ov, i, e);
  }

  /** Pruning one more column of a prefix: the column is dropped or replaced by its pruned groups. */
  lemma PruneColumnsExtend(ov: Overlapped, i: nat, e: string)
    requires i < |ov|
    ensures var p := PruneColumns(ov[..i], e);
            var g := PruneGroups(ov[i].val, e);
            (if g == [] then p + ov[i + 1..] else p + [Entry(ov[i].key, g)] + ov[i + 1..]) == PruneColumns(ov[..i + 1], e) + ov[i + 1..]
  {
    var g := PruneGroups(ov[i].val, e);
    assert ov[..i + 1] == ov[..i] + [ov[i]];
    PruneColumnsAppend(ov[..i], [ov[i]], e);
    assert [ov[i]][1..] == [];
    assert PruneColumns([ov[i]], e) == if g == [] then [] else [Entry(ov[i].key, g)];
  }

  /**
   * One pass of the inner loop of `_removeFromOverlapped`, seen from the whole dictionary:
   * column `c` sits between `pre` and `rest`, and its groups before `j` are already pruned.
   */
  lemma PruneInColumn(pre: Overlapped, c: string, gs: Groups, rest: Overlapped, j: nat, e: string)
    requires WellFormed(gs) && j < |gs| && c !in Keys(pre)
    ensures var cur := PruneGroups(gs[..j], e) + gs[j..];
            var d := pre + [Entry(c, cur)] + rest;
            var w := Without(gs[j].val, e);
            && Get(d, c) == Some(cur)
            && Get(cur, gs[j].key) == Some(gs[j].val)
            && Set(d, c, if |w| <= 1 then Delete(cur, gs[j].key) else Set(cur, gs[j].key, w))
               == pre + [Entry(c, PruneGroups(gs[..j + 1], e) + gs[j + 1..])] + rest
  {
    var cur := PruneGroups(gs[..j], e) + gs[j..];
    var next := PruneGroups(gs[..j + 1], e) + gs[j + 1..];
    GetInPlace(pre, c, cur, rest);
    PruneGroupsFind(gs, j, e);
    if |Without(gs[j].val, e)| <= 1 {
      PruneGroupsDrop(gs, j, e);
    } else {
      PruneGroupsKeep(gs, j, e);
    }
    SetInPlace(pre, c, cur, next, rest);
  }

  /** The inner loop of `_removeFromOverlapped` ends with every group of the column pruned. */
  lemma PruneGroupsDone(gs: Groups, e: string)
    ensures PruneGroups(gs[..|gs|], e) + gs[|gs|..] == PruneGroups(gs, e)
  {
    assert gs[..|gs|] == gs && gs[|gs|..] == [];
  }

  /** The loop of `removeEventFromColumns` at column `i`: the column is found as it was,
      and filtering it (or leaving it) extends the stripped prefix by one column. */
  lemma StripStep(cols: Columns, i: nat, id: string)
    requires WellFormed(cols) && i < |cols|
    ensures var p := StripEvent(cols[..i], id);
            var k := cols[i].key;
            var v := cols[i].val;
            var rest := cols[i + 1..];
            && Get(p + cols[i..], k) == Some(v)
            && (IsEventColumn(k) && id in Ids(v) ==> Set(p + cols[i..], k, RemoveRecords(v, id)) == StripEvent(cols[..i + 1], id) + rest)
            && (!(IsEventColumn(k) && id in Ids(v)) ==> p + cols[i..] == StripEvent(cols[..i + 1], id) + rest)
            && Holds(cols[..i + 1], id) == (Holds(cols[..i], id) || (IsEventColumn(k) && id in Ids(v)))
  {
    var p := StripEvent(cols[..i], id);
    var k := cols[i].key;
    var v := cols[i].val;
    var rest := cols[i + 1..];
    WellFormedAt(cols, i);
    StripEventGet(cols[..i], id, "");
    SplitAt(p, cols, i);
    GetInPlace(p, k, v, rest);
    StripExtend(cols, i, id);
    if IsEventColumn(k) && id in Ids(v) {
      SetInPlace(p, k, v, RemoveRecords(v, id), rest);
    }
  }

  /** Stripping one more column of a prefix. */
  lemma StripExtend(cols: Columns, i: nat, id: string)
    requires i < |cols|
    ensures StripEvent(cols[..i + 1], id) == StripEvent(cols[..i], id) + [Entry(cols[i].key, StripOne(cols[i].key, cols[i].val, id))]
    ensures Holds(cols[..i + 1], id) == (Holds(cols[..i], id) || (IsEventColumn(cols[i].key) && id in Ids(cols[i].val)))
  {
    assert cols[..i + 1] == cols[..i] + [cols[i]];
    StripEventAppend(cols[..i], [cols[i]], id);
    assert [cols[i]][1..] == [];
  }

  /** `_addToOverlapped` first gives `c` an empty entry if it has none; either way the
      dictionary is then `ov` with the old groups of `c` written to `c`. */
  lemma AddToOverlappedStart(ov: Overlapped, c: string)
    ensures (if Get(ov, c).None? then Set(ov, c, []) else ov) == Set(ov, c, GroupsOf(ov, c))
    ensures Get(Set(ov, c, GroupsOf(ov, c)), c) == Some(GroupsOf(ov, c))
  {
    SetSpec(ov, c, GroupsOf(ov, c));
    if Get(ov, c).Some? {
      SetSame(ov, c);
    }
  }

  /** Once the sharing groups are deleted the state is `StripColumn`, which still has room
      for a fresh key. */
  lemma AddToOverlappedFinish(ov: Overlapped, c: string, eIds: seq<string>)
    requires |GroupKeys(ov)| < KeySpaceSize
    ensures Set(ov, c, DeleteAll(GroupsOf(ov, c), SharingKeys(GroupsOf(ov, c), eIds))) == StripColumn(ov, c, eIds)
    ensures |GroupKeys(StripColumn(ov, c, eIds))| < KeySpaceSize
    ensures Get(StripColumn(ov, c, eIds), c) == Some(KeptGroups(GroupsOf(ov, c), eIds))
  {
    GroupKeysStrip(ov, c, eIds);
    SubsetCount(GroupKeys(StripColumn(ov, c, eIds)), GroupKeys(ov));
    SetSpec(ov, c, KeptGroups(GroupsOf(ov, c), eIds));
  }

  /** Storing `eIds` under a fresh key in the stripped column is `AddGroup`, and keeps every
      key distinct. */
  lemma AddGroupStore(ov: Overlapped, c: string, eIds: seq<string>, key: string)
    requires WellFormedOverlapped(ov)
    requires key !in GroupKeys(StripColumn(ov, c, eIds))
    ensures var k := KeptGroups(GroupsOf(ov, c), eIds);
            Set(StripColumn(ov, c, eIds), c, Set(k, key, eIds)) == AddGroup(ov, c, eIds, key)
    ensures WellFormedOverlapped(AddGroup(ov, c, eIds, key))
  {
    var k := KeptGroups(GroupsOf(ov, c), eIds);
    SetTwice(ov, c, k, Set(k, key, eIds));
    AddGroupSpec(ov, c, eIds, key);
  }

  /** The `existingGroups.forEach` of `_addToOverlapped`: the keys, in order, of the groups
      that share an id with `eIds`. */
  method CollectSharing(existingGroups: Groups, eIds: seq<string>) returns (groupsToRemove: seq<string>)
    ensures groupsToRemove == SharingKeys(existingGroups, eIds)
  {
    groupsToRemove := [];
    for i := 0 to |existingGroups|
      invariant groupsToRemove == SharingKeys(existingGroups[..i], eIds)
    {
      assert existingGroups[..i + 1][..i] == existingGroups[..i];
      if Shares(existingGroups[i].val, eIds) {
        groupsToRemove := groupsToRemove + [existingGroups[i].key];
      }
    }
    assert existingGroups[..|existingGroups|] == existingGroups;
  }

  /** `elementLayouts.forEach(...)` of `calculateLayout`: each layout is written under its
      event id, a later write for the same id replacing an earlier one. */
  method WriteElementLayouts(res: Dict<Layout.Placement>, ls: seq<Layout.ElementLayout>, c: string)
    returns (layoutResults: Dict<Layout.Placement>)
    ensures layoutResults == Layout.WriteLayouts(res, ls, c)
  {
    layoutResults := res;
    for k := 0 to |ls|
      invariant layoutResults == Layout.WriteLayouts(res, ls[..k], c)
    {
      assert ls[..k + 1][..k] == ls[..k];
      var layout := ls[k];
      layoutResults := Set(layoutResults, layout.id, Layout.Placement(layout.width, layout.left, c));
    }
    assert ls[..|ls|] == ls;
  }

  /** `checkEvents.forEach(...)` of `calculateLayout`: every group laid out in turn. */
  method WriteGroupLayouts(res: Dict<Layout.Placement>, checkEvents: seq<seq<string>>,
                           columnWidth: real, columnOffset: real, c: string)
    returns (layoutResults: Dict<Layout.Placement>)
    ensures layoutResults == Layout.WriteGroups(res, checkEvents, columnWidth, columnOffset, c)
  {
    layoutResults := res;
    for g := 0 to |checkEvents|
      invariant layoutResults == Layout.WriteGroups(res, checkEvents[..g], columnWidth, columnOffset, c)
    {
      assert checkEvents[..g + 1][..g] == checkEvents[..g];
      var elementLayouts := Layout.CalculateElementLayout(checkEvents[g], columnWidth, columnOffset);
      layoutResults := WriteElementLayouts(layoutResults, elementLayouts, c);
    }
    assert checkEvents[..|checkEvents|] == checkEvents;
  }

  /** One pass of the `columnIds.forEach` of `calculateLayout`. */
  lemma LayoutColumnsStep(cols: Columns, ids: seq<string>, i: nat, widths: map<string, real>, offsets: map<string, real>)
    requires i < |ids|
    ensures Layout.LayoutColumns(cols, ids[..i + 1], widths, offsets)
            == Layout.LayoutColumn(Layout.LayoutColumns(cols, ids[..i], widths, offsets), cols, ids[i], widths, offsets)
  {
    assert ids[..i + 1][..i] == ids[..i];
  }

  class ColumnObserver {
    var columns: Columns
    var overlappedEvents: Overlapped

    /** Both dictionaries, and every column's group dictionary, have distinct keys. */
    ghost predicate Valid()
      reads this
    {
      WellFormed(columns) && WellFormedOverlapped(overlappedEvents)
    }

    /** Fewer than 36^3 group keys are in use, so `_get3CharId` can draw a fresh one. */
    ghost predicate Room()
      reads this
    {
      |GroupKeys(overlappedEvents)| < KeySpaceSize
    }

    /** The observer's state as a value. */
    function State(): Store
      reads this
    {
      Store(columns, overlappedEvents)
    }

    constructor()
      ensures columns == [] && overlappedEvents == []
      ensures Valid()
    {
      columns := [];
      overlappedEvents := [];
    }

    /** `addColumn(column)`: the column gets an empty list, in place if it was registered. */
    method AddColumn(id: string)
      requires Valid()
      modifies this
      ensures columns == Set(old(columns), id, [])
      ensures overlappedEvents == old(overlappedEvents)
      ensures Valid()
    {
      SetWellFormed(columns, id, []);
      columns := Set(columns, id, []);
    }

    /** `removeColumn(columnId)`. */
    method RemoveColumn(id: string)
      requires Valid()
      modifies this
      ensures columns == Delete(old(columns), id)
      ensures overlappedEvents == old(overlappedEvents)
      ensures Valid()
    {
      DeleteWellFormed(columns, id);
      columns := Delete(columns, id);
    }

    /** `initializeColumns(columns)`, given the column ids. */
    method InitializeColumns(ids: seq<string>)
      requires Valid()
      modifies this
      ensures columns == RegisterColumns(old(columns), ids)
      ensures overlappedEvents == old(overlappedEvents)
      ensures Valid()
    {
      for i := 0 to |ids|
        invariant columns == RegisterColumns(old(columns), ids[..i])
        invariant overlappedEvents == old(overlappedEvents)
        invariant Valid()
      {
        assert ids[..i + 1][..i] == ids[..i];
        SetWellFormed(columns, ids[i], []);
        columns := Set(columns, ids[i], []);
      }
      assert ids[..|ids|] == ids;
    }

    /** `_removeFromOverlapped(eId)`: `e` leaves every group, groups left with at most one
        id are deleted, and so are columns left with no group. */
    method RemoveFromOverlapped(e: string)
      requires WellFormedOverlapped(overlappedEvents)
      modifies this
      ensures overlappedEvents == PruneColumns(old(overlappedEvents), e)
      ensures columns == old(columns)
      ensures WellFormedOverlapped(overlappedEvents)
    {
      ghost var ov0 := overlappedEvents;
      var cIds := Keys(overlappedEvents);
      for i := 0 to |cIds|
        invariant cIds == Keys(ov0)
        invariant overlappedEvents == PruneColumns(ov0[..i], e) + ov0[i..]
        invariant columns == old(columns)
      {
        KeysAt(ov0, i);
        PruneColumnsStep(ov0, i, e);
        PruneColumnGroups(cIds[i], e, PruneColumns(ov0[..i], e), ov0[i].val, ov0[i + 1..]);
      }
      assert ov0[..|ov0|] == ov0;
      PruneColumnsWellFormed(ov0, e);
    }

    /** The callback `_removeFromOverlapped` runs for column `cId`, which sits between `pre`
        and `rest`: it prunes the column's groups, then deletes the column if none is left. */
    method PruneColumnGroups(cId: string, e: string, ghost pre: Overlapped, ghost gs0: Groups, ghost rest: Overlapped)
      requires WellFormed(gs0) && cId !in Keys(pre) && cId !in Keys(rest)
      requires overlappedEvents == pre + [Entry(cId, gs0)] + rest
      modifies this
      ensures var g := PruneGroups(gs0, e);
              overlappedEvents == if g == [] then pre + rest else pre + [Entry(cId, g)] + rest
      ensures columns == old(columns)
    {
      GetInPlace(pre, cId, gs0, rest);
      var groupIds := Keys(Get(overlappedEvents, cId).value);
      var j := 0;
      assert PruneGroups(gs0[..j], e) + gs0[j..] == gs0 by {
        assert gs0[..j] == [] && gs0[j..] == gs0;
      }
      while j < |groupIds|
        invariant 0 <= j <= |groupIds| == |gs0| && groupIds == Keys(gs0)
        invariant overlappedEvents == pre + [Entry(cId, PruneGroups(gs0[..j], e) + gs0[j..])] + rest
        invariant columns == old(columns)
      {
        KeysAt(gs0, j);
        PruneGroup(cId, groupIds[j], e, pre, gs0, rest, j);
        j := j + 1;
      }
      PruneGroupsDone(gs0, e);
      ghost var g := PruneGroups(gs0, e);
      GetInPlace(pre, cId, g, rest);
      if |Keys(Get(overlappedEvents, cId).value)| == 0 {
        DeleteInPlace(pre, cId, g, rest);
        overlappedEvents := Delete(overlappedEvents, cId);
      }
    }

    /** The inner callback of `_removeFromOverlapped` for group `groupId`, the `j`-th group
        of column `cId`: `e` leaves the group, and a group left with at most one id goes. */
    method PruneGroup(cId: string, groupId: string, e: string, ghost pre: Overlapped, ghost gs0: Groups,
                      ghost rest: Overlapped, ghost j: nat)
      requires WellFormed(gs0) && j < |gs0| && groupId == gs0[j].key && cId !in Keys(pre)
      requires overlappedEvents == pre + [Entry(cId, PruneGroups(gs0[..j], e) + gs0[j..])] + rest
      modifies this
      ensures overlappedEvents == pre + [Entry(cId, PruneGroups(gs0[..j + 1], e) + gs0[j + 1..])] + rest
      ensures columns == old(columns)
    {
      PruneInColumn(pre, cId, gs0, rest, j, e);
      var columnGroups := Get(overlappedEvents, cId).value;
      var eventIds := Without(Get(columnGroups, groupId).value, e);
      if |eventIds| <= 1 {
        overlappedEvents := Set(overlappedEvents, cId, Delete(columnGroups, groupId));
      } else {
        overlappedEvents := Set(overlappedEvents, cId, Set(columnGroups, groupId, eventIds));
      }
    }

    /** `removeEventFromColumns(event)`: the event leaves every list whose key starts with
        "column", and the overlap groups are pruned the first time one held it. */
    method RemoveEventFromColumns(id: string)
      requires Valid()
      modifies this
      ensures State() == RemoveEverywhere(old(State()), id)
      ensures Valid()
    {
      ghost var cols0 := columns;
      ghost var ov0 := overlappedEvents;
      var keys := Keys(columns);
      for i := 0 to |keys|
        invariant keys == Keys(cols0)
        invariant columns == StripEvent(cols0[..i], id) + cols0[i..]
        invariant overlappedEvents == if Holds(cols0[..i], id) then PruneColumns(ov0, id) else ov0
      {
        KeysAt(cols0, i);
        RemoveFromColumnAt(keys[i], id, cols0, ov0, i);
      }
      assert cols0[..|cols0|] == cols0 && cols0[|cols0|..] == [];
      StripEventGet(cols0, id, "");
      PruneColumnsWellFormed(ov0, id);
    }

    /** What `removeEventFromColumns` does for the key `cols0[i].key`: the `startsWith`
        filter, then the callback that drops the event from that column's list. */
    method RemoveFromColumnAt(key: string, id: string, ghost cols0: Columns, ghost ov0: Overlapped, ghost i: nat)
      requires WellFormed(cols0) && WellFormedOverlapped(ov0) && i < |cols0| && key == cols0[i].key
      requires columns == StripEvent(cols0[..i], id) + cols0[i..]
      requires overlappedEvents == if Holds(cols0[..i], id) then PruneColumns(ov0, id) else ov0
      modifies this
      ensures columns == StripEvent(cols0[..i + 1], id) + cols0[i + 1..]
      ensures overlappedEvents == if Holds(cols0[..i + 1], id) then PruneColumns(ov0, id) else ov0
    {
      StripStep(cols0, i, id);
      PruneColumnsWellFormed(ov0, id);
      PruneColumnsIdempotent(ov0, id);
      if IsEventColumn(key) {
        match Get(columns, key)
        case None =>
        case Some(columnEvents) =>
          if id in Ids(columnEvents) {
            RemoveFromOverlapped(id);
            columns := Set(columns, key, RemoveRecords(columnEvents, id));
          }
      }
    }

    /** `removeEventFromColumn(eventId, columnId)`; `ok` is false, and nothing changes, where
        the source throws because the column is not registered. */
    method RemoveEventFromColumn(eventId: string, columnId: string) returns (ok: bool)
      requires Valid()
      modifies this
      ensures ok <==> columnId in Keys(old(columns))
      ensures !ok ==> columns == old(columns) && overlappedEvents == old(overlappedEvents)
      ensures ok ==> columns == Set(old(columns), columnId, RemoveRecords(Get(old(columns), columnId).value, eventId))
                     && overlappedEvents == PruneColumns(old(overlappedEvents), eventId)
      ensures Valid()
    {
      match Get(columns, columnId)
      case None =>
        ok := false;
      case Some(evs) =>
        SetWellFormed(columns, columnId, RemoveRecords(evs, eventId));
        columns := Set(columns, columnId, RemoveRecords(evs, eventId));
        RemoveFromOverlapped(eventId);
        ok := true;
    }

    /** `_get3CharId()`: a three-character key over `chars` that no column uses yet. */
    method Get3CharId() returns (newId: string)
      requires Room()
      ensures newId !in GroupKeys(overlappedEvents)
      ensures |newId| == 3 && forall i :: 0 <= i < 3 ==> newId[i] in KeyAlphabet
    {
      var existingIds := GroupKeys(overlappedEvents);
      FreshKeyExists(existingIds);
      var a: nat, b: nat, c: nat :| a < 36 && b < 36 && c < 36 && Key3(a, b, c) !in existingIds;
      KeyCharInAlphabet(a);
      KeyCharInAlphabet(b);
      KeyCharInAlphabet(c);
      newId := Key3(a, b, c);
    }

    /** `_addToOverlapped(cId, eIds)`: the groups of `cId` sharing an id with `eIds` are
        deleted and `eIds` is stored under a fresh key. */
    method AddToOverlapped(cId: string, eIds: seq<string>)
      requires WellFormedOverlapped(overlappedEvents) && Room()
      modifies this
      ensures columns == old(columns)
      ensures WellFormedOverlapped(overlappedEvents)
      ensures exists key :: key !in GroupKeys(StripColumn(old(overlappedEvents), cId, eIds))
                            && overlappedEvents == AddGroup(old(overlappedEvents), cId, eIds, key)
    {
      ghost var ov0 := overlappedEvents;
      AddToOverlappedStart(ov0, cId);
      if Get(overlappedEvents, cId).None? {
        overlappedEvents := Set(overlappedEvents, cId, []);
      }
      var existingGroups := Get(overlappedEvents, cId).value;
      var groupsToRemove := CollectSharing(existingGroups, eIds);
      DeleteGroups(cId, groupsToRemove, ov0, existingGroups);
      AddToOverlappedFinish(ov0, cId, eIds);
      var newGroupId := Get3CharId();
      var kept := Get(overlappedEvents, cId).value;
      AddGroupStore(ov0, cId, eIds, newGroupId);
      overlappedEvents := Set(overlappedEvents, cId, Set(kept, newGroupId, eIds));
    }

    /** The `groupsToRemove.forEach` of `_addToOverlapped`: each listed group of `cId` is
        deleted. */
    method DeleteGroups(cId: string, groupsToRemove: seq<string>, ghost ov0: Overlapped, ghost existing: Groups)
      requires overlappedEvents == Set(ov0, cId, existing)
      modifies this
      ensures overlappedEvents == Set(ov0, cId, DeleteAll(existing, groupsToRemove))
      ensures columns == old(columns)
    {
      for j := 0 to |groupsToRemove|
        invariant overlappedEvents == Set(ov0, cId, DeleteAll(existing, groupsToRemove[..j]))
        invariant columns == old(columns)
      {
        ghost var before := DeleteAll(existing, groupsToRemove[..j]);
        SetSpec(ov0, cId, before);
        var groups := Get(overlappedEvents, cId).value;
        SetTwice(ov0, cId, before, Delete(before, groupsToRemove[j]));
        assert groupsToRemove[..j + 1][..j] == groupsToRemove[..j];
        overlappedEvents := Set(overlappedEvents, cId, Delete(groups, groupsToRemove[j]));
      }
      assert groupsToRemove[..|groupsToRemove|] == groupsToRemove;
    }

    /** `addEventToColumn(event, columnId)`, with the event's id and measured rectangle; `ok`
        is false where the source throws because the column is not registered, after the
        removal from every column has already happened. */
    method AddEventToColumn(id: string, rect: ClientRect, columnId: string) returns (ok: bool)
      requires Valid() && Room()
      modifies this
      ensures ok <==> columnId in Keys(old(columns))
      ensures exists key :: FreshAddKey(old(State()), id, rect, columnId, key)
                            && State() == AddEvent(old(State()), id, rect, columnId, key)
      ensures Valid()
    {
      ghost var s0 := State();
      GroupKeysPrune(overlappedEvents, id);
      SubsetCount(GroupKeys(PruneColumns(overlappedEvents, id)), GroupKeys(overlappedEvents));
      RemoveEventFromColumns(id);
      ghost var r := RemoveEverywhere(s0, id);
      assert columns == r.columns && overlappedEvents == r.overlapped;
      StripEventGet(s0.columns, id, columnId);
      ghost var key: string := "";
      match Get(columns, columnId) {
        case None =>
          ok := false;
          AddEventUnplaced(s0, id, rect, columnId);
        case Some(evs) =>
          ok := true;
          SetWellFormed(columns, columnId, evs + [Record(id, rect)]);
          columns := Set(columns, columnId, evs + [Record(id, rect)]);
          var overlappingIds := GetOverlapping(columns, id, columnId);
          match overlappingIds {
            case None =>
              AddEventUngrouped(s0, id, rect, columnId, evs);
            case Some(ids) =>
              AddToOverlapped(columnId, ids + [id]);
              key :| key !in GroupKeys(StripColumn(r.overlapped, columnId, ids + [id]))
                     && overlappedEvents == AddGroup(r.overlapped, columnId, ids + [id], key);
              AddEventGrouped(s0, id, rect, columnId, evs, ids, key);
          }
      }
      assert FreshAddKey(s0, id, rect, columnId, key) && State() == AddEvent(s0, id, rect, columnId, key);
    }
    /** The `eventsInColumn.forEach` of `calculateLayout` for column `c`: each event not yet
        in a group seeds one, made of the event and its direct overlaps sorted by left. */
    method CheckEventsOf(c: string, eventsInColumn: seq<EventRecord>) returns (checkEvents: seq<seq<string>>)
      ensures checkEvents == Layout.CheckEvents(columns, c, eventsInColumn)
    {
      checkEvents := [];
      for j := 0 to |eventsInColumn|
        invariant checkEvents == Layout.CheckEvents(columns, c, eventsInColumn[..j])
      {
        assert eventsInColumn[..j + 1][..j] == eventsInColumn[..j];
        var id := eventsInColumn[j].id;
        if id !in Layout.Flatten(checkEvents) {
          var overlaps := GetOverlapping(columns, id, c);
          match overlaps
          case Some(ids) =>
            var sorted := Layout.SortBy(Layout.LeftKey(columns), ids + [id]);
            checkEvents := checkEvents + [sorted];
          case None =>
            checkEvents := checkEvents + [[id]];
        }
      }
      assert eventsInColumn[..|eventsInColumn|] == eventsInColumn;
    }

    /** `calculateLayout(columnIds?, columnWidths, columnOffsets)`: the placement of every
        event of the listed columns, keyed by event id. */
    method CalculateLayout(columnIds: Option<seq<string>>, columnWidths: map<string, real>, columnOffsets: map<string, real>)
      returns (layoutResults: Dict<Layout.Placement>)
      ensures layoutResults == Layout.CalculateLayout(columns, columnIds, columnWidths, columnOffsets)
    {
      var ids := columnIds.GetOr(Layout.DefaultColumnIds(columns));
      layoutResults := [];
      for i := 0 to |ids|
        invariant layoutResults == Layout.LayoutColumns(columns, ids[..i], columnWidths, columnOffsets)
      {
        LayoutColumnsStep(columns, ids, i, columnWidths, columnOffsets);
        layoutResults := LayoutColumnOf(layoutResults, ids[i], columnWidths, columnOffsets);
      }
      assert ids[..|ids|] == ids;
    }

    /** The `columnIds.forEach` callback of `calculateLayout` for column `columnId`; a
        column that is not registered is skipped. */
    method LayoutColumnOf(res: Dict<Layout.Placement>, columnId: string,
                          columnWidths: map<string, real>, columnOffsets: map<string, real>)
      returns (layoutResults: Dict<Layout.Placement>)
      ensures layoutResults == Layout.LayoutColumn(res, columns, columnId, columnWidths, columnOffsets)
    {
      layoutResults := res;
      match Get(columns, columnId)
      case None =>
      case Some(eventsInColumn) =>
        var checkEvents := CheckEventsOf(columnId, eventsInColumn);
        var columnWidth := Layout.ColumnWidth(columnWidths, columnId);
        var columnOffset := Layout.ColumnOffset(columnOffsets, columnId);
        layoutResults := WriteGroupLayouts(layoutResults, checkEvents, columnWidth, columnOffset, columnId);
    }
  }
}
