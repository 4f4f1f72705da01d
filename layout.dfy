/**
 * The layout pass of the column observer (src/engine/event-manager.js):
 * `_calculateElementLayout` shares a column's width equally among a group of events,
 * and `calculateLayout` groups each event of a column with its direct overlaps and lays
 * every group out.
 */
module Layout {
  import opened Wrappers
  import opened Dict
  import opened ColumnQueries

  /** One entry of `_calculateElementLayout`'s result. */
  datatype ElementLayout = ElementLayout(id: string, width: real, left: real)

  /** One value of `calculateLayout`'s result, keyed by event id. */
  datatype Placement = Placement(width: real, left: real, columnId: string)

  /** The default column width of `calculateLayout`. */
  const DefaultColumnWidth: real := 130.0

  // ---------------------------------------------------------------------------
  // _calculateElementLayout

  /** `_calculateElementLayout(ids, columnWidth, columnOffset)`. */
  function CalculateElementLayout(ids: seq<string>, columnWidth: real, columnOffset: real): (r: seq<ElementLayout>)
    ensures |r| == |ids|
    ensures forall i :: 0 <= i < |ids| ==> r[i].id == ids[i]
  {
    var n := |ids|;
    seq(n, i requires 0 <= i < n =>
      ElementLayout(ids[i], columnWidth / (n as real), (i as real) * (columnWidth / (n as real)) + columnOffset))
  }

  /**
   * The entries tile the column: all have width `columnWidth / n`, the first starts at
   * the offset, each starts where the previous one ends, and the last ends at
   * `columnOffset + columnWidth`.
   */
  lemma ElementLayoutTiles(ids: seq<string>, columnWidth: real, columnOffset: real)
    requires |ids| > 0
    ensures var r := CalculateElementLayout(ids, columnWidth, columnOffset);
            && (forall i :: 0 <= i < |r| ==> r[i].width == columnWidth / (|ids| as real))
            && r[0].left == columnOffset
            && (forall i :: 0 <= i < |r| - 1 ==> r[i].left + r[i].width == r[i + 1].left)
            && r[|r| - 1].left + r[|r| - 1].width == columnOffset + columnWidth
  {
    var r := CalculateElementLayout(ids, columnWidth, columnOffset);
    forall i | 0 <= i < |r| ensures r[i].width == columnWidth / (|ids| as real) {
      ElementLayoutAt(ids, columnWidth, columnOffset, i);
    }
    ElementLayoutAt(ids, columnWidth, columnOffset, 0);
    forall i | 0 <= i < |r| - 1 ensures r[i].left + r[i].width == r[i + 1].left {
      TileStep(ids, columnWidth, columnOffset, i);
    }
    TileEnd(ids, columnWidth, columnOffset);
  }

  lemma TileStep(ids: seq<string>, columnWidth: real, columnOffset: real, i: nat)
    requires i + 1 < |ids|
    ensures var r := CalculateElementLayout(ids, columnWidth, columnOffset);
            r[i].left + r[i].width == r[i + 1].left
  {
    ElementLayoutAt(ids, columnWidth, columnOffset, i);
    ElementLayoutAt(ids, columnWidth, columnOffset, i + 1);
    NextSlot(i as real, columnWidth / (|ids| as real));
  }

  lemma TileEnd(ids: seq<string>, columnWidth: real, columnOffset: real)
    requires |ids| > 0
    ensures var r := CalculateElementLayout(ids, columnWidth, columnOffset);
            r[|r| - 1].left + r[|r| - 1].width == columnOffset + columnWidth
  {
    var n := |ids| as real;
    var w := columnWidth / n;
    ElementLayoutAt(ids, columnWidth, columnOffset, |ids| - 1);
    assert ((|ids| - 1) as real) == n - 1.0;
    NextSlot(n - 1.0, w);
    assert w * n == columnWidth;
  }

  lemma NextSlot(a: real, w: real)
    ensures a * w + w == (a + 1.0) * w
  {
  }

  // ---------------------------------------------------------------------------
  // Sorting a group by stored left offset

  /** `getEventById(id).left`; every id sorted here has a record, so the default is never used. */
  function LeftOf(cols: Columns, id: string): real {
    match GetEventById(cols, id)
    case Some(e) => e.left
    case None => 0.0
  }

  /** The sort key of `calculateLayout`'s comparator. */
  function LeftKey(cols: Columns): string -> real {
    id => LeftOf(cols, id)
  }

  ghost predicate SortedBy(key: string -> real, ids: seq<string>) {
    forall i, j :: 0 <= i < j < |ids| ==> key(ids[i]) <= key(ids[j])
  }

  /** Inserts `id` after every element whose key is not larger (keeps the sort stable). */
  function InsertBy(key: string -> real, id: string, sorted: seq<string>): (r: seq<string>)
    ensures multiset(r) == multiset(sorted) + multiset{id}
  {
    if sorted == [] then [id]
    else if key(id) < key(sorted[0]) then [id] + sorted
    else
      assert sorted == [sorted[0]] + sorted[1..];
      [sorted[0]] + InsertBy(key, id, sorted[1..])
  }

  ghost predicate AllAtLeast(key: string -> real, ids: seq<string>, b: real) {
    forall j :: 0 <= j < |ids| ==> b <= key(ids[j])
  }

  lemma SortedTail(key: string -> real, ids: seq<string>)
    requires ids != [] && SortedBy(key, ids)
    ensures SortedBy(key, ids[1..]) && AllAtLeast(key, ids[1..], key(ids[0]))
  {
    forall i, j | 0 <= i < j < |ids| - 1 ensures key(ids[1..][i]) <= key(ids[1..][j]) {
      assert ids[1..][i] == ids[i + 1] && ids[1..][j] == ids[j + 1];
    }
  }

  lemma SortedCons(key: string -> real, x: string, ids: seq<string>)
    requires SortedBy(key, ids) && AllAtLeast(key, ids, key(x))
    ensures SortedBy(key, [x] + ids)
  {
    var r := [x] + ids;
    forall i, j | 0 <= i < j < |r| ensures key(r[i]) <= key(r[j]) {
      assert r[j] == ids[j - 1];
      if i > 0 {
        assert r[i] == ids[i - 1];
      }
    }
  }

  lemma {:induction false} InsertByBound(key: string -> real, id: string, sorted: seq<string>, b: real)
    requires AllAtLeast(key, sorted, b) && b <= key(id)
    ensures AllAtLeast(key, InsertBy(key, id, sorted), b)
  {
    if sorted == [] {
      AllAtLeastCons(key, id, [], b);
    } else if key(id) < key(sorted[0]) {
      AllAtLeastCons(key, id, sorted, b);
    } else {
      AllAtLeastTail(key, sorted, b);
      InsertByBound(key, id, sorted[1..], b);
      AllAtLeastCons(key, sorted[0], InsertBy(key, id, sorted[1..]), b);
    }
  }

  lemma AllAtLeastTail(key: string -> real, ids: seq<string>, b: real)
    requires ids != [] && AllAtLeast(key, ids, b)
    ensures b <= key(ids[0]) && AllAtLeast(key, ids[1..], b)
  {
    forall j | 0 <= j < |ids| - 1 ensures b <= key(ids[1..][j]) {
      assert ids[1..][j] == ids[j + 1];
    }
  }

  lemma AllAtLeastCons(key: string -> real, x: string, ids: seq<string>, b: real)
    requires b <= key(x) && AllAtLeast(key, ids, b)
    ensures AllAtLeast(key, [x] + ids, b)
  {
    var r := [x] + ids;
    forall j | 0 <= j < |r| ensures b <= key(r[j]) {
      if j > 0 {
        assert r[j] == ids[j - 1];
      }
    }
  }

  lemma {:induction false} InsertBySorted(key: string -> real, id: string, sorted: seq<string>)
    requires SortedBy(key, sorted)
    ensures SortedBy(key, InsertBy(key, id, sorted))
  {
    if sorted != [] && key(id) >= key(sorted[0]) {
      var tail := sorted[1..];
      SortedTail(key, sorted);
      InsertBySorted(key, id, tail);
      InsertByBound(key, id, tail, key(sorted[0]));
      SortedCons(key, sorted[0], InsertBy(key, id, tail));
      assert [sorted[0]] + InsertBy(key, id, tail) == InsertBy(key, id, sorted);
    } else if sorted != [] {
      assert AllAtLeast(key, sorted, key(id)) by {
        forall j | 0 <= j < |sorted| ensures key(id) <= key(sorted[j]) {
          assert key(sorted[0]) <= key(sorted[j]);
        }
      }
      SortedCons(key, id, sorted);
    }
  }

  /** The stable `sort` by ascending key. */
  function SortBy(key: string -> real, ids: seq<string>): (r: seq<string>)
    ensures multiset(r) == multiset(ids)
    ensures SortedBy(key, r)
  {
    if ids == [] then []
    else
      var init := ids[..|ids| - 1];
      assert ids == init + [ids[|ids| - 1]];
      InsertBySorted(key, ids[|ids| - 1], SortBy(key, init));
      InsertBy(key, ids[|ids| - 1], SortBy(key, init))
  }

  /** The elements of `ids` whose key is `v`, in their order. */
  function KeyFilter(key: string -> real, ids: seq<string>, v: real): seq<string> {
    if ids == [] then []
    else (if key(ids[0]) == v then [ids[0]] else []) + KeyFilter(key, ids[1..], v)
  }

  lemma {:induction false} KeyFilterAppend(key: string -> real, a: seq<string>, b: seq<string>, v: real)
    ensures KeyFilter(key, a + b, v) == KeyFilter(key, a, v) + KeyFilter(key, b, v)
  {
    if a == [] {
      assert a + b == b;
    } else {
      assert (a + b)[0] == a[0] && (a + b)[1..] == a[1..] + b;
      KeyFilterAppend(key, a[1..], b, v);
    }
  }

  /** No element of a list whose keys all exceed `v` has key `v`. */
  lemma {:induction false} KeyFilterAbove(key: string -> real, ids: seq<string>, v: real, b: real)
    requires AllAtLeast(key, ids, b) && v < b
    ensures KeyFilter(key, ids, v) == []
  {
    if ids != [] {
      AllAtLeastTail(key, ids, b);
      KeyFilterAbove(key, ids[1..], v, b);
    }
  }

  /** Inserting into a sorted list places `id` after every element with the same key. */
  lemma {:induction false} InsertByStable(key: string -> real, id: string, sorted: seq<string>, v: real)
    requires SortedBy(key, sorted)
    ensures KeyFilter(key, InsertBy(key, id, sorted), v) == KeyFilter(key, sorted, v) + (if key(id) == v then [id] else [])
  {
    if sorted == [] {
      assert [id][1..] == [];
    } else {
      SortedTail(key, sorted);
      if key(id) < key(sorted[0]) {
        InsertByFront(key, id, sorted, v);
      } else {
        InsertByStable(key, id, sorted[1..], v);
        KeyFilterConsShift(key, sorted[0], InsertBy(key, id, sorted[1..]), sorted[1..], if key(id) == v then [id] else [], v);
        InsertByCons(key, id, sorted);
        assert sorted == [sorted[0]] + sorted[1..];
      }
    }
  }

  /** `id` goes in front of a list whose keys all exceed its own. */
  lemma {:induction false} InsertByFront(key: string -> real, id: string, sorted: seq<string>, v: real)
    requires sorted != [] && key(id) < key(sorted[0])
    requires AllAtLeast(key, sorted[1..], key(sorted[0]))
    ensures KeyFilter(key, InsertBy(key, id, sorted), v) == KeyFilter(key, sorted, v) + (if key(id) == v then [id] else [])
  {
    var r := [id] + sorted;
    assert InsertBy(key, id, sorted) == r;
    assert r[0] == id && r[1..] == sorted;
    if key(id) == v {
      KeyFilterAbove(key, sorted[1..], v, key(sorted[0]));
    }
  }

  /** `id` goes past the first element when its key is not smaller. */
  lemma InsertByCons(key: string -> real, id: string, sorted: seq<string>)
    requires sorted != [] && key(id) >= key(sorted[0])
    ensures InsertBy(key, id, sorted) == [sorted[0]] + InsertBy(key, id, sorted[1..])
  {
  }

  /** Putting the same element in front of two lists keeps a relation between their filters. */
  lemma KeyFilterConsShift(key: string -> real, x: string, j: seq<string>, t: seq<string>, extra: seq<string>, v: real)
    requires KeyFilter(key, j, v) == KeyFilter(key, t, v) + extra
    ensures KeyFilter(key, [x] + j, v) == KeyFilter(key, [x] + t, v) + extra
  {
    KeyFilterCons(key, x, j, v);
    KeyFilterCons(key, x, t, v);
  }

  lemma KeyFilterCons(key: string -> real, x: string, t: seq<string>, v: real)
    ensures KeyFilter(key, [x] + t, v) == (if key(x) == v then [x] else []) + KeyFilter(key, t, v)
  {
    assert ([x] + t)[0] == x && ([x] + t)[1..] == t;
  }

  /**
   * The sort is stable: for every key value, the elements with that key come out in the
   * order they went in, as JavaScript's `Array.prototype.sort` guarantees.
   */
  lemma {:induction false} SortByStable(key: string -> real, ids: seq<string>, v: real)
    ensures KeyFilter(key, SortBy(key, ids), v) == KeyFilter(key, ids, v)
  {
    if ids != [] {
      var init := ids[..|ids| - 1];
      var x := ids[|ids| - 1];
      SortByStable(key, init, v);
      SortByStep(key, ids);
      InsertByStable(key, x, SortBy(key, init), v);
      KeyFilterLast(key, ids, v);
    }
  }

  /** The sort inserts the last element into the sorted rest. */
  lemma SortByStep(key: string -> real, ids: seq<string>)
    requires ids != []
    ensures SortBy(key, ids) == InsertBy(key, ids[|ids| - 1], SortBy(key, ids[..|ids| - 1]))
    ensures SortedBy(key, SortBy(key, ids[..|ids| - 1]))
  {
  }

  /** Filtering a list is filtering all but its last element, then the last element. */
  lemma KeyFilterLast(key: string -> real, ids: seq<string>, v: real)
    requires ids != []
    ensures KeyFilter(key, ids, v) == KeyFilter(key, ids[..|ids| - 1], v) + (if key(ids[|ids| - 1]) == v then [ids[|ids| - 1]] else [])
  {
    var x := ids[|ids| - 1];
    assert ids == ids[..|ids| - 1] + [x];
    KeyFilterAppend(key, ids[..|ids| - 1], [x], v);
    KeyFilterCons(key, x, [], v);
    assert [x] + [] == [x];
  }

  // ---------------------------------------------------------------------------
  // calculateLayout

  /** The group `calculateLayout` seeds from `id`: `id` with its direct overlaps, sorted by left. */
  function GroupFor(cols: Columns, c: string, id: string): seq<string> {
    match GetOverlapping(cols, id, c)
    case None => [id]
    case Some(ids) => SortBy(LeftKey(cols), ids + [id])
  }

  /** The group of `id` before sorting: `overlaps.concat(event.id)`, or `[id]` alone. */
  function Candidates(cols: Columns, c: string, id: string): seq<string> {
    match GetOverlapping(cols, id, c)
    case None => [id]
    case Some(ids) => ids + [id]
  }

  /**
   * The group of `id` is its candidates rearranged, ordered by left edge, and ids that share a
   * left edge keep their candidate order.
   */
  lemma GroupForStable(cols: Columns, c: string, id: string)
    ensures multiset(GroupFor(cols, c, id)) == multiset(Candidates(cols, c, id))
    ensures SortedBy(LeftKey(cols), GroupFor(cols, c, id))
    ensures forall v :: KeyFilter(LeftKey(cols), GroupFor(cols, c, id), v) == KeyFilter(LeftKey(cols), Candidates(cols, c, id), v)
  {
    forall v ensures KeyFilter(LeftKey(cols), GroupFor(cols, c, id), v) == KeyFilter(LeftKey(cols), Candidates(cols, c, id), v) {
      if GetOverlapping(cols, id, c).Some? {
        SortByStable(LeftKey(cols), Candidates(cols, c, id), v);
      }
    }
  }

  /** `groups.flat()`. */
  function Flatten(groups: seq<seq<string>>): (r: seq<string>)
    ensures forall x :: x in r <==> exists g :: g in groups && x in g
  {
    if groups == [] then []
    else
      assert forall g :: g in groups <==> g == groups[0] || g in groups[1..];
      groups[0] + Flatten(groups[1..])
  }

  /** `checkEvents` after the loop over the records `evs` of column `c`. */
  function CheckEvents(cols: Columns, c: string, evs: seq<EventRecord>): seq<seq<string>> {
    if evs == [] then []
    else
      var acc := CheckEvents(cols, c, evs[..|evs| - 1]);
      var id := evs[|evs| - 1].id;
      if id in Flatten(acc) then acc else acc + [GroupFor(cols, c, id)]
  }

  /** `columnWidths[c] || 130`. */
  function ColumnWidth(widths: map<string, real>, c: string): real {
    if c in widths && widths[c] != 0.0 then widths[c] else DefaultColumnWidth
  }

  /** `columnOffsets[c] || 0`. */
  function ColumnOffset(offsets: map<string, real>, c: string): real {
    if c in offsets && offsets[c] != 0.0 then offsets[c] else 0.0
  }

  /** `layouts.forEach(l => layoutResults[l.id] = {width, left, columnId: c})`. */
  function WriteLayouts(res: Dict<Placement>, ls: seq<ElementLayout>, c: string): Dict<Placement> {
    if ls == [] then res
    else
      var l := ls[|ls| - 1];
      Set(WriteLayouts(res, ls[..|ls| - 1], c), l.id, Placement(l.width, l.left, c))
  }

  /** `checkEvents.forEach(...)`: every group laid out in turn, later writes winning. */
  function WriteGroups(res: Dict<Placement>, groups: seq<seq<string>>, w: real, off: real, c: string): Dict<Placement> {
    if groups == [] then res
    else
      WriteLayouts(WriteGroups(res, groups[..|groups| - 1], w, off, c),
                   CalculateElementLayout(groups[|groups| - 1], w, off), c)
  }

  /** The body of `columnIds.forEach` for one column. */
  function LayoutColumn(res: Dict<Placement>, cols: Columns, c: string, widths: map<string, real>, offsets: map<string, real>): Dict<Placement> {
    match Get(cols, c)
    case None => res
    case Some(evs) => WriteGroups(res, CheckEvents(cols, c, evs), ColumnWidth(widths, c), ColumnOffset(offsets, c), c)
  }

  /** `calculateLayout(columnIds, widths, offsets)` for an explicit list of column ids. */
  function LayoutColumns(cols: Columns, columnIds: seq<string>, widths: map<string, real>, offsets: map<string, real>): Dict<Placement> {
    if columnIds == [] then []
    else LayoutColumn(LayoutColumns(cols, columnIds[..|columnIds| - 1], widths, offsets), cols, columnIds[|columnIds| - 1], widths, offsets)
  }

  /** The default `columnIds`: the column keys that do not start with "_", in key order. */
  function DefaultColumnIds(cols: Columns): (r: seq<string>)
    ensures forall k :: k in r <==> k in Keys(cols) && !("_" <= k)
  {
    if cols == [] then []
    else
      assert Keys(cols) == [cols[0].key] + Keys(cols[1..]);
      (if !("_" <= cols[0].key) then [cols[0].key] else []) + DefaultColumnIds(cols[1..])
  }

  /** `calculateLayout(columnIds?, widths, offsets)`. */
  function CalculateLayout(cols: Columns, columnIds: Option<seq<string>>, widths: map<string, real>, offsets: map<string, real>): Dict<Placement> {
    LayoutColumns(cols, columnIds.GetOr(DefaultColumnIds(cols)), widths, offsets)
  }

  // ---------------------------------------------------------------------------
  // What calculateLayout guarantees

  /** The ids of a list of element layouts, in order. */
  function LayoutIds(ls: seq<ElementLayout>): (ids: seq<string>)
    ensures |ids| == |ls| && forall i :: 0 <= i < |ls| ==> ids[i] == ls[i].id
  {
    seq(|ls|, i requires 0 <= i < |ls| => ls[i].id)
  }

  /**
   * A placement `calculateLayout` may give event `x`: in one of the requested columns that
   * holds `x`, with a positive width, inside that column's horizontal span.
   */
  ghost predicate Fits(cols: Columns, columnIds: seq<string>, widths: map<string, real>, offsets: map<string, real>,
                       x: string, p: Placement) {
    && p.columnId in columnIds
    && x in Ids(ColumnEvents(cols, p.columnId))
    && 0.0 < p.width
    && ColumnOffset(offsets, p.columnId) <= p.left
    && p.left + p.width <= ColumnOffset(offsets, p.columnId) + ColumnWidth(widths, p.columnId)
  }

  ghost predicate AllFit(cols: Columns, columnIds: seq<string>, widths: map<string, real>, offsets: map<string, real>,
                         r: Dict<Placement>) {
    forall x :: x in Keys(r) ==> Fits(cols, columnIds, widths, offsets, x, Get(r, x).value)
  }

  /** No column width given is negative. */
  ghost predicate NonNegativeWidths(widths: map<string, real>) {
    forall k :: k in widths ==> widths[k] >= 0.0
  }

  lemma MulMonotone(a: real, b: real, c: real)
    requires a <= b && 0.0 <= c
    ensures a * c <= b * c
  {}

  /** Slot `i` of `n` equal slots of a positive width `w` starting at `off` lies inside `[off, off + w]`. */
  lemma SlotWithin(i: nat, n: nat, w: real, off: real)
    requires i < n && 0.0 < w
    ensures 0.0 < w / (n as real)
    ensures off <= (i as real) * (w / (n as real)) + off
    ensures (i as real) * (w / (n as real)) + off + w / (n as real) <= off + w
  {
    var step := w / (n as real);
    assert step * (n as real) == w;
    MulMonotone(0.0, i as real, step);
    MulMonotone(i as real + 1.0, n as real, step);
  }

  /** Every entry of `_calculateElementLayout` for column `c` lies inside that column. */
  lemma ElementLayoutFits(cols: Columns, columnIds: seq<string>, widths: map<string, real>, offsets: map<string, real>,
                          ids: seq<string>, c: string)
    requires c in columnIds && ids != [] && NonNegativeWidths(widths)
    requires forall x :: x in ids ==> x in Ids(ColumnEvents(cols, c))
    ensures var ls := CalculateElementLayout(ids, ColumnWidth(widths, c), ColumnOffset(offsets, c));
            forall i :: 0 <= i < |ls| ==> Fits(cols, columnIds, widths, offsets, ls[i].id, Placement(ls[i].width, ls[i].left, c))
  {
    var w := ColumnWidth(widths, c);
    var off := ColumnOffset(offsets, c);
    var ls := CalculateElementLayout(ids, w, off);
    forall i | 0 <= i < |ls| ensures Fits(cols, columnIds, widths, offsets, ls[i].id, Placement(ls[i].width, ls[i].left, c)) {
      ElementLayoutAt(ids, w, off, i);
      SlotFits(cols, columnIds, widths, offsets, ids, c, i);
    }
  }

  lemma ElementLayoutAt(ids: seq<string>, w: real, off: real, i: nat)
    requires i < |ids|
    ensures CalculateElementLayout(ids, w, off)[i] == ElementLayout(ids[i], w / (|ids| as real), (i as real) * (w / (|ids| as real)) + off)
  {
  }

  /** Slot `i` of the ids `ids` in column `c` is a placement that fits. */
  lemma SlotFits(cols: Columns, columnIds: seq<string>, widths: map<string, real>, offsets: map<string, real>,
                 ids: seq<string>, c: string, i: nat)
    requires c in columnIds && i < |ids| && NonNegativeWidths(widths)
    requires forall x :: x in ids ==> x in Ids(ColumnEvents(cols, c))
    ensures var w := ColumnWidth(widths, c);
            var off := ColumnOffset(offsets, c);
            Fits(cols, columnIds, widths, offsets, ids[i],
                 Placement(w / (|ids| as real), (i as real) * (w / (|ids| as real)) + off, c))
  {
    var w := ColumnWidth(widths, c);
    assert 0.0 < w by {
      if c in widths && widths[c] != 0.0 {
        assert widths[c] >= 0.0;
      }
    }
    assert ids[i] in ids;
    SlotWithin(i, |ids|, w, ColumnOffset(offsets, c));
  }

  lemma {:induction false} WriteLayoutsKeys(res: Dict<Placement>, ls: seq<ElementLayout>, c: string)
    ensures forall x :: x in Keys(WriteLayouts(res, ls, c)) <==> x in Keys(res) || x in LayoutIds(ls)
  {
    if ls != [] {
      var init := ls[..|ls| - 1];
      var l := ls[|ls| - 1];
      WriteLayoutsKeys(res, init, c);
      SetKeys(WriteLayouts(res, init, c), l.id, Placement(l.width, l.left, c));
      assert LayoutIds(ls) == LayoutIds(init) + [l.id];
    }
  }

  lemma {:induction false} WriteLayoutsFit(cols: Columns, columnIds: seq<string>, widths: map<string, real>,
                                           offsets: map<string, real>, res: Dict<Placement>, ls: seq<ElementLayout>, c: string)
    requires AllFit(cols, columnIds, widths, offsets, res)
    requires forall i :: 0 <= i < |ls| ==> Fits(cols, columnIds, widths, offsets, ls[i].id, Placement(ls[i].width, ls[i].left, c))
    ensures AllFit(cols, columnIds, widths, offsets, WriteLayouts(res, ls, c))
  {
    if ls != [] {
      var init := ls[..|ls| - 1];
      var l := ls[|ls| - 1];
      WriteLayoutsFit(cols, columnIds, widths, offsets, res, init, c);
      var d := WriteLayouts(res, init, c);
      var p := Placement(l.width, l.left, c);
      SetSpec(d, l.id, p);
      forall x | x in Keys(Set(d, l.id, p)) ensures Fits(cols, columnIds, widths, offsets, x, Get(Set(d, l.id, p), x).value) {
        if x != l.id {
          assert Get(Set(d, l.id, p), x) == Get(d, x);
        }
      }
    }
  }

  /** `GroupFor` seeds its group with `id` and takes only ids of the column. */
  lemma GroupForFacts(cols: Columns, c: string, id: string)
    requires id in Ids(ColumnEvents(cols, c))
    ensures id in GroupFor(cols, c, id)
    ensures forall x :: x in GroupFor(cols, c, id) ==> x in Ids(ColumnEvents(cols, c))
    ensures SortedBy(LeftKey(cols), GroupFor(cols, c, id))
  {
    GetOverlappingWithin(cols, id, c);
    var g := GroupFor(cols, c, id);
    match GetOverlapping(cols, id, c)
    case None =>
    case Some(ids) =>
      assert multiset(g) == multiset(ids + [id]);
      assert id in multiset(g);
      forall x | x in g ensures x in Ids(ColumnEvents(cols, c)) {
        assert x in multiset(ids + [id]);
      }
  }

  /**
   * The groups `checkEvents` collects from the records `evs` of column `c` are non-empty,
   * sorted by stored left offset, hold only ids of the column, and between them hold
   * every id of `evs`.
   */
  lemma {:induction false} CheckEventsGroups(cols: Columns, c: string, evs: seq<EventRecord>)
    requires forall e :: e in evs ==> e.id in Ids(ColumnEvents(cols, c))
    ensures forall g :: g in CheckEvents(cols, c, evs) ==>
              g != [] && SortedBy(LeftKey(cols), g) && forall x :: x in g ==> x in Ids(ColumnEvents(cols, c))
    ensures forall e :: e in evs ==> e.id in Flatten(CheckEvents(cols, c, evs))
  {
    if evs != [] {
      var init := evs[..|evs| - 1];
      var e := evs[|evs| - 1];
      assert forall e' :: e' in evs <==> e' in init || e' == e;
      CheckEventsGroups(cols, c, init);
      var acc := CheckEvents(cols, c, init);
      if e.id !in Flatten(acc) {
        GroupForFacts(cols, c, e.id);
        var g := GroupFor(cols, c, e.id);
        assert CheckEvents(cols, c, evs) == acc + [g];
        assert forall g' :: g' in acc + [g] <==> g' in acc || g' == g;
      }
    }
  }

  lemma {:induction false} WriteGroupsKeys(res: Dict<Placement>, groups: seq<seq<string>>, w: real, off: real, c: string)
    ensures forall x :: x in Keys(res) ==> x in Keys(WriteGroups(res, groups, w, off, c))
    ensures forall g, x :: g in groups && x in g ==> x in Keys(WriteGroups(res, groups, w, off, c))
  {
    if groups != [] {
      var init := groups[..|groups| - 1];
      var g := groups[|groups| - 1];
      WriteGroupsKeys(res, init, w, off, c);
      var ls := CalculateElementLayout(g, w, off);
      WriteLayoutsKeys(WriteGroups(res, init, w, off, c), ls, c);
      assert LayoutIds(ls) == g;
      assert forall g' :: g' in groups <==> g' in init || g' == g;
    }
  }

  lemma {:induction false} WriteGroupsFit(cols: Columns, columnIds: seq<string>, widths: map<string, real>,
                                          offsets: map<string, real>, res: Dict<Placement>, groups: seq<seq<string>>, c: string)
    requires c in columnIds && NonNegativeWidths(widths)
    requires AllFit(cols, columnIds, widths, offsets, res)
    requires forall g :: g in groups ==> g != [] && forall x :: x in g ==> x in Ids(ColumnEvents(cols, c))
    ensures AllFit(cols, columnIds, widths, offsets,
                   WriteGroups(res, groups, ColumnWidth(widths, c), ColumnOffset(offsets, c), c))
  {
    if groups != [] {
      var init := groups[..|groups| - 1];
      var g := groups[|groups| - 1];
      assert forall g' :: g' in groups <==> g' in init || g' == g;
      assert g in groups;
      WriteGroupsFit(cols, columnIds, widths, offsets, res, init, c);
      ElementLayoutFits(cols, columnIds, widths, offsets, g, c);
      WriteLayoutsFit(cols, columnIds, widths, offsets,
                      WriteGroups(res, init, ColumnWidth(widths, c), ColumnOffset(offsets, c), c),
                      CalculateElementLayout(g, ColumnWidth(widths, c), ColumnOffset(offsets, c)), c);
    }
  }

  /** One column's pass keeps every earlier entry's key, adds every id of the column, and
      every entry still fits. */
  lemma LayoutColumnFacts(cols: Columns, all: seq<string>, widths: map<string, real>, offsets: map<string, real>,
                          res: Dict<Placement>, c: string)
    requires c in all && NonNegativeWidths(widths)
    requires AllFit(cols, all, widths, offsets, res)
    ensures AllFit(cols, all, widths, offsets, LayoutColumn(res, cols, c, widths, offsets))
    ensures forall x :: x in Keys(res) ==> x in Keys(LayoutColumn(res, cols, c, widths, offsets))
    ensures forall x :: x in Ids(ColumnEvents(cols, c)) ==> x in Keys(LayoutColumn(res, cols, c, widths, offsets))
  {
    match Get(cols, c)
    case None =>
    case Some(evs) =>
      assert ColumnEvents(cols, c) == evs;
      forall e | e in evs ensures e.id in Ids(evs) {
        var i :| 0 <= i < |evs| && evs[i] == e;
        assert Ids(evs)[i] == e.id;
      }
      CheckEventsGroups(cols, c, evs);
      var groups := CheckEvents(cols, c, evs);
      WriteGroupsFit(cols, all, widths, offsets, res, groups, c);
      WriteGroupsKeys(res, groups, ColumnWidth(widths, c), ColumnOffset(offsets, c), c);
      EveryIdGrouped(cols, c, evs, res, ColumnWidth(widths, c), ColumnOffset(offsets, c));
  }

  /** Every id of the column is in some group `checkEvents` collects, so it gets an entry. */
  lemma EveryIdGrouped(cols: Columns, c: string, evs: seq<EventRecord>, res: Dict<Placement>, w: real, off: real)
    requires forall e :: e in evs ==> e.id in Flatten(CheckEvents(cols, c, evs))
    requires forall g, x :: g in CheckEvents(cols, c, evs) && x in g ==> x in Keys(WriteGroups(res, CheckEvents(cols, c, evs), w, off, c))
    ensures forall x :: x in Ids(evs) ==> x in Keys(WriteGroups(res, CheckEvents(cols, c, evs), w, off, c))
  {
    var groups := CheckEvents(cols, c, evs);
    forall x | x in Ids(evs) ensures x in Keys(WriteGroups(res, groups, w, off, c)) {
      var i :| 0 <= i < |evs| && Ids(evs)[i] == x;
      assert evs[i] in evs;
      var g :| g in groups && x in g;
    }
  }

  lemma {:induction false} LayoutColumnsFacts(cols: Columns, all: seq<string>, columnIds: seq<string>,
                                              widths: map<string, real>, offsets: map<string, real>)
    requires forall c :: c in columnIds ==> c in all
    requires NonNegativeWidths(widths)
    ensures AllFit(cols, all, widths, offsets, LayoutColumns(cols, columnIds, widths, offsets))
    ensures forall c, x :: c in columnIds && x in Ids(ColumnEvents(cols, c)) ==>
              x in Keys(LayoutColumns(cols, columnIds, widths, offsets))
  {
    if columnIds != [] {
      var init := columnIds[..|columnIds| - 1];
      var c := columnIds[|columnIds| - 1];
      assert forall c' :: c' in columnIds <==> c' in init || c' == c;
      LayoutColumnsFacts(cols, all, init, widths, offsets);
      LayoutColumnFacts(cols, all, widths, offsets, LayoutColumns(cols, init, widths, offsets), c);
    }
  }

  /**
   * `calculateLayout` places every event of every requested column, and each placement is
   * in a requested column holding that event, with a positive width, inside the column's
   * span `[offset, offset + width]`. With no column list, the requested columns are the
   * keys of `columns` not starting with "_".
   */
  lemma CalculateLayoutSound(cols: Columns, columnIds: Option<seq<string>>,
                             widths: map<string, real>, offsets: map<string, real>)
    requires NonNegativeWidths(widths)
    ensures var ids := columnIds.GetOr(DefaultColumnIds(cols));
            var r := CalculateLayout(cols, columnIds, widths, offsets);
            && AllFit(cols, ids, widths, offsets, r)
            && (forall c, x :: c in ids && x in Ids(ColumnEvents(cols, c)) ==> x in Keys(r))
    ensures columnIds.None? ==>
              forall x :: x in Keys(CalculateLayout(cols, columnIds, widths, offsets)) ==>
                var c := Get(CalculateLayout(cols, columnIds, widths, offsets), x).value.columnId;
                c in Keys(cols) && !("_" <= c)
  {
    var ids := columnIds.GetOr(DefaultColumnIds(cols));
    LayoutColumnsFacts(cols, ids, ids, widths, offsets);
  }

  /** Every group `calculateLayout` lays out for column `c` is ordered by stored left offset. */
  lemma CheckEventsSorted(cols: Columns, c: string)
    ensures forall g :: g in CheckEvents(cols, c, ColumnEvents(cols, c)) ==> SortedBy(LeftKey(cols), g)
    ensures forall g :: g in CheckEvents(cols, c, ColumnEvents(cols, c)) ==>
              exists e :: e in ColumnEvents(cols, c) && multiset(g) == multiset(Candidates(cols, c, e.id)) &&
                forall v :: KeyFilter(LeftKey(cols), g, v) == KeyFilter(LeftKey(cols), Candidates(cols, c, e.id), v)
  {
    var evs := ColumnEvents(cols, c);
    forall e | e in evs ensures e.id in Ids(evs) {
      var i :| 0 <= i < |evs| && evs[i] == e;
      assert Ids(evs)[i] == e.id;
    }
    CheckEventsGroups(cols, c, evs);
    CheckEventsStable(cols, c, evs);
  }

  /** Every group of the pass is the stable sort of some record's candidates. */
  lemma CheckEventsStable(cols: Columns, c: string, evs: seq<EventRecord>)
    ensures forall g :: g in CheckEvents(cols, c, evs) ==>
              exists e :: e in evs && multiset(g) == multiset(Candidates(cols, c, e.id)) &&
                forall v :: KeyFilter(LeftKey(cols), g, v) == KeyFilter(LeftKey(cols), Candidates(cols, c, e.id), v)
  {
    CheckEventsSeeds(cols, c, evs);
    forall g | g in CheckEvents(cols, c, evs)
      ensures exists e :: e in evs && multiset(g) == multiset(Candidates(cols, c, e.id)) &&
                forall v :: KeyFilter(LeftKey(cols), g, v) == KeyFilter(LeftKey(cols), Candidates(cols, c, e.id), v)
    {
      var e :| e in evs && g == GroupFor(cols, c, e.id);
      GroupForStable(cols, c, e.id);
    }
  }

  // ---------------------------------------------------------------------------
  // An event that overlaps nothing

  /** Writing layouts for other ids leaves the entry of `x` alone. */
  lemma {:induction false} WriteLayoutsOther(res: Dict<Placement>, ls: seq<ElementLayout>, c: string, x: string)
    requires x !in LayoutIds(ls)
    ensures Get(WriteLayouts(res, ls, c), x) == Get(res, x)
  {
    if ls != [] {
      var init := ls[..|ls| - 1];
      var l := ls[|ls| - 1];
      assert LayoutIds(ls) == LayoutIds(init) + [l.id];
      WriteLayoutsOther(res, init, c, x);
      SetGetOther(WriteLayouts(res, init, c), l.id, Placement(l.width, l.left, c), x);
    }
  }

  /** Every group `checkEvents` collects is the group seeded by one of the records. */
  lemma {:induction false} CheckEventsSeeds(cols: Columns, c: string, evs: seq<EventRecord>)
    ensures forall g :: g in CheckEvents(cols, c, evs) ==> exists e :: e in evs && g == GroupFor(cols, c, e.id)
  {
    if evs != [] {
      var init := evs[..|evs| - 1];
      var e := evs[|evs| - 1];
      CheckEventsSeeds(cols, c, init);
      assert forall e' :: e' in init ==> e' in evs;
      assert e in evs;
    }
  }

  /** A one-id group is laid out over the whole column: width `w`, starting at `off`. */
  lemma SingleLayout(x: string, w: real, off: real)
    ensures CalculateElementLayout([x], w, off) == [ElementLayout(x, w, off)]
  {
    ElementLayoutAt([x], w, off, 0);
  }

  /**
   * When the only group holding `x` is `[x]`, and it is among the groups, writing the groups
   * gives `x` the whole width `w` at offset `off`.
   */
  lemma {:induction false} WriteGroupsLone(res: Dict<Placement>, groups: seq<seq<string>>, w: real, off: real, c: string, x: string)
    requires [x] in groups
    requires forall g :: g in groups && x in g ==> g == [x]
    ensures Get(WriteGroups(res, groups, w, off, c), x) == Some(Placement(w, off, c))
  {
    var init := groups[..|groups| - 1];
    var g := groups[|groups| - 1];
    var prev := WriteGroups(res, init, w, off, c);
    assert groups == init + [g];
    if g == [x] {
      SingleLayout(x, w, off);
      var ls := [ElementLayout(x, w, off)];
      assert ls[..0] == [];
      assert WriteLayouts(prev, ls, c) == Set(prev, x, Placement(w, off, c));
      SetGet(prev, x, Placement(w, off, c));
    } else {
      assert x !in g;
      assert [x] in init;
      WriteGroupsLone(res, init, w, off, c, x);
      var ls := CalculateElementLayout(g, w, off);
      assert LayoutIds(ls) == g;
      WriteLayoutsOther(prev, ls, c, x);
    }
  }

  /**
   * With unique ids in the column, an event that overlaps nothing is in the group of no
   * other event.
   */
  lemma LoneNotInOtherGroup(cols: Columns, c: string, x: string, y: string)
    requires UniqueIds(ColumnEvents(cols, c))
    requires x in Ids(ColumnEvents(cols, c)) && GetOverlapping(cols, x, c).None?
    requires y != x
    ensures x !in GroupFor(cols, c, y)
  {
    var evs := ColumnEvents(cols, c);
    match GetOverlapping(cols, y, c)
    case None =>
    case Some(ids) =>
      var ty := FindRecord(evs, y).value;
      var rx := FindRecord(evs, x).value;
      GetOverlappingMembers(cols, x, c, rx, y);
      OverlapsSymmetric(ty, rx);
      assert !Overlaps(ty, rx);
      forall e | e in evs && e.id == x ensures e == rx {
        var i :| 0 <= i < |evs| && evs[i] == e;
        var j :| 0 <= j < |evs| && evs[j] == rx;
      }
      GetOverlappingMembers(cols, y, c, ty, x);
      assert x !in ids + [y];
      assert x !in multiset(GroupFor(cols, c, y));
  }

  /** The groups of a column with unique ids: an event that overlaps nothing forms the
      group `[x]` and is in no other. */
  lemma CheckEventsLone(cols: Columns, c: string, x: string)
    requires UniqueIds(ColumnEvents(cols, c))
    requires x in Ids(ColumnEvents(cols, c)) && GetOverlapping(cols, x, c).None?
    ensures [x] in CheckEvents(cols, c, ColumnEvents(cols, c))
    ensures forall g :: g in CheckEvents(cols, c, ColumnEvents(cols, c)) && x in g ==> g == [x]
  {
    var evs := ColumnEvents(cols, c);
    IdsOfRecords(evs);
    CheckEventsGroups(cols, c, evs);
    LoneOnlyGroup(cols, c, x);
    var i :| 0 <= i < |evs| && Ids(evs)[i] == x;
    assert evs[i] in evs;
    var g :| g in CheckEvents(cols, c, evs) && x in g;
  }

  /** Every record's id is among the list's ids. */
  lemma IdsOfRecords(evs: seq<EventRecord>)
    ensures forall e :: e in evs ==> e.id in Ids(evs)
  {
    forall e | e in evs ensures e.id in Ids(evs) {
      var i :| 0 <= i < |evs| && evs[i] == e;
      assert Ids(evs)[i] == e.id;
    }
  }

  /** With unique ids, the only group that can hold an event overlapping nothing is `[x]`. */
  lemma LoneOnlyGroup(cols: Columns, c: string, x: string)
    requires UniqueIds(ColumnEvents(cols, c))
    requires x in Ids(ColumnEvents(cols, c)) && GetOverlapping(cols, x, c).None?
    ensures forall g :: g in CheckEvents(cols, c, ColumnEvents(cols, c)) && x in g ==> g == [x]
  {
    var evs := ColumnEvents(cols, c);
    CheckEventsSeeds(cols, c, evs);
    forall g | g in CheckEvents(cols, c, evs) && x in g ensures g == [x] {
      var e :| e in evs && g == GroupFor(cols, c, e.id);
      if e.id != x {
        LoneNotInOtherGroup(cols, c, x, e.id);
      }
    }
  }

  /**
   * In the pass over a registered column whose ids are unique, an event that overlaps
   * nothing is placed over the whole column: the column's width (130 by default) at the
   * column's offset (0 by default).
   */
  lemma LoneEventFullWidth(res: Dict<Placement>, cols: Columns, c: string,
                           widths: map<string, real>, offsets: map<string, real>, x: string)
    requires c in Keys(cols)
    requires UniqueIds(ColumnEvents(cols, c))
    requires x in Ids(ColumnEvents(cols, c)) && GetOverlapping(cols, x, c).None?
    ensures Get(LayoutColumn(res, cols, c, widths, offsets), x) == Some(Placement(ColumnWidth(widths, c), ColumnOffset(offsets, c), c))
  {
    CheckEventsLone(cols, c, x);
    WriteGroupsLone(res, CheckEvents(cols, c, ColumnEvents(cols, c)), ColumnWidth(widths, c), ColumnOffset(offsets, c), c, x);
  }
}
