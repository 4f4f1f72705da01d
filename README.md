# weekly-calendar: the column observer and the pointer geometry of a dragged event

This project models, in Dafny, the engine behind the weekly calendar's event columns and
the arithmetic the draggable event component performs with the pointer, and proves what
they guarantee.

**The column observer** (`ColumnObserver` in src/engine/event-manager.js) owns two
dictionaries that it updates in place:
- `columns` maps a column id to the ordered list of event records placed in it. Each
  record holds the id and the measured top, bottom, width, height and left.
- `overlappedEvents` maps a column id to that column's overlap groups. Each group maps a
  random three-character key to a list of event ids.

On top of these the observer does four things:
- It registers and removes columns.
- It places an event in one column. The event is first removed from every list whose key
  starts with "column", then appended to the target list. If it overlaps other events
  there, it forms a group with them.
- It prunes the groups when an event leaves.
- It lays out every column. Each event is grouped with the events its record overlaps
  (strict vertical intersection), and each group shares the column's width equally.

**The draggable event** (src/DraggableEvent.jsx) contributes four pure pieces:
- which border band a press falls in;
- how a resize moves the edges under the 20-pixel minimum height;
- when a press has moved far enough to count as a drag;
- which column a dragged event hovers over.

## Layout of the project

| file | module | contents |
|---|---|---|
| `wrappers.dfy` | `Wrappers` | `Option` |
| `dict.dfy` | `Dict` | JavaScript objects as ordered association lists: keys enumerate in insertion order, assigning to a present key keeps its place, assigning to an absent key appends it, `delete` removes it |
| `geometry.dfy` | `Geometry` | the rectangle `getBoundingClientRect` returns |
| `column_queries.dfy` | `ColumnQueries` | the read-only queries: `find`, `_getOverlappingEventsFromColumn`, `getEventById`, `getColIdEvIsLoc`, `_doEventsOverlap` |
| `overlap_groups.dfy` | `OverlapGroups` | `overlappedEvents` as a value: pruning (`_removeFromOverlapped`), replacing sharing groups (`_addToOverlapped`), the key space of `_get3CharId`, `getAllOverlappedGroups` |
| `column_store.dfy` | `ColumnStore` | the observer's state as a value, and the effect of `initializeColumns`, `removeEventFromColumns` and `addEventToColumn` as functions of the old state, with the test file's scenario |
| `layout.dfy` | `Layout` | `_calculateElementLayout` and `calculateLayout` as functions, with what they guarantee |
| `event_manager.dfy` | `EventManager` | class `ColumnObserver`: the two dictionaries as fields, and every updating operation as a method whose `forEach` loops are proved against the functions above |
| `draggable_event.dfy` | `DraggableEvent` | border zones, resize geometry, drag threshold, hovered column |

Each method of `ColumnObserver` states its new state through a specification function of
the old state, e.g. `State() == RemoveEverywhere(old(State()), id)`. The lemmas beside
that function state what the source promises about it.

`removeEventFromColumns` calls `removeFromOverlapped` once for every event column that held
the event. The model prunes once, because `PruneColumnsIdempotent` shows that a second
pruning changes nothing.

`_addToOverlapped` does not merge groups. It deletes every group of the column that
shares an id with the new list, then stores the new list under a fresh key. The model
follows the code, so a member of a deleted group that is not in the new list leaves every
group. `ReplacedGroupDropsMember` shows this on three events.

## Model

| member | source | states |
|---|---|---|
| Dict.SetSpec | src/engine/event-manager.js:19 | an object assignment reads back, leaves every other key alone, keeps a present key in place and appends an absent one |
| Dict.DeleteSpec | src/engine/event-manager.js:23 | `delete` removes exactly that key and leaves every other key's value alone |
| Dict.DeleteWellFormed | src/engine/event-manager.js:23 | deleting keeps every key listed once |
| Dict.SetWellFormed | src/engine/event-manager.js:19 | assigning keeps every key listed once |
| EventManager.ColumnObserver.constructor | src/engine/event-manager.js:13-16 | both dictionaries start empty |
| EventManager.ColumnObserver.AddColumn | src/engine/event-manager.js:18-20 | `columns` is the old dictionary with the column set to an empty list; groups unchanged; keys stay distinct |
| EventManager.ColumnObserver.RemoveColumn | src/engine/event-manager.js:22-24 | `columns` is the old dictionary without the column; groups unchanged |
| EventManager.ColumnObserver.InitializeColumns | src/engine/event-manager.js:285-287 | the loop registers every listed id (`RegisterColumns`); groups unchanged |
| ColumnStore.RegisterColumnsGet | src/engine/event-manager.js:285-287 | every listed id maps to an empty list; every other column keeps its list |
| ColumnStore.RegisterColumnsKeys | src/engine/event-manager.js:285-287 | the keys afterwards are exactly the old keys and the listed ids |
| ColumnStore.RegisterColumnsWellFormed | src/engine/event-manager.js:285-287 | registering keeps every key listed once |
| ColumnStore.RegisterTwoColumns | src/engine/event-manager.test.js:10-22 | two distinct ids on an empty observer give exactly two keys, each with an empty list |
| ColumnQueries.Ids | src/engine/event-manager.js:68 | the ids of a list of records, position by position |
| ColumnQueries.FindRecord | src/engine/event-manager.js:120 | `find` gives nothing exactly when no record has the id; what it gives is a record of the list with that id |
| ColumnQueries.FindRecordFirst | src/engine/event-manager.js:120 | `find` gives the first record carrying the id |
| ColumnQueries.FindRecordUnique | src/engine/event-manager.js:120 | when an id occurs once, that record is what `find` gives |
| ColumnQueries.FindRecordAppend | src/engine/event-manager.js:194-198 | searching a concatenation searches the first part, then the second |
| ColumnQueries.Concat | src/engine/event-manager.js:195-196 | a record is in `flat()` exactly when it is in one of the lists |
| ColumnQueries.OverlapsSymmetric | src/engine/event-manager.js:129-131 | the strict vertical intersection is symmetric |
| ColumnQueries.GetOverlapping | src/engine/event-manager.js:118-140 | undefined when the id is not in the column; otherwise a non-empty list that never contains the id itself |
| ColumnQueries.OverlappingIdsAppend | src/engine/event-manager.js:124-136 | the search over a column's records distributes over concatenation, so the ids come out in the records' order |
| ColumnQueries.GetOverlappingOrder | src/engine/event-manager.js:118-140 | the reported list is exactly the overlapping ids in the column's record order, and undefined exactly when there are none |
| ColumnQueries.GetOverlappingMembers | src/engine/event-manager.js:118-140 | an id is reported exactly when it is another id of the column whose record strictly intersects the first record of the target; nothing is reported when none does |
| ColumnQueries.GetOverlappingWithin | src/engine/event-manager.js:126-136 | every reported id is an id of the column |
| ColumnQueries.GetColIdEvIsLoc | src/engine/event-manager.js:200-208 | nothing exactly when no column holds the id; otherwise a registered column key |
| ColumnQueries.GetColIdEvIsLocFirst | src/engine/event-manager.js:200-208 | the column found is the first, in key order, that holds the id |
| ColumnQueries.LocatedColumnHolds | src/engine/event-manager.js:200-208 | the column found does hold the id |
| ColumnQueries.EventByIdInLocatedColumn | src/engine/event-manager.js:194-208 | `getEventById` finds the first record of the id in the column `getColIdEvIsLoc` names, and nothing when no column holds it |
| ColumnQueries.LocatedRecord | src/engine/event-manager.js:194-208 | for a located event, `getEventById` is the `find` in its column |
| ColumnQueries.DoEventsOverlapSymmetric | src/engine/event-manager.js:221-231 | `_doEventsOverlap` is symmetric in its two ids |
| ColumnQueries.DoEventsOverlapMatchesColumn | src/engine/event-manager.js:221-231 | for two distinct events of one column with unique ids, `_doEventsOverlap` agrees with `_getOverlappingEventsFromColumn` |
| OverlapGroups.Without | src/engine/event-manager.js:103 | the filter keeps exactly the ids other than `e`, and never lengthens the list |
| OverlapGroups.WithoutAppend | src/engine/event-manager.js:103 | the filter distributes over concatenation, so the kept ids keep their order |
| OverlapGroups.PruneGroupsGet | src/engine/event-manager.js:102-107 | group by group: `e` leaves the group, and the group is deleted once at most one id is left; keys stay distinct |
| OverlapGroups.PruneColumnsGet | src/engine/event-manager.js:99-111 | column by column: the groups are pruned, and a column left without groups loses its entry |
| OverlapGroups.PruneGroupsKeys | src/engine/event-manager.js:102-107 | pruning never invents a group key |
| OverlapGroups.PruneColumnsKeys | src/engine/event-manager.js:99-111 | pruning never invents a column key |
| OverlapGroups.PruneColumnsWellFormed | src/engine/event-manager.js:99-111 | pruning keeps every key listed once, in the columns and in their groups |
| OverlapGroups.RemovedFromEveryGroup | src/engine/event-manager.js:99-111 | afterwards `e` is in no group, every group has at least two ids, and no column is left without groups |
| OverlapGroups.PruneColumnsIdempotent | src/engine/event-manager.js:62-77 | pruning the same event twice equals pruning it once |
| OverlapGroups.WithoutIdempotent | src/engine/event-manager.js:103 | filtering an id out twice equals filtering it once |
| OverlapGroups.PruneGroupsIdempotent | src/engine/event-manager.js:102-107 | pruning a column's groups twice equals pruning them once |
| EventManager.ColumnObserver.RemoveFromOverlapped | src/engine/event-manager.js:99-112 | the nested loops leave `PruneColumns` of the old groups; columns unchanged |
| EventManager.ColumnObserver.PruneColumnGroups | src/engine/event-manager.js:100-111 | the callback for one column prunes its groups in place and deletes the column when none is left |
| EventManager.ColumnObserver.PruneGroup | src/engine/event-manager.js:102-107 | the callback for one group extends the pruned prefix of the column by that group |
| OverlapGroups.SharingKeys | src/engine/event-manager.js:151-156 | a key is collected exactly when its group shares an id with the new list |
| EventManager.CollectSharing | src/engine/event-manager.js:148-156 | the loop collects `SharingKeys`, in order |
| OverlapGroups.DeleteAllGet | src/engine/event-manager.js:159-161 | after the deletions a listed key is gone, every other group is unchanged, and keys stay distinct |
| EventManager.ColumnObserver.DeleteGroups | src/engine/event-manager.js:159-161 | the loop deletes every listed group of the column |
| OverlapGroups.KeptGroupsGet | src/engine/event-manager.js:148-161 | a group survives exactly when it shares no id with the new list, and keeps its ids |
| OverlapGroups.AddGroupSpec | src/engine/event-manager.js:142-166 | the new list is the column's last group, under a key no other column uses; the other groups of the column are exactly the old ones sharing no id with it; other columns are unchanged; keys stay distinct |
| EventManager.ColumnObserver.AddToOverlapped | src/engine/event-manager.js:142-166 | the new groups are `AddGroup` of the old ones for some key unused once the sharing groups are gone; columns unchanged |
| OverlapGroups.GroupKeysSpec | src/engine/event-manager.js:170-175 | a key is in `existingIds` exactly when some column has a group under it |
| OverlapGroups.KeyCharInAlphabet | src/engine/event-manager.js:169-181 | character `i` is the `i`-th letter of `chars` |
| OverlapGroups.KeyOfInjective | src/engine/event-manager.js:180-182 | distinct base-36 draws give distinct keys |
| OverlapGroups.KeysBelowCount | src/engine/event-manager.js:177-183 | there are exactly 36^3 keys of three characters |
| OverlapGroups.FreshKeyExists | src/engine/event-manager.js:177-183 | while fewer than 36^3 keys are in use, some draw is fresh, so the retry loop can end |
| OverlapGroups.GroupKeysPrune | src/engine/event-manager.js:99-111 | pruning only ever removes group keys |
| OverlapGroups.GroupKeysStrip | src/engine/event-manager.js:158-161 | deleting the sharing groups only ever removes group keys |
| EventManager.ColumnObserver.Get3CharId | src/engine/event-manager.js:168-186 | the key has three characters of `chars` and is used by no group of any column |
| OverlapGroups.AllGroups | src/engine/event-manager.js:188-192 | `getAllOverlappedGroups` lists every group of every column, one entry per group |
| OverlapGroups.AllGroupsMember | src/engine/event-manager.js:188-192 | a list is in the result exactly when it is the value of some group of some column |
| OverlapGroups.AllGroupsAppend | src/engine/event-manager.js:188-192 | the result for two runs of columns is the first run's groups followed by the second's |
| OverlapGroups.AllGroupsSingle | src/engine/event-manager.js:188-192 | for one column, the result is that column's group values in their order |
| ColumnStore.RemoveRecords | src/engine/event-manager.js:73 | the filter keeps exactly the records whose id differs |
| ColumnStore.RemoveRecordsAppend | src/engine/event-manager.js:73 | the filter keeps the records' order |
| ColumnStore.RemoveRecordsIds | src/engine/event-manager.js:53-55 | on ids, the filter is the id filter |
| ColumnStore.RemoveRecordsAbsent | src/engine/event-manager.js:66-74 | filtering out an id that is not there changes nothing |
| ColumnStore.HoldsExactly | src/engine/event-manager.js:63-71 | the groups are pruned exactly when some "column" list holds the event |
| ColumnStore.StripEventGet | src/engine/event-manager.js:62-77 | the keys stay the same; each "column" list that held the event is filtered; every other list is unchanged |
| ColumnStore.StripAbsent | src/engine/event-manager.js:62-77 | removing an event that no column lists changes nothing |
| ColumnStore.RemoveEverywhereSpec | src/engine/event-manager.js:62-77 | afterwards no "column" list holds the event; other lists are untouched; if some list held it, no group holds it; otherwise the groups are unchanged |
| EventManager.ColumnObserver.RemoveEventFromColumns | src/engine/event-manager.js:62-77 | the loop leaves `RemoveEverywhere` of the old state; keys stay distinct |
| EventManager.ColumnObserver.RemoveFromColumnAt | src/engine/event-manager.js:64-76 | the filter and callback for one key extend the stripped prefix by that column |
| EventManager.ColumnObserver.RemoveEventFromColumn | src/engine/event-manager.js:51-59 | fails, changing nothing, exactly when the column is not registered; otherwise the column's list is filtered and the groups are pruned |
| ColumnStore.AddEventPlacement | src/engine/event-manager.js:26-37 | in a registered "column" column, the list becomes the old list without the event, in order, followed by its record. The event occurs there once, last, and in no other "column" list. Other lists and all keys are unchanged |
| ColumnStore.AddEventMissingColumn | src/engine/event-manager.js:26-29 | an unregistered target leaves the state as the removal left it |
| ColumnStore.AddEventGroup | src/engine/event-manager.js:39-48 | a group is recorded exactly when the new record strictly intersects another record of the column; its other ids are exactly those records' ids |
| ColumnStore.AddNewEvent | src/engine/event-manager.js:26-48 | for an event no column lists, the record is appended and the group of its overlaps is added |
| ColumnStore.AddEventUnplaced | src/engine/event-manager.js:26-29 | when the target has no entry, nothing is placed and no group is formed |
| ColumnStore.AddEventUngrouped | src/engine/event-manager.js:29-44 | when the placed event overlaps nothing, no group is formed |
| ColumnStore.AddEventGrouped | src/engine/event-manager.js:40-48 | when the placed event overlaps `ids`, the group `ids + [id]` is added |
| EventManager.ColumnObserver.AddEventToColumn | src/engine/event-manager.js:26-49 | fails exactly when the column is not registered; the new state is `AddEvent` of the old one for a key `_get3CharId` may draw; keys stay distinct |
| ColumnStore.ChainedEventsFormOneGroup | src/engine/event-manager.test.js:26-79 | three chained events added to a fresh column give three records and the single group [event1, event2, event3], whatever keys are drawn |
| ColumnStore.ReplacedGroupDropsMember | src/engine/event-manager.js:142-166 | a third event overlapping only the second replaces the group by [event2, event3], although event1 still overlaps event2 |
| Layout.CalculateElementLayout | src/engine/event-manager.js:210-219 | one entry per id, in the same order |
| Layout.ElementLayoutAt | src/engine/event-manager.js:210-219 | entry `i` has width `w/n` and left `i*w/n + off` |
| Layout.ElementLayoutTiles | src/engine/event-manager.js:210-219 | the entries tile the column: equal widths, the first at the offset, each starting where the previous ends, the last ending at `off + w` |
| Layout.SingleLayout | src/engine/event-manager.js:210-219 | a one-id group spans the whole column |
| Layout.InsertBy | src/engine/event-manager.js:256-258 | inserting adds exactly one occurrence of the id |
| Layout.InsertBySorted | src/engine/event-manager.js:256-258 | inserting into a list sorted by stored left keeps it sorted |
| Layout.SortBy | src/engine/event-manager.js:256-258 | the sort is a permutation of its input and ordered by ascending stored left |
| Layout.InsertByStable | src/engine/event-manager.js:256-258 | inserting into a sorted list puts the new id after every id with the same key |
| Layout.SortByStable | src/engine/event-manager.js:256-258 | the sort is stable: for every key value, the ids with that key come out in their input order |
| Layout.GroupForStable | src/engine/event-manager.js:254-258 | a group is `overlaps.concat(event.id)` rearranged, ordered by stored left, with ids of equal left in their original order |
| Layout.Flatten | src/engine/event-manager.js:247 | an id is in `flat()` exactly when it is in one of the groups |
| Layout.DefaultColumnIds | src/engine/event-manager.js:234 | the default ids are exactly the column keys not starting with "_" |
| Layout.CheckEventsGroups | src/engine/event-manager.js:245-261 | the collected groups are non-empty, sorted by stored left, hold only ids of the column, and together hold every id of the column |
| Layout.CheckEventsSorted | src/engine/event-manager.js:254-259 | every group laid out is ordered by ascending stored left, and is some record's `overlaps.concat(event.id)` rearranged stably |
| Layout.CheckEventsStable | src/engine/event-manager.js:248-259 | every group of the pass is the stable sort of some record's candidate list |
| Layout.CheckEventsSeeds | src/engine/event-manager.js:246-261 | every collected group is the one seeded by some record of the column |
| Layout.CheckEventsLone | src/engine/event-manager.js:246-261 | with unique ids, an event that overlaps nothing forms the group `[x]` and is in no other group |
| Layout.LoneNotInOtherGroup | src/engine/event-manager.js:249-259 | with unique ids, an event that overlaps nothing is in no other event's group |
| Layout.WriteLayoutsKeys | src/engine/event-manager.js:272-278 | the result's keys are the old ones and the laid-out ids |
| Layout.WriteLayoutsOther | src/engine/event-manager.js:272-278 | writing other ids leaves an entry alone |
| Layout.WriteGroupsLone | src/engine/event-manager.js:263-279 | if `[x]` is the only group holding `x`, then `x` gets the whole width at the offset |
| Layout.LayoutColumnFacts | src/engine/event-manager.js:240-280 | one column's pass keeps earlier keys, gives every id of the column an entry, and every entry still fits |
| Layout.LoneEventFullWidth | src/engine/event-manager.js:240-280 | in a column with unique ids, an event overlapping nothing gets the column's width (default 130) at its offset (default 0), tagged with the column |
| Layout.CalculateLayoutSound | src/engine/event-manager.js:233-283 | every event of every requested column gets an entry. Each entry is tagged with a requested column that holds the event, has a positive width and lies within that column's span. With the default ids, no entry is tagged with a "_" column |
| EventManager.WriteElementLayouts | src/engine/event-manager.js:272-278 | the loop writes `WriteLayouts` |
| EventManager.WriteGroupLayouts | src/engine/event-manager.js:263-279 | the loop writes `WriteGroups` |
| EventManager.ColumnObserver.CheckEventsOf | src/engine/event-manager.js:245-261 | the loop collects `CheckEvents` |
| EventManager.ColumnObserver.LayoutColumnOf | src/engine/event-manager.js:240-280 | the callback for one column computes `LayoutColumn`; unknown columns are skipped |
| EventManager.ColumnObserver.CalculateLayout | src/engine/event-manager.js:233-283 | the loop over the column ids computes `CalculateLayout` |
| DraggableEvent.BorderZoneBands | src/DraggableEvent.jsx:72-81 | top exactly when `mouseY <= 8`; bottom exactly when `8 < mouseY` and `mouseY >= height - 8`; neither exactly in between; top wins when both bands hold |
| DraggableEvent.BorderZoneUnmounted | src/DraggableEvent.jsx:72-73 | no zone while the element is not mounted |
| DraggableEvent.ResizeHeight | src/DraggableEvent.jsx:120-136 | the new height is the proposed height raised to 20, so never below 20 |
| DraggableEvent.ResizeTopKeepsBottom | src/DraggableEvent.jsx:125-140 | a top resize keeps the bottom edge fixed, clamped or not; clamped, the top is the old bottom minus 20; the engine is told the new top |
| DraggableEvent.ResizeBottomKeepsTop | src/DraggableEvent.jsx:122-150 | a bottom resize never moves the top; unclamped, the height grows by `deltaY`; the engine is told `top + height + deltaY` whatever the clamp does |
| DraggableEvent.ResizeWithoutMode | src/DraggableEvent.jsx:120-139 | with no resize mode, the top stays and the engine is not called |
| DraggableEvent.ThresholdOnSquares | src/DraggableEvent.jsx:114-118 | `sqrt(dx²+dy²) > 5` exactly when `dx²+dy² > 25` |
| DraggableEvent.HasMovedExactly | src/DraggableEvent.jsx:101-118 | after mouse-down clears the flag, it is set exactly when some move went beyond the threshold; no move clears it |
| DraggableEvent.DetectHoveredColumn | src/DraggableEvent.jsx:53-70 | the first column, in list order, whose `[left, right]` holds the dragged centre x and whose `[top, bottom]` holds the dragged top and bottom; none exactly when no column does |

## Left out

- Dict.SetSpec: a key that is not yet present is appended, so every dictionary here
  enumerates in insertion order. JavaScript enumerates integer-like keys ("123") first, in
  ascending numeric order, and only then the other keys in insertion order. Lookups are the
  same either way; only the enumeration order differs, and only for integer-like keys.
- OverlapGroups.AddGroupSpec: the new group's key is last in the column's groups.
  `_get3CharId` draws from `chars`, which holds digits, so it can return an integer-like
  key: "100" to "999", 900 of the 46656 keys ("012" is not integer-like). For such a key the
  source enumerates the new group ahead of the column's other groups, so the stated position
  differs from the source.
- OverlapGroups.AllGroups: the groups come in the model's insertion order. In a column holding
  integer-like group keys, the source's `flat()` lists those groups first, in numeric order.
  Which groups are listed and how many (`AllGroupsMember`, `AllGroups`) do not depend on this.
- The object `calculateLayout` returns is keyed by event id. For an integer-like event id the
  source enumerates that entry first, while the model keeps it in write order. The entries
  themselves are the same.
- The `event` DOM element each record also stores (src/engine/event-manager.js:36) is not
  modelled. `addEventToColumn` takes the event id and the rectangle `getBoundingClientRect`
  would return.
- `Math.random` in `_get3CharId` is modelled as a choice among the keys of three characters
  of `chars` that no group uses. Its precondition `Room()` (fewer than 36^3 keys in use) is
  what lets the retry loop end. The source would loop forever with the key space full.
- EventManager.ColumnObserver.AddEventToColumn: where the source throws a `TypeError` because
  the target column is not registered, the model returns `ok == false`. The state is then
  the one the removal from every column left, as in the source.
- EventManager.ColumnObserver.RemoveEventFromColumn: where the source throws because the
  column is not registered, the model returns `ok == false` and changes nothing.
- `calculateLayout`'s comparator reads `getEventById(id).left`, which throws for an id with no
  record. `LeftOf` uses 0 there instead. Every sorted id is an id of the column
  (`Layout.GroupForFacts`), so that default is not reached for a column's own records.
- Layout.CalculateLayoutSound requires that no explicitly given column width is negative.
  With a negative width the source would place events outside the column.
- Layout.LoneEventFullWidth is stated for one column's pass. If a later requested column
  lists the same event id, the source overwrites the entry, and the model does too.
- Layout.CalculateLayoutSound does not state that each group's entries are tiled in the
  order of stored left. That order is stated separately by Layout.CheckEventsSorted and
  Layout.ElementLayoutTiles.
- JavaScript truthiness: `columnWidths[c] || 130` treats 0 (and a missing entry) as absent;
  `NaN`, `undefined` and non-number values are not modelled.
- Pixel values are `real`. IEEE floating-point rounding, `Math.sqrt` and `NaN` are not
  modelled. The drag threshold is compared on squares, and `ThresholdOnSquares` shows this
  agrees with the square root.
- The public wrappers `getOverlappingEventsFromColumn`, `addToOverlapped`,
  `removeFromOverlapped`, `get3CharId` and `calculateElementLayout`
  (src/engine/event-manager.js:80-97, 290-292) only forward to the private methods modelled
  here. `getColumnEvents` (114-116) is a plain read of `columns`. `COLORS` is a constant.
- `detectHoveredColumn` returns the index of the column found, not the DOM element.
  `detectBorderZone` takes the press's `clientY` and the element's rectangle, `None` while the
  element is not mounted.
- The rest of src/DraggableEvent.jsx is React state, DOM listeners and styling, and is not
  part of this model. So are calls into engine methods that the engine does not define
  (`updateEventTop`, `updateEventBottom`, `registerEvent`, …): the resize model records which
  call would be made and with which edge (`EngineCall`). No time↔pixel mapping is defined,
  so none is modelled.
