/**
 * The overlap-group bookkeeping of the column observer (src/engine/event-manager.js):
 * `overlappedEvents` maps a column id to that column's groups, and a group id (a random
 * three-character key) to the ids of the events in the group.
 */
module OverlapGroups {
  import opened Wrappers
  import opened Dict

  type Groups = Dict<seq<string>>
  type Overlapped = Dict<Groups>

  ghost predicate WellFormedOverlapped(ov: Overlapped) {
    WellFormed(ov) && forall i :: 0 <= i < |ov| ==> WellFormed(ov[i].val)
  }

  /** The groups of column `c`, empty when the column has no entry. */
  function GroupsOf(ov: Overlapped, c: string): Groups {
    Get(ov, c).GetOr([])
  }

  // ---------------------------------------------------------------------------
  // _removeFromOverlapped

  /** `ids.filter(id => id !== e)`. */
  function Without(ids: seq<string>, e: string): (r: seq<string>)
    ensures forall x :: x in r <==> x in ids && x != e
    ensures |r| <= |ids|
  {
    if ids == [] then []
    else (if ids[0] != e then [ids[0]] else []) + Without(ids[1..], e)
  }

  /** The filter keeps the ids' order: it distributes over concatenation. */
  lemma {:induction false} WithoutAppend(a: seq<string>, b: seq<string>, e: string)
    ensures Without(a + b, e) == Without(a, e) + Without(b, e)
  {
    if a == [] {
      assert a + b == b;
    } else {
      assert (a + b)[0] == a[0] && (a + b)[1..] == a[1..] + b;
      WithoutAppend(a[1..], b, e);
    }
  }

  /** What becomes of one group: `e` leaves it, and it is dropped once at most one id is left. */
  function PrunedGroup(g: Option<seq<string>>, e: string): Option<seq<string>> {
    match g
    case None => None
    case Some(ids) => var w := Without(ids, e); if |w| <= 1 then None else Some(w)
  }

  /** The inner loop of `_removeFromOverlapped`, over the groups of one column. */
  function PruneGroups(gs: Groups, e: string): Groups
  {
    if gs == [] then []
    else
      var w := Without(gs[0].val, e);
      (if |w| <= 1 then [] else [Entry(gs[0].key, w)]) + PruneGroups(gs[1..], e)
  }

  /** Pruning never invents a group key. */
  lemma {:induction false} PruneGroupsKeys(gs: Groups, e: string)
    ensures forall k :: k in Keys(PruneGroups(gs, e)) ==> k in Keys(gs)
  {
    if gs != [] {
      PruneGroupsKeys(gs[1..], e);
      var w := Without(gs[0].val, e);
      assert Keys(gs) == [gs[0].key] + Keys(gs[1..]);
      KeysAppend(if |w| <= 1 then [] else [Entry(gs[0].key, w)], PruneGroups(gs[1..], e));
    }
  }

  /** What becomes of one column's entry: it is dropped once it has no group left. */
  function PrunedColumn(c: Option<Groups>, e: string): Option<Groups> {
    match c
    case None => None
    case Some(gs) => var p := PruneGroups(gs, e); if p == [] then None else Some(p)
  }

  /** `_removeFromOverlapped(e)`, as a function of the old dictionary. */
  function PruneColumns(ov: Overlapped, e: string): Overlapped
  {
    if ov == [] then []
    else
      var p := PruneGroups(ov[0].val, e);
      (if p == [] then [] else [Entry(ov[0].key, p)]) + PruneColumns(ov[1..], e)
  }

  /** Pruning never invents a column key. */
  lemma {:induction false} PruneColumnsKeys(ov: Overlapped, e: string)
    ensures forall k :: k in Keys(PruneColumns(ov, e)) ==> k in Keys(ov)
  {
    if ov != [] {
      PruneColumnsKeys(ov[1..], e);
      var p := PruneGroups(ov[0].val, e);
      assert Keys(ov) == [ov[0].key] + Keys(ov[1..]);
      KeysAppend(if p == [] then [] else [Entry(ov[0].key, p)], PruneColumns(ov[1..], e));
    }
  }

  lemma {:induction false} PruneGroupsAppend(a: Groups, b: Groups, e: string)
    ensures PruneGroups(a + b, e) == PruneGroups(a, e) + PruneGroups(b, e)
  {
    if a == [] {
      assert a + b == b;
    } else {
      assert (a + b)[1..] == a[1..] + b;
      PruneGroupsAppend(a[1..], b, e);
    }
  }

  lemma {:induction false} PruneColumnsAppend(a: Overlapped, b: Overlapped, e: string)
    ensures PruneColumns(a + b, e) == PruneColumns(a, e) + PruneColumns(b, e)
  {
    if a == [] {
      assert a + b == b;
    } else {
      assert (a + b)[1..] == a[1..] + b;
      PruneColumnsAppend(a[1..], b, e);
    }
  }

  /** Group by group, pruning is `PrunedGroup`; the result is still a well-formed dictionary. */
  lemma {:induction false} PruneGroupsGet(gs: Groups, e: string, g: string)
    requires WellFormed(gs)
    ensures WellFormed(PruneGroups(gs, e))
    ensures Get(PruneGroups(gs, e), g) == PrunedGroup(Get(gs, g), e)
  {
    if gs != [] {
      var k := gs[0].key;
      var w := Without(gs[0].val, e);
      var rest := PruneGroups(gs[1..], e);
      var r := PruneGroups(gs, e);
      PruneGroupsGet(gs[1..], e, g);
      PruneGroupsKeys(gs[1..], e);
      assert k !in Keys(rest);
      if |w| <= 1 {
        assert r == rest;
        if g == k {
          assert Get(gs[1..], g) == None;
        }
      } else {
        assert r == [Entry(k, w)] + rest;
        assert r[1..] == rest;
        assert WellFormed(r);
        if g != k {
          assert Get(r, g) == Get(rest, g);
        }
      }
    }
  }

  /** Column by column, pruning is `PrunedColumn`. */
  lemma {:induction false} PruneColumnsGet(ov: Overlapped, e: string, c: string)
    requires WellFormedOverlapped(ov)
    ensures Get(PruneColumns(ov, e), c) == PrunedColumn(Get(ov, c), e)
  {
    if ov != [] {
      var k := ov[0].key;
      var p := PruneGroups(ov[0].val, e);
      var rest := PruneColumns(ov[1..], e);
      WellFormedOverlappedTail(ov);
      PruneColumnsGet(ov[1..], e, c);
      if p == [] {
        assert PruneColumns(ov, e) == rest;
        if c == k {
          assert k !in Keys(ov[1..]);
          assert Get(ov[1..], c) == None;
        }
      } else if c != k {
        assert PruneColumns(ov, e) == [Entry(k, p)] + rest;
      }
    }
  }

  lemma WellFormedOverlappedTail(ov: Overlapped)
    requires WellFormedOverlapped(ov) && ov != []
    ensures WellFormedOverlapped(ov[1..]) && WellFormed(ov[0].val) && ov[0].key !in Keys(ov[1..])
  {
    assert forall i :: 0 <= i < |ov[1..]| ==> ov[1..][i] == ov[i + 1];
  }

  /** Pruning keeps the dictionaries well formed. */
  lemma {:induction false} PruneColumnsWellFormed(ov: Overlapped, e: string)
    requires WellFormedOverlapped(ov)
    ensures WellFormedOverlapped(PruneColumns(ov, e))
  {
    if ov != [] {
      var k := ov[0].key;
      var p := PruneGroups(ov[0].val, e);
      var rest := PruneColumns(ov[1..], e);
      WellFormedOverlappedTail(ov);
      PruneColumnsWellFormed(ov[1..], e);
      if p != [] {
        PruneGroupsGet(ov[0].val, e, k);
        PruneColumnsKeys(ov[1..], e);
        var r := PruneColumns(ov, e);
        assert r == [Entry(k, p)] + rest;
        assert r[1..] == rest;
        assert k !in Keys(rest);
        assert WellFormed(r);
        assert forall i :: 0 < i < |r| ==> r[i] == rest[i - 1];
      } else {
        assert PruneColumns(ov, e) == rest;
      }
    }
  }

  /**
   * After `_removeFromOverlapped(e)`: `e` is in no group, every group left has at least
   * two members, and no column is left without groups.
   */
  lemma {:induction false} RemovedFromEveryGroup(ov: Overlapped, e: string)
    ensures forall i, j :: 0 <= i < |PruneColumns(ov, e)| && 0 <= j < |PruneColumns(ov, e)[i].val| ==>
              e !in PruneColumns(ov, e)[i].val[j].val && |PruneColumns(ov, e)[i].val[j].val| >= 2
    ensures forall i :: 0 <= i < |PruneColumns(ov, e)| ==> PruneColumns(ov, e)[i].val != []
  {
    if ov != [] {
      RemovedFromEveryGroup(ov[1..], e);
      PrunedGroupsShape(ov[0].val, e);
    }
  }

  lemma {:induction false} PrunedGroupsShape(gs: Groups, e: string)
    ensures forall j :: 0 <= j < |PruneGroups(gs, e)| ==>
              e !in PruneGroups(gs, e)[j].val && |PruneGroups(gs, e)[j].val| >= 2
  {
    if gs != [] {
      PrunedGroupsShape(gs[1..], e);
    }
  }

  lemma {:induction false} PruneGroupsIdempotent(gs: Groups, e: string)
    ensures PruneGroups(PruneGroups(gs, e), e) == PruneGroups(gs, e)
  {
    if gs != [] {
      PruneGroupsIdempotent(gs[1..], e);
      var w := Without(gs[0].val, e);
      var p := PruneGroups(gs, e);
      if |w| > 1 {
        WithoutIdempotent(gs[0].val, e);
        assert p == [Entry(gs[0].key, w)] + PruneGroups(gs[1..], e);
        assert p[0] == Entry(gs[0].key, w) && p[1..] == PruneGroups(gs[1..], e);
        calc {
          PruneGroups(p, e);
          [Entry(gs[0].key, Without(w, e))] + PruneGroups(p[1..], e);
          [Entry(gs[0].key, w)] + PruneGroups(gs[1..], e);
          p;
        }
      } else {
        assert p == PruneGroups(gs[1..], e);
      }
    }
  }

  lemma {:induction false} WithoutIdempotent(ids: seq<string>, e: string)
    ensures Without(Without(ids, e), e) == Without(ids, e)
  {
    if ids != [] {
      WithoutIdempotent(ids[1..], e);
      var w := Without(ids, e);
      if ids[0] != e {
        assert w == [ids[0]] + Without(ids[1..], e);
        assert w[0] == ids[0] && w[1..] == Without(ids[1..], e);
        calc {
          Without(w, e);
          [ids[0]] + Without(w[1..], e);
          [ids[0]] + Without(ids[1..], e);
          w;
        }
      } else {
        assert w == Without(ids[1..], e);
      }
    }
  }

  /** Removing the same event twice is the same as removing it once. */
  lemma {:induction false} PruneColumnsIdempotent(ov: Overlapped, e: string)
    ensures PruneColumns(PruneColumns(ov, e), e) == PruneColumns(ov, e)
  {
    if ov != [] {
      PruneColumnsIdempotent(ov[1..], e);
      var p := PruneGroups(ov[0].val, e);
      var r := PruneColumns(ov, e);
      if p != [] {
        PruneGroupsIdempotent(ov[0].val, e);
        assert r == [Entry(ov[0].key, p)] + PruneColumns(ov[1..], e);
        assert r[0] == Entry(ov[0].key, p) && r[1..] == PruneColumns(ov[1..], e);
        calc {
          PruneColumns(r, e);
          [Entry(ov[0].key, PruneGroups(p, e))] + PruneColumns(r[1..], e);
          [Entry(ov[0].key, p)] + PruneColumns(ov[1..], e);
          r;
        }
      } else {
        assert r == PruneColumns(ov[1..], e);
      }
    }
  }

  // ---------------------------------------------------------------------------
  // _addToOverlapped

  /** `eIds.some(id => ids.includes(id))`. */
  predicate Shares(ids: seq<string>, eIds: seq<string>) {
    exists x :: x in eIds && x in ids
  }

  /** `groupsToRemove`: the keys, in order, of the groups that share an id with `eIds`. */
  function SharingKeys(gs: Groups, eIds: seq<string>): (r: seq<string>)
    ensures forall k :: k in r <==> exists i :: 0 <= i < |gs| && gs[i].key == k && Shares(gs[i].val, eIds)
  {
    if gs == [] then []
    else
      var init := gs[..|gs| - 1];
      var last := gs[|gs| - 1];
      assert forall i :: 0 <= i < |init| ==> init[i] == gs[i];
      SharingKeys(init, eIds) + (if Shares(last.val, eIds) then [last.key] else [])
  }

  /** `ks.forEach(k => delete gs[k])`. */
  function DeleteAll(gs: Groups, ks: seq<string>): Groups {
    if ks == [] then gs
    else Delete(DeleteAll(gs, ks[..|ks| - 1]), ks[|ks| - 1])
  }

  lemma {:induction false} DeleteAllGet(gs: Groups, ks: seq<string>, g: string)
    ensures Get(DeleteAll(gs, ks), g) == if g in ks then None else Get(gs, g)
    ensures forall k :: k in Keys(DeleteAll(gs, ks)) <==> k in Keys(gs) && k !in ks
    ensures WellFormed(gs) ==> WellFormed(DeleteAll(gs, ks))
  {
    if ks != [] {
      var init := ks[..|ks| - 1];
      DeleteAllGet(gs, init, g);
      DeleteSpec(DeleteAll(gs, init), ks[|ks| - 1]);
      if WellFormed(gs) {
        DeleteWellFormed(DeleteAll(gs, init), ks[|ks| - 1]);
      }
      assert ks == init + [ks[|ks| - 1]];
    }
  }

  /** The groups of a column that survive `_addToOverlapped(c, eIds)`. */
  function KeptGroups(gs: Groups, eIds: seq<string>): Groups {
    DeleteAll(gs, SharingKeys(gs, eIds))
  }

  /** A group survives exactly when it shares no id with `eIds`, and keeps its members. */
  lemma KeptGroupsGet(gs: Groups, eIds: seq<string>, g: string)
    requires WellFormed(gs)
    ensures WellFormed(KeptGroups(gs, eIds))
    ensures forall k :: k in Keys(KeptGroups(gs, eIds)) ==> k in Keys(gs)
    ensures Get(KeptGroups(gs, eIds), g) == match Get(gs, g)
                                             case Some(ids) => if Shares(ids, eIds) then None else Some(ids)
                                             case None => None
  {
    DeleteAllGet(gs, SharingKeys(gs, eIds), g);
    if g in Keys(gs) {
      var i :| 0 <= i < |gs| && gs[i].key == g;
      GetAt(gs, i);
      if g in SharingKeys(gs, eIds) {
        var j :| 0 <= j < |gs| && gs[j].key == g && Shares(gs[j].val, eIds);
        GetAt(gs, j);
      }
    }
  }

  /** The state `_get3CharId` sees: the groups sharing an id with `eIds` are gone, and `c`
      has an entry. */
  function StripColumn(ov: Overlapped, c: string, eIds: seq<string>): Overlapped {
    Set(ov, c, KeptGroups(GroupsOf(ov, c), eIds))
  }

  /** `_addToOverlapped(c, eIds)` once `_get3CharId` has produced `key`. */
  function AddGroup(ov: Overlapped, c: string, eIds: seq<string>, key: string): Overlapped {
    Set(ov, c, Set(KeptGroups(GroupsOf(ov, c), eIds), key, eIds))
  }

  /** Every group key of every column (`existingIds` in `_get3CharId`). */
  function GroupKeys(ov: Overlapped): set<string>
  {
    if ov == [] then {} else (set k | k in Keys(ov[0].val)) + GroupKeys(ov[1..])
  }

  /** A key is in use exactly when some column has a group under it. */
  lemma {:induction false} GroupKeysSpec(ov: Overlapped)
    ensures forall k :: k in GroupKeys(ov) <==> exists i :: 0 <= i < |ov| && k in Keys(ov[i].val)
  {
    if ov != [] {
      GroupKeysSpec(ov[1..]);
      assert forall i :: 0 < i < |ov| ==> ov[i] == ov[1..][i - 1];
    }
  }

  lemma GroupKeysOf(ov: Overlapped, c: string, k: string)
    requires k in Keys(GroupsOf(ov, c))
    ensures k in GroupKeys(ov)
  {
    var i :| 0 <= i < |ov| && ov[i] == Entry(c, Get(ov, c).value);
  }

  /**
   * After `_addToOverlapped(c, eIds)` with a fresh key: `eIds` is stored under that key as
   * the last group of `c`, which no other column uses; the other groups of `c` are exactly
   * the old ones that share no id with `eIds`; other columns are unchanged.
   */
  lemma {:induction false} AddGroupSpec(ov: Overlapped, c: string, eIds: seq<string>, key: string)
    requires WellFormedOverlapped(ov)
    requires key !in GroupKeys(StripColumn(ov, c, eIds))
    ensures WellFormedOverlapped(AddGroup(ov, c, eIds, key))
    ensures GroupsOf(AddGroup(ov, c, eIds, key), c) == KeptGroups(GroupsOf(ov, c), eIds) + [Entry(key, eIds)]
    ensures Get(GroupsOf(AddGroup(ov, c, eIds, key), c), key) == Some(eIds)
    ensures forall g :: g != key ==>
              Get(GroupsOf(AddGroup(ov, c, eIds, key), c), g) == match Get(GroupsOf(ov, c), g)
                                                                   case Some(ids) => if Shares(ids, eIds) then None else Some(ids)
                                                                   case None => None
    ensures forall c' :: c' != c ==> Get(AddGroup(ov, c, eIds, key), c') == Get(ov, c')
    ensures forall c' :: c' != c ==> key !in Keys(GroupsOf(AddGroup(ov, c, eIds, key), c'))
  {
    AddGroupOwn(ov, c, eIds, key);
    AddGroupOthers(ov, c, eIds, key);
    AddGroupFreshElsewhere(ov, c, eIds, key);
    AddGroupWellFormed(ov, c, eIds, key);
  }

  lemma GroupsOfWellFormed(ov: Overlapped, c: string)
    requires WellFormedOverlapped(ov)
    ensures WellFormed(GroupsOf(ov, c))
  {
    if c in Keys(ov) {
      var i :| 0 <= i < |ov| && ov[i] == Entry(c, Get(ov, c).value);
    }
  }

  /** A key unused once the sharing groups are gone is not among the kept groups of `c`. */
  lemma FreshNotKept(ov: Overlapped, c: string, eIds: seq<string>, key: string)
    requires key !in GroupKeys(StripColumn(ov, c, eIds))
    ensures key !in Keys(KeptGroups(GroupsOf(ov, c), eIds))
  {
    var kept := KeptGroups(GroupsOf(ov, c), eIds);
    SetGet(ov, c, kept);
    if key in Keys(kept) {
      GroupKeysOf(StripColumn(ov, c, eIds), c, key);
    }
  }

  /** Column `c` afterwards: the kept groups, then the new group under `key`. */
  lemma AddGroupOwn(ov: Overlapped, c: string, eIds: seq<string>, key: string)
    requires WellFormedOverlapped(ov)
    requires key !in GroupKeys(StripColumn(ov, c, eIds))
    ensures GroupsOf(AddGroup(ov, c, eIds, key), c) == KeptGroups(GroupsOf(ov, c), eIds) + [Entry(key, eIds)]
    ensures Get(GroupsOf(AddGroup(ov, c, eIds, key), c), key) == Some(eIds)
    ensures forall g :: g != key ==>
              Get(GroupsOf(AddGroup(ov, c, eIds, key), c), g) == match Get(GroupsOf(ov, c), g)
                                                                   case Some(ids) => if Shares(ids, eIds) then None else Some(ids)
                                                                   case None => None
  {
    var gs := GroupsOf(ov, c);
    var kept := KeptGroups(gs, eIds);
    GroupsOfWellFormed(ov, c);
    FreshNotKept(ov, c, eIds, key);
    SetAbsent(kept, key, eIds);
    SetGet(kept, key, eIds);
    SetGet(ov, c, Set(kept, key, eIds));
    forall g | g != key
      ensures Get(Set(kept, key, eIds), g) == match Get(gs, g)
                                               case Some(ids) => if Shares(ids, eIds) then None else Some(ids)
                                               case None => None
    {
      SetGetOther(kept, key, eIds, g);
      KeptGroupsGet(gs, eIds, g);
    }
  }

  /** Every other column is unchanged. */
  lemma AddGroupOthers(ov: Overlapped, c: string, eIds: seq<string>, key: string)
    ensures forall c' :: c' != c ==> Get(AddGroup(ov, c, eIds, key), c') == Get(ov, c')
  {
    var v := Set(KeptGroups(GroupsOf(ov, c), eIds), key, eIds);
    forall c' | c' != c ensures Get(Set(ov, c, v), c') == Get(ov, c') {
      SetGetOther(ov, c, v, c');
    }
  }

  /** No other column uses the new key. */
  lemma AddGroupFreshElsewhere(ov: Overlapped, c: string, eIds: seq<string>, key: string)
    requires key !in GroupKeys(StripColumn(ov, c, eIds))
    ensures forall c' :: c' != c ==> key !in Keys(GroupsOf(AddGroup(ov, c, eIds, key), c'))
  {
    var kept := KeptGroups(GroupsOf(ov, c), eIds);
    var s := StripColumn(ov, c, eIds);
    var r := AddGroup(ov, c, eIds, key);
    forall c' | c' != c ensures key !in Keys(GroupsOf(r, c')) {
      SetGetOther(ov, c, kept, c');
      SetGetOther(ov, c, Set(kept, key, eIds), c');
      if key in Keys(GroupsOf(r, c')) {
        assert GroupsOf(s, c') == GroupsOf(r, c');
        GroupKeysOf(s, c', key);
      }
    }
  }

  /** Adding a group keeps every key listed once, in the column and in its groups. */
  lemma AddGroupWellFormed(ov: Overlapped, c: string, eIds: seq<string>, key: string)
    requires WellFormedOverlapped(ov)
    requires key !in GroupKeys(StripColumn(ov, c, eIds))
    ensures WellFormedOverlapped(AddGroup(ov, c, eIds, key))
  {
    var gs := GroupsOf(ov, c);
    var kept := KeptGroups(gs, eIds);
    var v := Set(kept, key, eIds);
    var r := AddGroup(ov, c, eIds, key);
    GroupsOfWellFormed(ov, c);
    KeptGroupsGet(gs, eIds, key);
    SetWellFormed(kept, key, eIds);
    SetWellFormed(ov, c, v);
    forall i | 0 <= i < |r| ensures WellFormed(r[i].val) {
      GetAt(r, i);
      if r[i].key != c {
        SetGetOther(ov, c, v, r[i].key);
        KeysAt(r, i);
        var j :| 0 <= j < |ov| && ov[j] == Entry(r[i].key, Get(ov, r[i].key).value);
      } else {
        SetGet(ov, c, v);
      }
    }
  }

  // ---------------------------------------------------------------------------
  // _get3CharId

  /** Three characters drawn from a 36-character alphabet. */
  const KeySpaceSize: nat := 36 * 36 * 36

  /** `chars` of `_get3CharId`. */
  const KeyAlphabet: string := "abcdefghijklmnopqrstuvwxyz0123456789"

  /** `chars.charAt(i)`, computed from the code points of 'a' and '0'. */
  function KeyChar(i: nat): char
    requires i < 36
  {
    if i < 26 then ('a' as int + i) as char else ('0' as int + i - 26) as char
  }

  /** The computed character is the `i`-th letter of `chars`. */
  lemma KeyCharInAlphabet(i: nat)
    requires i < 36
    ensures KeyChar(i) == KeyAlphabet[i]
  {
  }

  /** The key built from three draws `a`, `b`, `c` of `Math.floor(Math.random() * 36)`. */
  function Key3(a: nat, b: nat, c: nat): string
    requires a < 36 && b < 36 && c < 36
  {
    [KeyChar(a), KeyChar(b), KeyChar(c)]
  }

  /** The `n`-th key in base-36 order. */
  function KeyOf(n: nat): string
    requires n < KeySpaceSize
  {
    Key3((n / 36) / 36, (n / 36) % 36, n % 36)
  }

  lemma KeyCharInjective(i: nat, j: nat)
    requires i < 36 && j < 36 && KeyChar(i) == KeyChar(j)
    ensures i == j
  {
    assert KeyChar(i) as int == (if i < 26 then 'a' as int + i else '0' as int + i - 26);
    assert KeyChar(j) as int == (if j < 26 then 'a' as int + j else '0' as int + j - 26);
  }

  lemma KeyOfInjective(m: nat, n: nat)
    requires m < KeySpaceSize && n < KeySpaceSize && KeyOf(m) == KeyOf(n)
    ensures m == n
  {
    assert KeyOf(m)[0] == KeyOf(n)[0] && KeyOf(m)[1] == KeyOf(n)[1] && KeyOf(m)[2] == KeyOf(n)[2];
    KeyCharInjective((m / 36) / 36, (n / 36) / 36);
    KeyCharInjective((m / 36) % 36, (n / 36) % 36);
    KeyCharInjective(m % 36, n % 36);
    assert m / 36 == n / 36;
  }

  /** The first `n` keys in base-36 order. */
  function KeysBelow(n: nat): set<string>
    requires n <= KeySpaceSize
  {
    if n == 0 then {} else KeysBelow(n - 1) + {KeyOf(n - 1)}
  }

  lemma {:induction false} KeysBelowOnly(n: nat, k: string)
    requires n <= KeySpaceSize && k in KeysBelow(n)
    ensures exists m :: 0 <= m < n && KeyOf(m) == k
  {
    if k != KeyOf(n - 1) {
      KeysBelowOnly(n - 1, k);
    }
  }

  lemma {:induction false} KeysBelowCount(n: nat)
    requires n <= KeySpaceSize
    ensures |KeysBelow(n)| == n
  {
    if n > 0 {
      KeysBelowCount(n - 1);
      KeyOfNotBelow(n - 1);
      CardinalityAddFresh(KeysBelow(n - 1), KeyOf(n - 1));
    }
  }

  lemma CardinalityAddFresh<T>(a: set<T>, x: T)
    requires x !in a
    ensures |a + {x}| == |a| + 1
  {
  }

  /** The `n`-th key is none of the keys before it. */
  lemma KeyOfNotBelow(n: nat)
    requires n < KeySpaceSize
    ensures KeyOf(n) !in KeysBelow(n)
  {
    if KeyOf(n) in KeysBelow(n) {
      KeysBelowOnly(n, KeyOf(n));
      var m :| 0 <= m < n && KeyOf(m) == KeyOf(n);
      KeyOfInjective(m, n);
    }
  }

  lemma {:induction false} SubsetCount<T>(a: set<T>, b: set<T>)
    requires a <= b
    ensures |a| <= |b|
  {
    if a != {} {
      var x :| x in a;
      SubsetCount(a - {x}, b - {x});
    }
  }

  /**
   * The retry loop of `_get3CharId` ends: while fewer than 36^3 group keys exist, some
   * three draws give a key that is not among them.
   */
  lemma FreshKeyExists(existing: set<string>)
    requires |existing| < KeySpaceSize
    ensures exists a: nat, b: nat, c: nat :: a < 36 && b < 36 && c < 36 && Key3(a, b, c) !in existing
  {
    KeysBelowCount(KeySpaceSize);
    if !(KeysBelow(KeySpaceSize) <= existing) {
      var k :| k in KeysBelow(KeySpaceSize) && k !in existing;
      KeysBelowOnly(KeySpaceSize, k);
      var m :| 0 <= m < KeySpaceSize && KeyOf(m) == k;
    } else {
      SubsetCount(KeysBelow(KeySpaceSize), existing);
    }
  }

  /** Pruning never invents a group key. */
  lemma {:induction false} GroupKeysPrune(ov: Overlapped, e: string)
    ensures GroupKeys(PruneColumns(ov, e)) <= GroupKeys(ov)
  {
    if ov != [] {
      GroupKeysPrune(ov[1..], e);
      var p := PruneGroups(ov[0].val, e);
      PruneGroupsKeys(ov[0].val, e);
      var rest := PruneColumns(ov[1..], e);
      if p != [] {
        var r := PruneColumns(ov, e);
        assert r == [Entry(ov[0].key, p)] + rest && r[1..] == rest;
        assert GroupKeys(r) == (set k | k in Keys(p)) + GroupKeys(rest);
      } else {
        assert PruneColumns(ov, e) == rest;
      }
    }
  }

  /** Replacing one column's groups by `g` adds at most the keys of `g`. */
  lemma {:induction false} GroupKeysSet(ov: Overlapped, c: string, g: Groups)
    ensures GroupKeys(Set(ov, c, g)) <= GroupKeys(ov) + (set k | k in Keys(g))
  {
    if ov != [] && ov[0].key != c {
      GroupKeysSet(ov[1..], c, g);
      var r := Set(ov, c, g);
      assert r == [ov[0]] + Set(ov[1..], c, g) && r[1..] == Set(ov[1..], c, g);
    } else if ov != [] {
      var r := Set(ov, c, g);
      assert r == [Entry(c, g)] + ov[1..] && r[1..] == ov[1..];
    }
  }

  /** Dropping the groups that share an id with `eIds` never invents a group key. */
  lemma GroupKeysStrip(ov: Overlapped, c: string, eIds: seq<string>)
    ensures GroupKeys(StripColumn(ov, c, eIds)) <= GroupKeys(ov)
  {
    var gs := GroupsOf(ov, c);
    var kept := KeptGroups(gs, eIds);
    GroupKeysSet(ov, c, kept);
    forall k | k in Keys(kept) ensures k in GroupKeys(ov) {
      DeleteAllGet(gs, SharingKeys(gs, eIds), k);
      GroupKeysOf(ov, c, k);
    }
  }

  // ---------------------------------------------------------------------------
  // getAllOverlappedGroups

  /** `Object.values(ov).map(g => Object.values(g)).flat()`. */
  function AllGroups(ov: Overlapped): (r: seq<seq<string>>)
    ensures |r| == GroupCount(ov)
  {
    if ov == [] then [] else Values(ov[0].val) + AllGroups(ov[1..])
  }

  function GroupCount(ov: Overlapped): nat {
    if ov == [] then 0 else |ov[0].val| + GroupCount(ov[1..])
  }

  /** `flat()` keeps the column order: the groups of `a + b` are those of `a`, then those of `b`. */
  lemma {:induction false} AllGroupsAppend(a: Overlapped, b: Overlapped)
    ensures AllGroups(a + b) == AllGroups(a) + AllGroups(b)
  {
    if a == [] {
      assert a + b == b;
    } else {
      assert (a + b)[0] == a[0] && (a + b)[1..] == a[1..] + b;
      AllGroupsAppend(a[1..], b);
    }
  }

  /** One column contributes its groups' id lists, in the order of its group keys. */
  lemma AllGroupsSingle(c: string, gs: Groups)
    ensures AllGroups([Entry(c, gs)]) == Values(gs)
  {
    assert [Entry(c, gs)][1..] == [];
  }

  /** A list is returned exactly when some column has a group holding that list. */
  lemma {:induction false} AllGroupsMember(ov: Overlapped, g: seq<string>)
    ensures g in AllGroups(ov) <==> exists i, j :: 0 <= i < |ov| && 0 <= j < |ov[i].val| && ov[i].val[j].val == g
  {
    if ov != [] {
      AllGroupsMember(ov[1..], g);
      var vs := Values(ov[0].val);
      assert AllGroups(ov) == vs + AllGroups(ov[1..]);
      if g in vs {
        var j :| 0 <= j < |vs| && vs[j] == g;
        assert ov[0].val[j].val == g;
      } else if g in AllGroups(ov[1..]) {
        var i, j :| 0 <= i < |ov[1..]| && 0 <= j < |ov[1..][i].val| && ov[1..][i].val[j].val == g;
        assert ov[i + 1].val[j].val == g;
      }
      if exists i, j :: 0 <= i < |ov| && 0 <= j < |ov[i].val| && ov[i].val[j].val == g {
        var i, j :| 0 <= i < |ov| && 0 <= j < |ov[i].val| && ov[i].val[j].val == g;
        if i == 0 {
          assert vs[j] == g;
        } else {
          assert ov[1..][i - 1].val[j].val == g;
        }
      }
    }
  }
}
