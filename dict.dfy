/**
 * String-keyed dictionaries with the behaviour of plain JavaScript objects: the keys
 * enumerate in insertion order (`Object.keys`, `Object.values`, `Object.entries`),
 * assigning to a present key keeps its place, assigning to an absent key appends it,
 * and `delete` removes the key.
 */
module Dict {
  import opened Wrappers

  datatype Entry<V> = Entry(key: string, val: V)

  type Dict<V> = seq<Entry<V>>

  /** `Object.keys(d)`. */
  function Keys<V>(d: Dict<V>): (ks: seq<string>)
    ensures |ks| == |d|
  {
    if d == [] then [] else [d[0].key] + Keys(d[1..])
  }

  /** Key `i` is the key of entry `i`. */
  lemma {:induction false} KeysAt<V>(d: Dict<V>, i: nat)
    requires i < |d|
    ensures Keys(d)[i] == d[i].key
  {
    if i > 0 {
      KeysAt(d[1..], i - 1);
    }
  }

  /** A key is listed exactly when some entry carries it. */
  lemma KeysMember<V>(d: Dict<V>, k: string)
    ensures k in Keys(d) <==> exists i :: 0 <= i < |d| && d[i].key == k
  {
    if k in Keys(d) {
      var i :| 0 <= i < |Keys(d)| && Keys(d)[i] == k;
      KeysAt(d, i);
    }
    if exists i :: 0 <= i < |d| && d[i].key == k {
      var i :| 0 <= i < |d| && d[i].key == k;
      KeysAt(d, i);
    }
  }

  /** `Object.values(d)`. */
  function Values<V>(d: Dict<V>): (vs: seq<V>)
    ensures |vs| == |d|
    ensures forall i :: 0 <= i < |d| ==> vs[i] == d[i].val
  {
    if d == [] then [] else [d[0].val] + Values(d[1..])
  }

  /** A JavaScript object never holds the same key twice. */
  ghost predicate WellFormed<V>(d: Dict<V>) {
    d == [] || (d[0].key !in Keys(d[1..]) && WellFormed(d[1..]))
  }

  /** `d[k]`, with `undefined` as None. */
  function Get<V>(d: Dict<V>, k: string): (r: Option<V>)
    ensures r.None? <==> k !in Keys(d)
    ensures r.Some? ==> exists i :: 0 <= i < |d| && d[i] == Entry(k, r.value)
  {
    if d == [] then None
    else if d[0].key == k then Some(d[0].val)
    else Get(d[1..], k)
  }

  /** `d[k] = v`. */
  function Set<V>(d: Dict<V>, k: string, v: V): (r: Dict<V>)
  {
    if d == [] then [Entry(k, v)]
    else if d[0].key == k then [Entry(k, v)] + d[1..]
    else [d[0]] + Set(d[1..], k, v)
  }

  /** `delete d[k]`. */
  function Delete<V>(d: Dict<V>, k: string): (r: Dict<V>)
  {
    if d == [] then []
    else if d[0].key == k then Delete(d[1..], k)
    else [d[0]] + Delete(d[1..], k)
  }

  /** Assignment reads back, leaves every other key alone, and keeps the key order:
      a present key stays where it is, an absent one goes last. */
  lemma SetSpec<V>(d: Dict<V>, k: string, v: V)
    ensures k in Keys(d) ==> Keys(Set(d, k, v)) == Keys(d)
    ensures k !in Keys(d) ==> Set(d, k, v) == d + [Entry(k, v)]
    ensures Get(Set(d, k, v), k) == Some(v)
    ensures forall k' :: k' != k ==> Get(Set(d, k, v), k') == Get(d, k')
  {
    SetPresentKeys(d, k, v);
    SetAbsent(d, k, v);
    SetGet(d, k, v);
    forall k' | k' != k ensures Get(Set(d, k, v), k') == Get(d, k') {
      SetGetOther(d, k, v, k');
    }
  }

  lemma {:induction false} SetPresentKeys<V>(d: Dict<V>, k: string, v: V)
    ensures k in Keys(d) ==> Keys(Set(d, k, v)) == Keys(d)
  {
    if d != [] {
      assert Keys(d) == [d[0].key] + Keys(d[1..]);
      if d[0].key == k {
        assert Set(d, k, v)[1..] == d[1..];
        assert Keys(Set(d, k, v)) == [k] + Keys(d[1..]);
      } else {
        SetPresentKeys(d[1..], k, v);
        assert Set(d, k, v)[1..] == Set(d[1..], k, v);
        assert Keys(Set(d, k, v)) == [d[0].key] + Keys(Set(d[1..], k, v));
      }
    }
  }

  lemma {:induction false} SetAbsent<V>(d: Dict<V>, k: string, v: V)
    ensures k !in Keys(d) ==> Set(d, k, v) == d + [Entry(k, v)]
  {
    if d != [] && k !in Keys(d) {
      assert Keys(d) == [d[0].key] + Keys(d[1..]);
      SetAbsent(d[1..], k, v);
      assert d == [d[0]] + d[1..];
    }
  }

  lemma {:induction false} SetGet<V>(d: Dict<V>, k: string, v: V)
    ensures Get(Set(d, k, v), k) == Some(v)
  {
    if d != [] && d[0].key != k {
      SetGet(d[1..], k, v);
      assert Set(d, k, v)[1..] == Set(d[1..], k, v);
    }
  }

  lemma {:induction false} SetGetOther<V>(d: Dict<V>, k: string, v: V, k': string)
    requires k' != k
    ensures Get(Set(d, k, v), k') == Get(d, k')
  {
    if d == [] {
      assert Set(d, k, v) == [Entry(k, v)];
      assert Set(d, k, v)[1..] == [];
    } else if d[0].key == k {
      assert Set(d, k, v)[1..] == d[1..];
    } else {
      SetGetOther(d[1..], k, v, k');
      assert Set(d, k, v)[1..] == Set(d[1..], k, v);
    }
  }

  /** After assignment the keys are the old keys and `k`. */
  lemma SetKeys<V>(d: Dict<V>, k: string, v: V)
    ensures forall k' :: k' in Keys(Set(d, k, v)) <==> k' in Keys(d) || k' == k
  {
    SetSpec(d, k, v);
    forall k' ensures k' in Keys(Set(d, k, v)) <==> k' in Keys(d) || k' == k {
      if k' != k {
        assert Get(Set(d, k, v), k') == Get(d, k');
      }
    }
  }

  lemma {:induction false} SetWellFormed<V>(d: Dict<V>, k: string, v: V)
    requires WellFormed(d)
    ensures WellFormed(Set(d, k, v))
  {
    if d != [] {
      if d[0].key == k {
        assert Set(d, k, v)[1..] == d[1..];
      } else {
        SetKeys(d[1..], k, v);
        SetWellFormed(d[1..], k, v);
        assert Set(d, k, v)[1..] == Set(d[1..], k, v);
      }
    }
  }

  /** Deletion removes the key and leaves every other key alone. */
  lemma {:induction false} DeleteSpec<V>(d: Dict<V>, k: string)
    ensures k !in Keys(Delete(d, k))
    ensures forall k' :: k' in Keys(Delete(d, k)) <==> k' in Keys(d) && k' != k
    ensures forall k' :: k' != k ==> Get(Delete(d, k), k') == Get(d, k')
  {
    if d != [] {
      DeleteSpec(d[1..], k);
      assert Keys(d) == [d[0].key] + Keys(d[1..]);
      if d[0].key != k {
        assert Keys(Delete(d, k)) == [d[0].key] + Keys(Delete(d[1..], k));
      }
    }
  }

  lemma {:induction false} DeleteWellFormed<V>(d: Dict<V>, k: string)
    requires WellFormed(d)
    ensures WellFormed(Delete(d, k))
  {
    if d != [] {
      DeleteWellFormed(d[1..], k);
      DeleteSpec(d[1..], k);
      if d[0].key != k {
        assert Delete(d, k)[1..] == Delete(d[1..], k);
      }
    }
  }

  lemma KeysAppend<V>(a: Dict<V>, b: Dict<V>)
    ensures Keys(a + b) == Keys(a) + Keys(b)
  {
    var l := Keys(a) + Keys(b);
    forall i | 0 <= i < |a + b| ensures Keys(a + b)[i] == l[i] {
      KeysAt(a + b, i);
      if i < |a| {
        KeysAt(a, i);
      } else {
        KeysAt(b, i - |a|);
      }
    }
  }

  /** In a well-formed dictionary every entry is what lookup of its key finds. */
  lemma {:induction false} GetAt<V>(d: Dict<V>, i: nat)
    requires WellFormed(d) && i < |d|
    ensures Get(d, d[i].key) == Some(d[i].val)
  {
    if i > 0 {
      assert d[1..][i - 1] == d[i];
      KeysAt(d[1..], i - 1);
      assert d[i].key in Keys(d[1..]);
      GetAt(d[1..], i - 1);
    }
  }

  /** Assigning to a key that sits after `p` rewrites that entry where it stands. */
  lemma {:induction false} SetInPlace<V>(p: Dict<V>, k: string, v: V, v': V, rest: Dict<V>)
    requires k !in Keys(p)
    ensures Set(p + [Entry(k, v)] + rest, k, v') == p + [Entry(k, v')] + rest
  {
    if p != [] {
      assert (p + [Entry(k, v)] + rest)[1..] == p[1..] + [Entry(k, v)] + rest;
      assert k !in Keys(p[1..]) by { assert forall i :: 0 <= i < |p[1..]| ==> p[1..][i] == p[i + 1]; }
      SetInPlace(p[1..], k, v, v', rest);
    }
  }

  /** Deleting the one entry for `k` splices it out. */
  lemma {:induction false} DeleteInPlace<V>(p: Dict<V>, k: string, v: V, rest: Dict<V>)
    requires k !in Keys(p) && k !in Keys(rest)
    ensures Delete(p + [Entry(k, v)] + rest, k) == p + rest
  {
    if p == [] {
      assert p + [Entry(k, v)] + rest == [Entry(k, v)] + rest;
      DeleteHead(Entry(k, v), rest);
      DeleteAbsent(rest, k);
    } else {
      var q := p[1..];
      KeysTail(p, k);
      DeleteInPlace(q, k, v, rest);
      DeleteCons(p[0], q + [Entry(k, v)] + rest, k);
      ConsSplit3(p, [Entry(k, v)], rest);
      ConsSplit(p, rest);
    }
  }

  /** A key missing from a non-empty dictionary is missing from its head and tail. */
  lemma KeysTail<V>(p: Dict<V>, k: string)
    requires p != [] && k !in Keys(p)
    ensures p[0].key != k && k !in Keys(p[1..])
  {
    assert Keys(p) == [p[0].key] + Keys(p[1..]);
  }

  /** Deleting the key of the first entry drops that entry. */
  lemma DeleteHead<V>(e: Entry<V>, t: Dict<V>)
    ensures Delete([e] + t, e.key) == Delete(t, e.key)
  {
    assert ([e] + t)[1..] == t;
  }

  /** Deleting another key keeps the first entry in front. */
  lemma DeleteCons<V>(e: Entry<V>, t: Dict<V>, k: string)
    requires e.key != k
    ensures Delete([e] + t, k) == [e] + Delete(t, k)
  {
    assert ([e] + t)[1..] == t;
  }

  /** The same split with two further pieces. */
  lemma ConsSplit3<V>(p: Dict<V>, x: Dict<V>, t: Dict<V>)
    requires p != []
    ensures p + x + t == [p[0]] + (p[1..] + x + t)
  {
    assert p == [p[0]] + p[1..];
  }

  /** A non-empty dictionary followed by more entries splits at its head. */
  lemma ConsSplit<V>(p: Dict<V>, t: Dict<V>)
    requires p != []
    ensures p + t == [p[0]] + (p[1..] + t)
  {
    assert p == [p[0]] + p[1..];
  }

  /** Deleting an absent key changes nothing. */
  lemma {:induction false} DeleteAbsent<V>(d: Dict<V>, k: string)
    requires k !in Keys(d)
    ensures Delete(d, k) == d
  {
    if d != [] {
      assert d[0].key == Keys(d)[0];
      assert k !in Keys(d[1..]) by { assert forall i :: 0 <= i < |d[1..]| ==> d[1..][i] == d[i + 1]; }
      DeleteAbsent(d[1..], k);
    }
  }

  /** Reading the key that sits after `p` finds its entry. */
  lemma {:induction false} GetInPlace<V>(p: Dict<V>, k: string, v: V, rest: Dict<V>)
    requires k !in Keys(p)
    ensures Get(p + [Entry(k, v)] + rest, k) == Some(v)
  {
    if p != [] {
      assert (p + [Entry(k, v)] + rest)[1..] == p[1..] + [Entry(k, v)] + rest;
      assert p[0].key == Keys(p)[0];
      assert k !in Keys(p[1..]) by { assert forall i :: 0 <= i < |p[1..]| ==> p[1..][i] == p[i + 1]; }
      GetInPlace(p[1..], k, v, rest);
    }
  }

  /** In a well-formed dictionary an entry's key occurs neither before nor after it. */
  lemma WellFormedAt<V>(d: Dict<V>, i: nat)
    requires WellFormed(d) && i < |d|
    ensures d[i].key !in Keys(d[..i]) && d[i].key !in Keys(d[i + 1..])
  {
    WellFormedBefore(d, i);
    WellFormedAfter(d, i);
  }

  lemma WellFormedBefore<V>(d: Dict<V>, i: nat)
    requires WellFormed(d) && i < |d|
    ensures d[i].key !in Keys(d[..i])
  {
    var p := d[..i];
    var ks := Keys(p);
    forall j | 0 <= j < |ks| ensures ks[j] != d[i].key {
      KeysAt(p, j);
      assert p[j] == d[j];
      WellFormedDistinct(d, j, i);
    }
  }

  lemma WellFormedAfter<V>(d: Dict<V>, i: nat)
    requires WellFormed(d) && i < |d|
    ensures d[i].key !in Keys(d[i + 1..])
  {
    var q := d[i + 1..];
    var ks := Keys(q);
    forall j | 0 <= j < |ks| ensures ks[j] != d[i].key {
      KeysAt(q, j);
      assert q[j] == d[i + 1 + j];
      WellFormedDistinct(d, i, i + 1 + j);
    }
  }

  /** In a well-formed dictionary two entries at different places have different keys. */
  lemma {:induction false} WellFormedDistinct<V>(d: Dict<V>, i: nat, j: nat)
    requires WellFormed(d) && i < j < |d|
    ensures d[i].key != d[j].key
  {
    assert d[1..][j - 1] == d[j];
    if i == 0 {
      KeysAt(d[1..], j - 1);
    } else {
      WellFormedDistinct(d[1..], i - 1, j - 1);
    }
  }

  /** A second assignment to the same key overrides the first. */
  lemma {:induction false} SetTwice<V>(d: Dict<V>, k: string, v: V, v': V)
    ensures Set(Set(d, k, v), k, v') == Set(d, k, v')
  {
    if d != [] && d[0].key != k {
      SetTwice(d[1..], k, v, v');
      assert Set(d, k, v)[1..] == Set(d[1..], k, v);
    }
  }

  /** Writing back the value a key already holds changes nothing. */
  lemma {:induction false} SetSame<V>(d: Dict<V>, k: string)
    requires Get(d, k).Some?
    ensures Set(d, k, Get(d, k).value) == d
  {
    if d[0].key != k {
      SetSame(d[1..], k);
    }
  }

  /** Well-formedness depends on the keys alone. */
  lemma {:induction false} WellFormedSameKeys<V, W>(d: Dict<V>, e: Dict<W>)
    requires Keys(d) == Keys(e)
    ensures WellFormed(d) == WellFormed(e)
  {
    if d != [] {
      assert Keys(d[1..]) == Keys(d)[1..] == Keys(e)[1..] == Keys(e[1..]);
      assert d[0].key == Keys(d)[0] == Keys(e)[0] == e[0].key;
      WellFormedSameKeys(d[1..], e[1..]);
    }
  }
}
