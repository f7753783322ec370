/** std::map<std::string, V> as a sequence of (key, value) pairs kept in
    strictly ascending key order: iteration order, find, operator[]
    assignment, erase and merge. */
module OrderedMap {
  import opened Basics

  type Entries<V> = seq<(string, V)>

  /** The map invariant: keys strictly ascending, hence unique. */
  predicate Sorted<V>(t: Entries<V>) {
    forall i, j :: 0 <= i < j < |t| ==> StrLess(t[i].0, t[j].0)
  }

  function KeySet<V>(t: Entries<V>): set<string> {
    set i | 0 <= i < |t| :: t[i].0
  }

  lemma KeySetCons<V>(e: (string, V), t: Entries<V>)
    ensures KeySet([e] + t) == {e.0} + KeySet(t)
  {
    var s := [e] + t;
    forall k | k in KeySet(s) ensures k in {e.0} + KeySet(t) {
      var i :| 0 <= i < |s| && s[i].0 == k;
      if i > 0 { assert t[i - 1].0 == k; }
    }
    forall k | k in KeySet(t) ensures k in KeySet(s) {
      var i :| 0 <= i < |t| && t[i].0 == k;
      assert s[i + 1].0 == k;
    }
    assert s[0].0 == e.0;
  }

  /** find(): the value stored under k, if any. */
  function Get<V>(t: Entries<V>, k: string): (r: Option<V>)
    ensures r.Some? <==> k in KeySet(t)
    ensures r.Some? ==> (k, r.value) in t
  {
    if t == [] then None
    else if t[0].0 == k then Some(t[0].1)
    else
      assert KeySet(t) == {t[0].0} + KeySet(t[1..]) by {
        KeySetCons(t[0], t[1..]);
        assert t == [t[0]] + t[1..];
      }
      Get(t[1..], k)
  }

  lemma {:induction false} GetAt<V>(t: Entries<V>, i: nat)
    requires Sorted(t) && i < |t|
    ensures Get(t, t[i].0) == Some(t[i].1)
  {
    if i > 0 {
      assert t[0].0 != t[i].0 by { StrLessIrreflexive(t[0].0); }
      GetAt(t[1..], i - 1);
    }
  }

  lemma SortedTail<V>(t: Entries<V>)
    requires Sorted(t) && t != []
    ensures Sorted(t[1..])
  {
  }

  /** In a sorted map every key is the key of exactly one position. */
  lemma SortedKeyUnique<V>(t: Entries<V>, i: nat, j: nat)
    requires Sorted(t) && i < |t| && j < |t| && t[i].0 == t[j].0
    ensures i == j
  {
    if i < j || j < i { StrLessIrreflexive(t[i].0); }
  }

  /** Two sorted maps that agree on every lookup are the same sequence. */
  lemma {:induction false} Extensional<V>(a: Entries<V>, b: Entries<V>)
    requires Sorted(a) && Sorted(b)
    requires forall k :: Get(a, k) == Get(b, k)
    ensures a == b
    decreases |a| + |b|
  {
    assert a != [] ==> Get(b, a[0].0).Some?;
    assert b != [] ==> Get(a, b[0].0).Some?;
    if a != [] && b != [] {
      var ka, kb := a[0].0, b[0].0;
      assert Get(b, ka).Some? && Get(a, kb).Some?;
      assert ka == kb by {
        if ka != kb {
          var i :| 0 <= i < |b| && b[i].0 == ka;
          var j :| 0 <= j < |a| && a[j].0 == kb;
          assert i > 0 && j > 0;
          StrLessAsymmetric(kb, ka);
        }
      }
      GetAt(a, 0);
      GetAt(b, 0);
      forall k ensures Get(a[1..], k) == Get(b[1..], k) {
        if k != ka {
          assert Get(a, k) == Get(a[1..], k);
          assert Get(b, k) == Get(b[1..], k);
        } else {
          assert k !in KeySet(a[1..]) by {
            forall i | 0 <= i < |a[1..]| ensures a[1..][i].0 != k {
              StrLessIrreflexive(k);
            }
          }
          assert k !in KeySet(b[1..]) by {
            forall i | 0 <= i < |b[1..]| ensures b[1..][i].0 != k {
              StrLessIrreflexive(k);
            }
          }
        }
      }
      Extensional(a[1..], b[1..]);
    }
  }

  /** Every key of a sorted map with first key k0 is k0 or above it. */
  lemma HeadIsLeast<V>(t: Entries<V>, k: string)
    requires Sorted(t) && t != [] && k in KeySet(t) && k != t[0].0
    ensures StrLess(t[0].0, k)
  {
    var i :| 0 <= i < |t| && t[i].0 == k;
  }

  /** operator[] assignment: insert k or overwrite its value, keeping the order. */
  function Put<V>(t: Entries<V>, k: string, v: V): (r: Entries<V>)
    requires Sorted(t)
    ensures Sorted(r)
    ensures KeySet(r) == KeySet(t) + {k}
    ensures Get(r, k) == Some(v)
    ensures forall k' :: k' != k ==> Get(r, k') == Get(t, k')
    decreases |t|
  {
    if t == [] then
      assert KeySet([(k, v)]) == {k} by { assert [(k, v)][0].0 == k; }
      [(k, v)]
    else if t[0].0 == k then PutHere(t, k, v)
    else if StrLess(k, t[0].0) then PutBefore(t, k, v)
    else
      var rest := Put(t[1..], k, v);
      PutAfter(t, k, v, rest)
  }

  function PutHere<V>(t: Entries<V>, k: string, v: V): (r: Entries<V>)
    requires Sorted(t) && t != [] && t[0].0 == k
    ensures Sorted(r)
    ensures KeySet(r) == KeySet(t) + {k}
    ensures Get(r, k) == Some(v)
    ensures forall k' :: k' != k ==> Get(r, k') == Get(t, k')
  {
    KeySetCons(t[0], t[1..]);
    assert t == [t[0]] + t[1..];
    KeySetCons((k, v), t[1..]);
    [(k, v)] + t[1..]
  }

  function PutBefore<V>(t: Entries<V>, k: string, v: V): (r: Entries<V>)
    requires Sorted(t) && t != [] && StrLess(k, t[0].0)
    ensures Sorted(r)
    ensures KeySet(r) == KeySet(t) + {k}
    ensures Get(r, k) == Some(v)
    ensures forall k' :: k' != k ==> Get(r, k') == Get(t, k')
  {
    assert Sorted([(k, v)] + t) by {
      forall j | 0 <= j < |t| ensures StrLess(k, t[j].0) {
        if j > 0 { StrLessTransitive(k, t[0].0, t[j].0); }
      }
    }
    KeySetCons((k, v), t);
    [(k, v)] + t
  }

  function PutAfter<V>(t: Entries<V>, k: string, v: V, rest: Entries<V>): (r: Entries<V>)
    requires Sorted(t) && t != [] && t[0].0 != k && !StrLess(k, t[0].0)
    requires Sorted(rest) && KeySet(rest) == KeySet(t[1..]) + {k}
    requires Get(rest, k) == Some(v)
    requires forall k' :: k' != k ==> Get(rest, k') == Get(t[1..], k')
    ensures Sorted(r)
    ensures KeySet(r) == KeySet(t) + {k}
    ensures Get(r, k) == Some(v)
    ensures forall k' :: k' != k ==> Get(r, k') == Get(t, k')
  {
    StrLessTrichotomy(k, t[0].0);
    KeySetCons(t[0], t[1..]);
    assert t == [t[0]] + t[1..];
    assert Sorted([t[0]] + rest) by {
      forall j | 0 <= j < |rest| ensures StrLess(t[0].0, rest[j].0) {
        assert rest[j].0 in KeySet(rest);
        if rest[j].0 != k {
          var i :| 0 <= i < |t[1..]| && t[1..][i].0 == rest[j].0;
        }
      }
    }
    KeySetCons(t[0], rest);
    [t[0]] + rest
  }

  /** erase(iterator): drop the entry at position i. */
  function RemoveAt<V>(t: Entries<V>, i: nat): (r: Entries<V>)
    requires i < |t|
    ensures |r| == |t| - 1
    ensures Sorted(t) ==> Sorted(r)
    ensures forall j :: 0 <= j < i ==> r[j] == t[j]
    ensures forall j :: i <= j < |r| ==> r[j] == t[j + 1]
  {
    t[..i] + t[i + 1..]
  }

  /** Entries of t whose key is in ks, in the same order. */
  function Restrict<V>(t: Entries<V>, ks: set<string>): (r: Entries<V>)
    ensures Sorted(t) ==> Sorted(r)
    ensures KeySet(r) == KeySet(t) * ks
    ensures forall i :: 0 <= i < |r| ==> r[i] in t && r[i].0 in ks
    ensures forall i :: 0 <= i < |t| && t[i].0 in ks ==> t[i] in r
    decreases |t|
  {
    if t == [] then []
    else
      var rest := Restrict(t[1..], ks);
      assert KeySet(t) == {t[0].0} + KeySet(t[1..]) by { KeySetCons(t[0], t[1..]); assert t == [t[0]] + t[1..]; }
      if t[0].0 in ks then
        KeySetCons(t[0], rest);
        [t[0]] + rest
      else rest
  }

  /** target.merge(source), target side: every source entry whose key is
      absent from target is moved into it. */
  function MergeInto<V>(target: Entries<V>, source: Entries<V>): (r: Entries<V>)
    requires Sorted(target)
    ensures Sorted(r)
    ensures KeySet(r) == KeySet(target) + KeySet(source)
    ensures forall k :: k in KeySet(target) ==> Get(r, k) == Get(target, k)
    ensures forall k :: k !in KeySet(target) ==> Get(r, k) == Get(source, k)
    decreases |source|
  {
    if source == [] then target
    else
      var k := source[0].0;
      assert KeySet(source) == {k} + KeySet(source[1..]) by {
        KeySetCons(source[0], source[1..]);
        assert source == [source[0]] + source[1..];
      }
      var t' := if k in KeySet(target) then target else Put(target, k, source[0].1);
      var r := MergeInto(t', source[1..]);
      assert forall k' :: k' != k ==> Get(source, k') == Get(source[1..], k');
      r
  }

  /** target.merge(source), source side: only the entries whose key target
      already held stay behind. */
  function MergeLeftover<V>(target: Entries<V>, source: Entries<V>): (r: Entries<V>)
    ensures Sorted(source) ==> Sorted(r)
    ensures KeySet(r) == KeySet(source) * KeySet(target)
  {
    Restrict(source, KeySet(target))
  }

  /** The map a sorted sequence stands for. */
  function View<V>(t: Entries<V>): (m: map<string, V>)
    ensures m.Keys == KeySet(t)
    decreases |t|
  {
    if t == [] then map[]
    else
      assert KeySet(t) == {t[0].0} + KeySet(t[1..]) by {
        KeySetCons(t[0], t[1..]);
        assert t == [t[0]] + t[1..];
      }
      View(t[1..])[t[0].0 := t[0].1]
  }

  /** find() agrees with the map view. */
  lemma {:induction false} ViewGet<V>(t: Entries<V>, k: string)
    ensures Get(t, k) == if k in View(t) then Some(View(t)[k]) else None
    decreases |t|
  {
    if t != [] && t[0].0 != k {
      ViewGet(t[1..], k);
    }
  }

  lemma ViewAt<V>(t: Entries<V>, i: nat)
    requires Sorted(t) && i < |t|
    ensures t[i].0 in View(t) && View(t)[t[i].0] == t[i].1
  {
    GetAt(t, i);
    ViewGet(t, t[i].0);
  }

  lemma RemoveAtKeySet<V>(t: Entries<V>, i: nat)
    requires Sorted(t) && i < |t|
    ensures KeySet(RemoveAt(t, i)) == KeySet(t) - {t[i].0}
  {
    var r := RemoveAt(t, i);
    forall k | k in KeySet(r) ensures k in KeySet(t) - {t[i].0} {
      var p :| 0 <= p < |r| && r[p].0 == k;
      var q := if p < i then p else p + 1;
      assert r[p] == t[q];
      if k == t[i].0 { SortedKeyUnique(t, i, q); }
    }
    forall k | k in KeySet(t) - {t[i].0} ensures k in KeySet(r) {
      var q :| 0 <= q < |t| && t[q].0 == k;
      var p := if q < i then q else q - 1;
      assert r[p] == t[q];
    }
  }

  /** erase at a position removes exactly that key from the map. */
  lemma ViewRemoveAt<V>(t: Entries<V>, i: nat)
    requires Sorted(t) && i < |t|
    ensures View(RemoveAt(t, i)) == View(t) - {t[i].0}
  {
    var r := RemoveAt(t, i);
    RemoveAtKeySet(t, i);
    var a, b := View(r), View(t) - {t[i].0};
    assert a.Keys == b.Keys;
    forall k | k in a ensures a[k] == b[k] {
      var p :| 0 <= p < |r| && r[p].0 == k;
      ViewAt(r, p);
      var q := if p < i then p else p + 1;
      assert r[p] == t[q];
      ViewAt(t, q);
    }
  }

  /** Assigning the value at a position changes only that key's value. */
  lemma ViewSetAt<V>(t: Entries<V>, i: nat, v: V)
    requires Sorted(t) && i < |t|
    ensures Sorted(t[i := (t[i].0, v)])
    ensures View(t[i := (t[i].0, v)]) == View(t)[t[i].0 := v]
  {
    var r := t[i := (t[i].0, v)];
    assert forall p :: 0 <= p < |t| ==> r[p].0 == t[p].0;
    assert KeySet(r) == KeySet(t);
    var a, b := View(r), View(t)[t[i].0 := v];
    forall k | k in a ensures a[k] == b[k] {
      var p :| 0 <= p < |r| && r[p].0 == k;
      ViewAt(r, p);
      if p != i {
        ViewAt(t, p);
        if k == t[i].0 { SortedKeyUnique(t, i, p); }
      } else {
        assert a[k] == v;
      }
    }
  }

  /** operator[] assignment on the map view. */
  lemma ViewPut<V>(t: Entries<V>, k: string, v: V)
    requires Sorted(t)
    ensures View(Put(t, k, v)) == View(t)[k := v]
  {
    var a, b := View(Put(t, k, v)), View(t)[k := v];
    forall k' | k' in a ensures a[k'] == b[k'] {
      ViewGet(Put(t, k, v), k');
      ViewGet(t, k');
    }
  }

  /** The map view of the merged target: target's entries, plus source's
      for the keys target lacks. */
  lemma ViewMergeInto<V>(target: Entries<V>, source: Entries<V>)
    requires Sorted(target)
    ensures View(MergeInto(target, source)) == View(source) + View(target)
  {
    var a, b := View(MergeInto(target, source)), View(source) + View(target);
    forall k | k in a ensures a[k] == b[k] {
      ViewGet(MergeInto(target, source), k);
      ViewGet(target, k);
      ViewGet(source, k);
    }
  }

  lemma RestrictValue<V>(source: Entries<V>, ks: set<string>, k: string)
    requires Sorted(source) && k in View(Restrict(source, ks))
    ensures k in View(source) && View(Restrict(source, ks))[k] == View(source)[k]
  {
    var r := Restrict(source, ks);
    var p :| 0 <= p < |r| && r[p].0 == k;
    ViewAt(r, p);
    assert r[p] in source;
    var q :| 0 <= q < |source| && source[q] == r[p];
    ViewAt(source, q);
  }

  /** The map view of what merge leaves in source: its entries under keys
      target holds. */
  lemma ViewMergeLeftover<V>(target: Entries<V>, source: Entries<V>)
    requires Sorted(source)
    ensures View(MergeLeftover(target, source)) == map k | k in View(source) && k in View(target) :: View(source)[k]
  {
    var a, b := View(MergeLeftover(target, source)), map k | k in View(source) && k in View(target) :: View(source)[k];
    assert a.Keys == b.Keys;
    forall k | k in a ensures a[k] == b[k] {
      RestrictValue(source, KeySet(target), k);
    }
  }

  lemma KeySetSnoc<V>(t: Entries<V>)
    requires t != []
    ensures KeySet(t) == KeySet(t[..|t| - 1]) + {t[|t| - 1].0}
  {
    var init := t[..|t| - 1];
    forall k | k in KeySet(t) ensures k in KeySet(init) + {t[|t| - 1].0} {
      var p :| 0 <= p < |t| && t[p].0 == k;
      if p < |init| { assert init[p].0 == k; }
    }
    forall k | k in KeySet(init) ensures k in KeySet(t) {
      var p :| 0 <= p < |init| && init[p].0 == k;
      assert t[p].0 == k;
    }
  }

  /** The last entry of a sorted table holds a key no earlier entry holds. */
  lemma ViewSnoc<V>(t: Entries<V>)
    requires Sorted(t) && t != []
    ensures Sorted(t[..|t| - 1])
    ensures t[|t| - 1].0 !in View(t[..|t| - 1])
    ensures View(t) == View(t[..|t| - 1])[t[|t| - 1].0 := t[|t| - 1].1]
  {
    var init, last := t[..|t| - 1], t[|t| - 1];
    assert Sorted(init) by {
      forall i, j | 0 <= i < j < |init| ensures StrLess(init[i].0, init[j].0) {
        assert init[i] == t[i] && init[j] == t[j];
      }
    }
    assert last.0 !in KeySet(init) by {
      forall p | 0 <= p < |init| ensures init[p].0 != last.0 {
        assert init[p] == t[p];
        StrLessIrreflexive(last.0);
      }
    }
    ViewSnocMap(t);
  }

  lemma {:induction false} ViewSnocMap<V>(t: Entries<V>)
    requires Sorted(t) && t != []
    ensures View(t) == View(t[..|t| - 1])[t[|t| - 1].0 := t[|t| - 1].1]
    decreases |t|
  {
    if |t| > 1 {
      var tail, init, last := t[1..], t[..|t| - 1], t[|t| - 1];
      SortedTail(t);
      ViewSnocMap(tail);
      assert tail[..|tail| - 1] == init[1..];
      assert tail[|tail| - 1] == last;
      assert t[0].0 != last.0 by {
        StrLessIrreflexive(last.0);
      }
      assert init[0] == t[0];
      UpdatesCommute(View(init[1..]), t[0].0, t[0].1, last.0, last.1);
    }
  }

  lemma UpdatesCommute<V>(m: map<string, V>, k1: string, v1: V, k2: string, v2: V)
    requires k1 != k2
    ensures m[k2 := v2][k1 := v1] == m[k1 := v1][k2 := v2]
  {
  }

  /** A prefix of a sorted table is a sorted sub-table: the first n entries
      in key order. */
  lemma ViewPrefix<V>(t: Entries<V>, n: nat)
    requires Sorted(t) && n <= |t|
    ensures Sorted(t[..n])
    ensures forall k :: k in View(t[..n]) ==> k in View(t) && View(t[..n])[k] == View(t)[k]
    ensures forall j, k :: k in View(t[..n]) && j in View(t) && StrLess(j, k) ==> j in View(t[..n])
  {
    var h := t[..n];
    assert Sorted(h) by {
      forall i, j | 0 <= i < j < |h| ensures StrLess(h[i].0, h[j].0) {
        assert h[i] == t[i] && h[j] == t[j];
      }
    }
    forall k | k in View(h) ensures k in View(t) && View(h)[k] == View(t)[k] {
      var p :| 0 <= p < |h| && h[p].0 == k;
      assert h[p] == t[p];
      ViewAt(h, p);
      ViewAt(t, p);
    }
    forall j, k | k in View(h) && j in View(t) && StrLess(j, k) ensures j in View(h) {
      PrefixClosed(t, n, j, k);
    }
  }

  lemma PrefixClosed<V>(t: Entries<V>, n: nat, j: string, k: string)
    requires Sorted(t) && n <= |t|
    requires k in KeySet(t[..n]) && j in KeySet(t) && StrLess(j, k)
    ensures j in KeySet(t[..n])
  {
    var p :| 0 <= p < n && t[..n][p].0 == k;
    var q :| 0 <= q < |t| && t[q].0 == j;
    assert t[p].0 == k;
    if q == p {
      StrLessIrreflexive(j);
      assert false;
    } else if q > p {
      StrLessAsymmetric(j, k);
      assert false;
    }
    assert t[..n][q].0 == j;
  }
}
