/**
 * Python's `OrderedDict` from subtitle text to timestamp: its keys in
 * insertion order beside the key-to-value map. Assigning `d[k] = v`
 * replaces the value of an existing key and leaves its position alone, and
 * appends a new key at the end.
 */
module OrderedDict {

  /** One assignment `d[key] = value`. */
  datatype Entry = Entry(key: string, value: string)

  datatype Table = Table(keys: seq<string>, values: map<string, string>)

  /** `OrderedDict()`. */
  const Empty: Table := Table([], map[])

  predicate Distinct(ks: seq<string>) {
    forall i, j :: 0 <= i < j < |ks| ==> ks[i] != ks[j]
  }

  /** Every table an `OrderedDict` can be in: each key listed once, and only the map's keys. */
  predicate Valid(t: Table) {
    && Distinct(t.keys)
    && (forall k :: k in t.values ==> k in t.keys)
    && (forall i :: 0 <= i < |t.keys| ==> t.keys[i] in t.values)
  }

  /** `d[e.key] = e.value`. */
  function Put(t: Table, e: Entry): (r: Table)
    ensures Valid(t) ==> Valid(r)
  {
    if e.key in t.values then Table(t.keys, t.values[e.key := e.value])
    else Table(t.keys + [e.key], t.values[e.key := e.value])
  }

  /** The table after the assignments `es`, made in order. */
  function PutAll(t: Table, es: seq<Entry>): (r: Table)
    decreases |es|
    ensures Valid(t) ==> Valid(r)
  {
    if es == [] then t else Put(PutAll(t, es[..|es| - 1]), es[|es| - 1])
  }

  /** The keys the assignments `es` name, in order and with repeats. */
  function KeysOf(es: seq<Entry>): (ks: seq<string>)
    ensures |ks| == |es|
    ensures forall i :: 0 <= i < |es| ==> ks[i] == es[i].key
  {
    if es == [] then [] else KeysOf(es[..|es| - 1]) + [es[|es| - 1].key]
  }

  /** Assigning a key the value it already has changes nothing, position included. */
  lemma PutPresent(t: Table, e: Entry)
    requires e.key in t.values && t.values[e.key] == e.value
    ensures Put(t, e) == t
  {
    assert t.values[e.key := e.value] == t.values;
  }

  /** Two assignments to different keys list both keys, in assignment order. */
  lemma PutAllTwo(e1: Entry, e2: Entry)
    requires e1.key != e2.key
    ensures PutAll(Empty, [e1, e2]).keys == [e1.key, e2.key]
  {
    assert [e1, e2][..1] == [e1] && [e1][..0] == [];
    assert PutAll(Empty, [e1]) == Put(Empty, e1);
    assert Put(Empty, e1).keys == [e1.key] && e2.key !in Put(Empty, e1).values;
  }

  /** A table built from empty holds exactly the keys assigned. */
  lemma {:induction false} PutAllKeys(es: seq<Entry>)
    ensures forall k :: k in PutAll(Empty, es).values <==> k in KeysOf(es)
    decreases |es|
  {
    if es != [] {
      PutAllKeys(es[..|es| - 1]);
      assert KeysOf(es) == KeysOf(es[..|es| - 1]) + [es[|es| - 1].key];
    }
  }

  /**
   * The last assignment to a key wins: when `es` assigns `k := v` and never
   * assigns `k` again, the table maps `k` to `v`.
   */
  lemma {:induction false} PutAllLastWins(t: Table, es1: seq<Entry>, e: Entry, es2: seq<Entry>)
    requires forall j :: 0 <= j < |es2| ==> es2[j].key != e.key
    ensures e.key in PutAll(t, es1 + [e] + es2).values
    ensures PutAll(t, es1 + [e] + es2).values[e.key] == e.value
    decreases |es2|
  {
    var es := es1 + [e] + es2;
    if es2 == [] {
      assert es[..|es| - 1] == es1 && es[|es| - 1] == e;
    } else {
      var init, x := es2[..|es2| - 1], es2[|es2| - 1];
      assert es2 == init + [x];
      assert es == (es1 + [e] + init) + [x];
      PutAllSnoc(t, es1 + [e] + init, x);
      PutAllLastWins(t, es1, e, init);
      PutOther(PutAll(t, es1 + [e] + init), x, e.key);
    }
  }

  /** The assignments `es` and then `x`. */
  lemma PutAllSnoc(t: Table, es: seq<Entry>, x: Entry)
    ensures PutAll(t, es + [x]) == Put(PutAll(t, es), x)
  {
    assert (es + [x])[..|es|] == es;
  }

  /** An assignment to another key leaves a key's value alone. */
  lemma PutOther(t: Table, e: Entry, k: string)
    requires k in t.values && e.key != k
    ensures k in Put(t, e).values && Put(t, e).values[k] == t.values[k]
  {
  }

  /** `sub` holds no key that `sup` lacks and agrees with `sup` on every key it holds. */
  ghost predicate SubTable(sub: Table, sup: Table) {
    forall k :: k in sub.values ==> k in sup.values && sub.values[k] == sup.values[k]
  }

  /** Assignments taken from `sup` keep a sub-table of `sup` a sub-table of it. */
  lemma {:induction false} PutAllWithin(t: Table, es: seq<Entry>, sup: Table)
    requires SubTable(t, sup)
    requires forall j :: 0 <= j < |es| ==> es[j].key in sup.values && sup.values[es[j].key] == es[j].value
    ensures SubTable(PutAll(t, es), sup)
    decreases |es|
  {
    if es != [] {
      PutAllWithin(t, es[..|es| - 1], sup);
    }
  }

  /** When no assignment's key or value contains `c`, neither does any key or value of the table. */
  lemma {:induction false} PutAllAvoids(es: seq<Entry>, c: char)
    requires forall j :: 0 <= j < |es| ==> c !in es[j].key && c !in es[j].value
    ensures forall k :: k in PutAll(Empty, es).values ==> c !in k && c !in PutAll(Empty, es).values[k]
    decreases |es|
  {
    if es != [] {
      PutAllAvoids(es[..|es| - 1], c);
    }
  }

  /** The position of the first occurrence of `k` in `ks`. */
  function FirstIndex(ks: seq<string>, k: string): (p: nat)
    requires k in ks
    ensures p < |ks| && ks[p] == k
    ensures forall j :: 0 <= j < p ==> ks[j] != k
  {
    if ks[0] == k then 0 else 1 + FirstIndex(ks[1..], k)
  }

  /** In a sequence without repeats, the first occurrence of the element at `p` is `p`. */
  lemma FirstIndexDistinct(ks: seq<string>, p: nat)
    requires Distinct(ks) && p < |ks|
    ensures FirstIndex(ks, ks[p]) == p
  {
    var q := FirstIndex(ks, ks[p]);
    assert !(q < p) && !(p < q);
  }

  /** Appending to a sequence does not move the first occurrence of a key already in it. */
  lemma FirstIndexAppend(ks: seq<string>, x: string, k: string)
    requires k in ks
    ensures FirstIndex(ks + [x], k) == FirstIndex(ks, k)
  {
    var p := FirstIndex(ks, k);
    var q := FirstIndex(ks + [x], k);
    assert (ks + [x])[p] == k;
    assert ks[q] == k;
  }

  /** `keys` lists keys of `ks` in the order of their first occurrence in `ks`. */
  ghost predicate FirstOccurrenceOrder(keys: seq<string>, ks: seq<string>) {
    && (forall i :: 0 <= i < |keys| ==> keys[i] in ks)
    && (forall i, j :: 0 <= i < j < |keys| ==> FirstIndex(ks, keys[i]) < FirstIndex(ks, keys[j]))
  }

  /** A later occurrence does not disturb first-occurrence order. */
  lemma OrderAppend(keys: seq<string>, ks: seq<string>, x: string)
    requires FirstOccurrenceOrder(keys, ks)
    ensures FirstOccurrenceOrder(keys, ks + [x])
  {
    forall i | 0 <= i < |keys| ensures keys[i] in ks + [x] && FirstIndex(ks + [x], keys[i]) == FirstIndex(ks, keys[i]) {
      FirstIndexAppend(ks, x, keys[i]);
    }
  }

  /** A key first occurring at the end comes after all the others. */
  lemma OrderAppendNew(keys: seq<string>, ks: seq<string>, x: string)
    requires FirstOccurrenceOrder(keys, ks) && x !in ks
    ensures FirstOccurrenceOrder(keys + [x], ks + [x])
  {
    OrderAppend(keys, ks, x);
    var ks', keys' := ks + [x], keys + [x];
    assert FirstIndex(ks', x) == |ks|;
    forall i | 0 <= i < |keys| ensures FirstIndex(ks', keys'[i]) < FirstIndex(ks', x) {
      assert keys'[i] == keys[i];
    }
    forall i, j | 0 <= i < j < |keys'| ensures FirstIndex(ks', keys'[i]) < FirstIndex(ks', keys'[j]) {
      if j < |keys| {
        assert keys'[i] == keys[i] && keys'[j] == keys[j];
      }
    }
  }

  /** One assignment keeps the keys in first-occurrence order. */
  lemma PutKeepsOrder(t: Table, ks: seq<string>, e: Entry)
    requires Valid(t) && FirstOccurrenceOrder(t.keys, ks)
    requires forall k :: k in t.keys <==> k in ks
    ensures FirstOccurrenceOrder(Put(t, e).keys, ks + [e.key])
  {
    if e.key in t.values {
      OrderAppend(t.keys, ks, e.key);
    } else {
      OrderAppendNew(t.keys, ks, e.key);
    }
  }

  /**
   * A table built from empty lists its keys in the order in which each was
   * first assigned: a later assignment never moves a key.
   */
  lemma {:induction false} PutAllFirstAssignmentOrder(es: seq<Entry>)
    ensures FirstOccurrenceOrder(PutAll(Empty, es).keys, KeysOf(es))
    decreases |es|
  {
    if es != [] {
      var init := es[..|es| - 1];
      var last := es[|es| - 1];
      var t := PutAll(Empty, init);
      assert PutAll(Empty, es) == Put(t, last);
      assert KeysOf(es) == KeysOf(init) + [last.key];
      assert Valid(Empty);
      PutAllFirstAssignmentOrder(init);
      PutAllKeys(init);
      PutKeepsOrder(t, KeysOf(init), last);
    }
  }

  /** The assignments that rebuild `t`: each key, in order, with its value. */
  function Items(t: Table): (es: seq<Entry>)
    requires Valid(t)
  {
    seq(|t.keys|, i requires 0 <= i < |t.keys| => Entry(t.keys[i], t.values[t.keys[i]]))
  }

  /** `t` without its newest key. */
  function DropLast(t: Table): Table
    requires t.keys != []
  {
    Table(t.keys[..|t.keys| - 1], t.values - {t.keys[|t.keys| - 1]})
  }

  /** Dropping the newest key of a table leaves a table whose items are the other items. */
  lemma DropLastItems(t: Table)
    requires Valid(t) && t.keys != []
    ensures Valid(DropLast(t))
    ensures Items(t)[..|t.keys| - 1] == Items(DropLast(t))
  {
    DropLastValid(t);
    var n := |t.keys|;
    var init := DropLast(t);
    forall i | 0 <= i < n - 1 ensures Items(t)[i] == Items(init)[i] {
      assert t.keys[i] != t.keys[n - 1];
    }
  }

  /** Dropping the newest key of a table leaves a table. */
  lemma DropLastValid(t: Table)
    requires Valid(t) && t.keys != []
    ensures Valid(DropLast(t))
  {
    var n := |t.keys|;
    var init := DropLast(t);
    forall k | k in init.values ensures k in init.keys {
      var i :| 0 <= i < n && t.keys[i] == k;
      assert i < n - 1 && init.keys[i] == k;
    }
    forall i | 0 <= i < n - 1 ensures init.keys[i] in init.values {
      assert t.keys[i] != t.keys[n - 1];
    }
  }

  /** Removing a key and assigning it its old value gives back the map. */
  lemma RestoreRemoved(m: map<string, string>, k: string)
    requires k in m
    ensures (m - {k})[k := m[k]] == m
  {
    var r := (m - {k})[k := m[k]];
    assert forall x :: x in r <==> x in m;
    assert forall x :: x in r ==> r[x] == m[x];
  }

  /** Assigning the items of a table, in order, to an empty table rebuilds it. */
  lemma {:induction false} PutAllItems(t: Table)
    requires Valid(t)
    ensures PutAll(Empty, Items(t)) == t
    decreases |t.keys|
  {
    if t.keys != [] {
      var n := |t.keys|;
      var last := t.keys[n - 1];
      var init := DropLast(t);
      DropLastValid(t);
      PutAllItems(init);
      ItemsSnoc(t);
      PutAllSnoc(Empty, Items(init), Entry(last, t.values[last]));
      PutDropLast(t);
    }
  }

  /** The items of a table are those without its newest key, then the newest. */
  lemma ItemsSnoc(t: Table)
    requires Valid(t) && t.keys != []
    ensures Valid(DropLast(t))
    ensures Items(t) == Items(DropLast(t)) + [Entry(t.keys[|t.keys| - 1], t.values[t.keys[|t.keys| - 1]])]
  {
    var n := |t.keys|;
    var items := Items(t);
    DropLastItems(t);
    assert items == items[..n - 1] + [items[n - 1]];
  }

  /** Assigning the newest key its value again, after dropping it, gives back the table. */
  lemma PutDropLast(t: Table)
    requires Valid(t) && t.keys != []
    ensures Put(DropLast(t), Entry(t.keys[|t.keys| - 1], t.values[t.keys[|t.keys| - 1]])) == t
  {
    var n := |t.keys|;
    var last := t.keys[n - 1];
    assert last !in DropLast(t).values;
    RestoreRemoved(t.values, last);
    assert t.keys[..n - 1] + [last] == t.keys;
  }
}
