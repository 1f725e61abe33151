/** Python dictionaries: key/value items in order of insertion. */
module Dicts {
  import opened Results

  datatype Item<K, V> = Item(key: K, value: V)

  type Dict<K, V> = seq<Item<K, V>>

  function Keys<K, V>(d: Dict<K, V>): (r: seq<K>)
    ensures |r| == |d| && forall i | 0 <= i < |d| :: r[i] == d[i].key
  {
    seq(|d|, i requires 0 <= i < |d| => d[i].key)
  }

  /** A dictionary holds no key twice. */
  ghost predicate IsDict<K, V>(d: Dict<K, V>) {
    NoDuplicates(Keys(d))
  }

  ghost predicate NoDuplicates<T>(s: seq<T>) {
    forall i, j | 0 <= i < j < |s| :: s[i] != s[j]
  }

  /** `d.get(k)` */
  function Get<K(==), V>(d: Dict<K, V>, k: K): Option<V> {
    if d == [] then None
    else if d[|d| - 1].key == k then Some(d[|d| - 1].value)
    else Get(d[..|d| - 1], k)
  }

  predicate Has<K(==), V>(d: Dict<K, V>, k: K) {
    Get(d, k).Some?
  }

  /** `d[k] = v`: an existing key keeps its place, a new one goes last. */
  function Put<K(==), V>(d: Dict<K, V>, k: K, v: V): (r: Dict<K, V>)
    ensures |r| == if Has(d, k) then |d| else |d| + 1
  {
    if d == [] then [Item(k, v)]
    else if d[|d| - 1].key == k then d[..|d| - 1] + [Item(k, v)]
    else if !Has(d, k) then d + [Item(k, v)]
    else Put(d[..|d| - 1], k, v) + [d[|d| - 1]]
  }

  /** `d.pop(k, None)` */
  function Pop<K(==), V>(d: Dict<K, V>, k: K): Dict<K, V> {
    if d == [] then []
    else Pop(d[..|d| - 1], k) + if d[|d| - 1].key == k then [] else [d[|d| - 1]]
  }

  /** `{**a, **b}` */
  function Merge<K(==), V>(a: Dict<K, V>, b: Dict<K, V>): Dict<K, V> {
    if b == [] then a else Put(Merge(a, b[..|b| - 1]), b[|b| - 1].key, b[|b| - 1].value)
  }

  /** The dictionary built by setting the first `n` items one after the other. */
  function FromItems<K(==), V>(items: seq<Item<K, V>>, n: nat): Dict<K, V>
    requires n <= |items|
  {
    if n == 0 then [] else Put(FromItems(items, n - 1), items[n - 1].key, items[n - 1].value)
  }

  lemma {:induction false} HasKey<K, V>(d: Dict<K, V>, k: K)
    ensures Has(d, k) <==> k in Keys(d)
    ensures Has(d, k) <==> exists i | 0 <= i < |d| :: d[i].key == k
  {
    if d != [] {
      HasKey(d[..|d| - 1], k);
      assert Keys(d) == Keys(d[..|d| - 1]) + [d[|d| - 1].key];
    }
  }

  lemma {:induction false} GetItem<K, V>(d: Dict<K, V>, i: nat)
    requires i < |d| && IsDict(d)
    ensures Get(d, d[i].key) == Some(d[i].value)
  {
    assert forall j | 0 <= j < |d| :: Keys(d)[j] == d[j].key;
    if i != |d| - 1 {
      assert forall j | 0 <= j < |d| - 1 :: Keys(d[..|d| - 1])[j] == Keys(d)[j];
      GetItem(d[..|d| - 1], i);
    }
  }

  lemma {:induction false} GetPut<K, V>(d: Dict<K, V>, k: K, v: V, x: K)
    ensures Get(Put(d, k, v), x) == if x == k then Some(v) else Get(d, x)
  {
    if d != [] && d[|d| - 1].key != k && Has(d, k) {
      var init := d[..|d| - 1];
      GetPut(init, k, v, x);
      assert Put(d, k, v)[..|Put(init, k, v)|] == Put(init, k, v);
    } else if d != [] {
      assert (d + [Item(k, v)])[..|d|] == d;
    }
  }

  lemma {:induction false} GetPop<K, V>(d: Dict<K, V>, k: K, x: K)
    ensures Get(Pop(d, k), x) == if x == k then None else Get(d, x)
  {
    if d != [] {
      var init := d[..|d| - 1];
      GetPop(init, k, x);
      if d[|d| - 1].key == k {
        assert Pop(d, k) == Pop(init, k);
      } else {
        assert Pop(d, k)[..|Pop(init, k)|] == Pop(init, k);
      }
    }
  }

  /** Merging has the right-hand value wherever there is one. */
  lemma {:induction false} GetMerge<K, V>(a: Dict<K, V>, b: Dict<K, V>, x: K)
    ensures Get(Merge(a, b), x) == if Has(b, x) then Get(b, x) else Get(a, x)
  {
    if b != [] {
      GetMerge(a, b[..|b| - 1], x);
      GetPut(Merge(a, b[..|b| - 1]), b[|b| - 1].key, b[|b| - 1].value, x);
    }
  }

  lemma {:induction false} PutKeys<K, V>(d: Dict<K, V>, k: K, v: V)
    ensures Keys(Put(d, k, v)) == if Has(d, k) then Keys(d) else Keys(d) + [k]
  {
    if d != [] && d[|d| - 1].key != k && Has(d, k) {
      PutKeys(d[..|d| - 1], k, v);
    }
  }

  lemma {:induction false} PutNew<K, V>(d: Dict<K, V>, k: K, v: V)
    requires !Has(d, k)
    ensures Put(d, k, v) == d + [Item(k, v)]
  {
  }

  lemma {:induction false} PutKeepsDict<K, V>(d: Dict<K, V>, k: K, v: V)
    requires IsDict(d)
    ensures IsDict(Put(d, k, v))
  {
    PutKeys(d, k, v);
    HasKey(d, k);
  }

  lemma {:induction false} PopKeepsDict<K, V>(d: Dict<K, V>, k: K)
    requires IsDict(d)
    ensures IsDict(Pop(d, k))
  {
    if d != [] {
      var init, last := d[..|d| - 1], d[|d| - 1];
      assert forall i | 0 <= i < |init| :: Keys(init)[i] == Keys(d)[i];
      PopKeepsDict(init, k);
      if last.key != k {
        HasKey(init, last.key);
        GetPop(init, k, last.key);
        assert Keys(d)[|d| - 1] == last.key;
        PutKeepsDict(Pop(init, k), last.key, last.value);
        PutNew(Pop(init, k), last.key, last.value);
      }
    }
  }

  lemma {:induction false} MergeKeepsDict<K, V>(a: Dict<K, V>, b: Dict<K, V>)
    requires IsDict(a)
    ensures IsDict(Merge(a, b))
  {
    if b != [] {
      MergeKeepsDict(a, b[..|b| - 1]);
      PutKeepsDict(Merge(a, b[..|b| - 1]), b[|b| - 1].key, b[|b| - 1].value);
    }
  }

  lemma {:induction false} FromItemsIsDict<K, V>(items: seq<Item<K, V>>, n: nat)
    requires n <= |items|
    ensures IsDict(FromItems(items, n))
  {
    if n != 0 {
      FromItemsIsDict(items, n - 1);
      PutKeepsDict(FromItems(items, n - 1), items[n - 1].key, items[n - 1].value);
    }
  }

  /** The items of a dictionary are what looking up its keys gives. */
  lemma {:induction false} ItemsAreLookups<K, V>(d: Dict<K, V>, item: Item<K, V>)
    requires IsDict(d)
    ensures item in d <==> Get(d, item.key) == Some(item.value)
  {
    if item in d {
      var i :| 0 <= i < |d| && d[i] == item;
      GetItem(d, i);
    }
    if Get(d, item.key) == Some(item.value) { LookupIsItem(d, item.key); }
  }

  lemma {:induction false} LookupIsItem<K, V>(d: Dict<K, V>, k: K)
    requires Has(d, k)
    ensures Item(k, Get(d, k).value) in d
  {
    if d[|d| - 1].key != k { LookupIsItem(d[..|d| - 1], k); }
  }

  lemma {:induction false} PutSame<K, V>(d: Dict<K, V>, k: K, v: V)
    requires Get(d, k) == Some(v)
    ensures Put(d, k, v) == d
  {
    if d[|d| - 1].key != k { PutSame(d[..|d| - 1], k, v); }
  }

  lemma {:induction false} PopAbsent<K, V>(d: Dict<K, V>, k: K)
    requires !Has(d, k)
    ensures Pop(d, k) == d
  {
    if d != [] {
      var init, last := d[..|d| - 1], d[|d| - 1];
      PopAbsent(init, k);
      assert Pop(d, k) == init + [last];
    }
  }

  /** Every item after a put is the new one or was there before. */
  lemma {:induction false} PutItem<K, V>(d: Dict<K, V>, k: K, v: V, item: Item<K, V>)
    requires item in Put(d, k, v)
    ensures item == Item(k, v) || item in d
  {
    if d != [] && d[|d| - 1].key != k && Has(d, k) && item != d[|d| - 1] {
      PutItem(d[..|d| - 1], k, v, item);
    }
  }

  /** Setting a key that is there changes its value in place. */
  lemma {:induction false} PutInPlace<K, V>(d: Dict<K, V>, k: K, v: V)
    requires Has(d, k)
    ensures exists i | 0 <= i < |d| :: d[i].key == k && Put(d, k, v) == d[i := Item(k, v)]
  {
    var last := |d| - 1;
    if d[last].key == k {
      assert Put(d, k, v) == d[last := Item(k, v)];
    } else {
      PutInPlace(d[..last], k, v);
      var i :| 0 <= i < last && d[i].key == k && Put(d[..last], k, v) == d[..last][i := Item(k, v)];
      assert Put(d, k, v) == d[i := Item(k, v)];
    }
  }

  function Without<T>(s: seq<T>, i: nat): seq<T>
    requires i < |s|
  {
    s[..i] + s[i + 1..]
  }

  lemma {:induction false} WithoutInside<T>(s: seq<T>, i: nat)
    requires i < |s| - 1
    ensures Without(s[..|s| - 1], i) + [s[|s| - 1]] == Without(s, i)
  {
  }

  /** Popping takes out the item of the key and leaves the others in order. */
  lemma {:induction false} PopTakesOut<K, V>(d: Dict<K, V>, k: K)
    requires IsDict(d) && Has(d, k)
    ensures exists i | 0 <= i < |d| :: d[i].key == k && Pop(d, k) == Without(d, i)
  {
    var last := |d| - 1;
    var init := d[..last];
    assert forall i | 0 <= i < last :: Keys(init)[i] == Keys(d)[i];
    if d[last].key == k {
      assert Keys(d)[last] == k;
      HasKey(init, k);
      PopAbsent(init, k);
      assert Without(d, last) == init;
    } else {
      PopTakesOut(init, k);
      var i: nat :| i < last && init[i].key == k && Pop(init, k) == Without(init, i);
      WithoutInside(d, i);
    }
  }

  /** A key has the value it was last set to. */
  lemma {:induction false} LastItemWins<K, V>(items: seq<Item<K, V>>, n: nat, i: nat)
    requires i < n <= |items|
    requires forall j | i < j < n :: items[j].key != items[i].key
    ensures Get(FromItems(items, n), items[i].key) == Some(items[i].value)
  {
    GetPut(FromItems(items, n - 1), items[n - 1].key, items[n - 1].value, items[i].key);
    if i != n - 1 { LastItemWins(items, n - 1, i); }
  }

  /** Every item of the result was set at some point. */
  lemma {:induction false} ItemWasSet<K, V>(items: seq<Item<K, V>>, n: nat, item: Item<K, V>)
    requires n <= |items| && item in FromItems(items, n)
    ensures item in items[..n]
  {
    if n != 0 {
      PutItem(FromItems(items, n - 1), items[n - 1].key, items[n - 1].value, item);
      assert items[..n] == items[..n - 1] + [items[n - 1]];
      if item != items[n - 1] { ItemWasSet(items, n - 1, item); }
    }
  }
}
