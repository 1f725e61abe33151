/** Items that each claim a list of names, and when no name is claimed twice. */
module Claims {
  import opened Dicts
  import opened Results

  /** The names claimed by the first `n` items, in order. */
  function AllNames<R>(items: seq<R>, names: R -> seq<string>, n: nat): seq<string>
    requires n <= |items|
  {
    if n == 0 then [] else AllNames(items, names, n - 1) + names(items[n - 1])
  }

  ghost predicate Disjoint(a: seq<string>, b: seq<string>) {
    forall x | x in a :: x !in b
  }

  ghost predicate PairwiseDistinct<R>(items: seq<R>, names: R -> seq<string>, n: nat)
    requires n <= |items|
  {
    && (forall i | 0 <= i < n :: NoDuplicates(names(items[i])))
    && forall i, j | 0 <= i < j < n :: Disjoint(names(items[j]), names(items[i]))
  }

  lemma {:induction false} DistinctConcat<T>(a: seq<T>, b: seq<T>)
    ensures NoDuplicates(a + b) <==> NoDuplicates(a) && NoDuplicates(b) && forall x | x in b :: x !in a
  {
    var c := a + b;
    if NoDuplicates(a) && NoDuplicates(b) && forall x | x in b :: x !in a {
      forall i, j | 0 <= i < j < |c| ensures c[i] != c[j] {
        if i < |a| <= j { assert c[j] in b && c[i] in a; }
      }
    }
    if NoDuplicates(c) {
      assert forall i | 0 <= i < |a| :: c[i] == a[i];
      assert forall i | 0 <= i < |b| :: c[|a| + i] == b[i];
      forall x | x in b ensures x !in a {
        var j :| 0 <= j < |b| && b[j] == x;
        assert forall i | 0 <= i < |a| :: c[i] != c[|a| + j];
      }
    }
  }

  lemma {:induction false} AllNamesMember<R>(items: seq<R>, names: R -> seq<string>, n: nat, x: string)
    requires n <= |items|
    ensures x in AllNames(items, names, n) <==> exists i | 0 <= i < n :: x in names(items[i])
  {
    if n != 0 { AllNamesMember(items, names, n - 1, x); }
  }

  /** No name occurs twice in the whole list just when the items are distinct pair by pair. */
  lemma {:induction false} DistinctIsPairwise<R>(items: seq<R>, names: R -> seq<string>, n: nat)
    requires n <= |items|
    ensures NoDuplicates(AllNames(items, names, n)) <==> PairwiseDistinct(items, names, n)
  {
    if n != 0 {
      DistinctIsPairwise(items, names, n - 1);
      var before, last := AllNames(items, names, n - 1), names(items[n - 1]);
      DistinctConcat(before, last);
      forall x: string ensures x in before <==> exists i | 0 <= i < n - 1 :: x in names(items[i]) {
        AllNamesMember(items, names, n - 1, x);
      }
      if forall x | x in last :: x !in before {
        assert forall i | 0 <= i < n - 1 :: Disjoint(last, names(items[i]));
      } else {
        var x :| x in last && x in before;
        var i :| 0 <= i < n - 1 && x in names(items[i]);
        assert !Disjoint(last, names(items[i]));
      }
    }
  }

  /** The same property read off the bag of items, where order plays no part. */
  ghost predicate BagDistinct<R>(bag: multiset<R>, names: R -> seq<string>) {
    && (forall r | r in bag :: bag[r] == 1 && NoDuplicates(names(r)))
    && forall r, q | r in bag && q in bag && r != q :: Disjoint(names(r), names(q))
  }

  lemma {:induction false} TwiceInBag<T>(s: seq<T>, i: nat, j: nat)
    requires i < j < |s| && s[i] == s[j]
    ensures multiset(s)[s[i]] >= 2
  {
    assert s == s[..j] + [s[j]] + s[j + 1..];
    assert s[..j][i] in multiset(s[..j]);
  }

  lemma {:induction false} IndicesFromBag<T>(s: seq<T>, x: T) returns (i: nat, j: nat)
    requires multiset(s)[x] >= 2
    ensures i < j < |s| && s[i] == s[j] == x
  {
    assert s == s[..|s| - 1] + [s[|s| - 1]];
    if s[|s| - 1] == x {
      assert multiset(s[..|s| - 1])[x] >= 1;
      assert x in s[..|s| - 1];
      i :| 0 <= i < |s| - 1 && s[i] == x;
      j := |s| - 1;
    } else {
      i, j := IndicesFromBag(s[..|s| - 1], x);
    }
  }

  lemma {:induction false} DistinctItemsDiffer<R>(items: seq<R>, names: R -> seq<string>, i: nat, j: nat)
    requires i < j < |items| && PairwiseDistinct(items, names, |items|)
    requires names(items[j]) != []
    ensures items[i] != items[j]
  {
    var x := names(items[j])[0];
    assert x in names(items[j]);
    assert Disjoint(names(items[j]), names(items[i]));
  }

  lemma {:induction false} PairwiseIsBag<R>(items: seq<R>, names: R -> seq<string>)
    requires forall r | r in items :: names(r) != []
    ensures PairwiseDistinct(items, names, |items|) <==> BagDistinct(multiset(items), names)
  {
    var bag := multiset(items);
    if PairwiseDistinct(items, names, |items|) {
      forall r | r in bag ensures bag[r] == 1 && NoDuplicates(names(r)) {
        var k :| 0 <= k < |items| && items[k] == r;
        if bag[r] != 1 {
          var i, j := IndicesFromBag(items, r);
          DistinctItemsDiffer(items, names, i, j);
        }
      }
      forall r, q | r in bag && q in bag && r != q ensures Disjoint(names(r), names(q)) {
        var i :| 0 <= i < |items| && items[i] == r;
        var j :| 0 <= j < |items| && items[j] == q;
        if i < j { assert Disjoint(names(q), names(r)); } else { assert Disjoint(names(r), names(q)); }
      }
    }
    if BagDistinct(bag, names) {
      assert forall i | 0 <= i < |items| :: items[i] in bag;
      forall i, j | 0 <= i < j < |items| ensures Disjoint(names(items[j]), names(items[i])) {
        if items[i] == items[j] { TwiceInBag(items, i, j); }
      }
    }
  }

  /** The first name of the last of the first `n` items that claims `x`. */
  function Owner<R>(items: seq<R>, names: R -> seq<string>, n: nat, x: string): Option<string>
    requires n <= |items|
  {
    if n == 0 then None
    else
      var claimed := names(items[n - 1]);
      if x in claimed then Some(claimed[0]) else Owner(items, names, n - 1, x)
  }

  lemma {:induction false} OwnerIsEarlier<R>(items: seq<R>, names: R -> seq<string>, n: nat, x: string)
    requires n <= |items|
    ensures Owner(items, names, n, x).Some? <==> exists i | 0 <= i < n :: x in names(items[i])
  {
    if n != 0 { OwnerIsEarlier(items, names, n - 1, x); }
  }

  /** None of the names of item `j` has an owner before it just when it is disjoint from all earlier items. */
  lemma {:induction false} UnownedIsDisjoint<R>(items: seq<R>, names: R -> seq<string>, j: nat)
    requires j < |items|
    ensures (forall x | x in names(items[j]) :: Owner(items, names, j, x).None?)
            <==> forall i | 0 <= i < j :: Disjoint(names(items[j]), names(items[i]))
  {
    var own := names(items[j]);
    forall x: string ensures Owner(items, names, j, x).Some? <==> exists i | 0 <= i < j :: x in names(items[i]) {
      OwnerIsEarlier(items, names, j, x);
    }
    if x :| x in own && Owner(items, names, j, x).Some? {
      var i :| 0 <= i < j && x in names(items[i]);
      assert !Disjoint(own, names(items[i]));
    } else {
      assert forall i | 0 <= i < j :: Disjoint(own, names(items[i]));
    }
  }

  lemma {:induction false} ReorderKeepsDistinct<R>(items: seq<R>, shuffled: seq<R>, names: R -> seq<string>)
    requires multiset(items) == multiset(shuffled)
    requires forall r | r in items :: names(r) != []
    ensures NoDuplicates(AllNames(items, names, |items|)) <==> NoDuplicates(AllNames(shuffled, names, |shuffled|))
  {
    forall r | r in shuffled ensures r in items { assert r in multiset(items); }
    DistinctIsPairwise(items, names, |items|);
    DistinctIsPairwise(shuffled, names, |shuffled|);
    PairwiseIsBag(items, names);
    PairwiseIsBag(shuffled, names);
  }
}
