/** Groupers that turn a flat batch into transaction groups and row groups. */
module Grouping {
  import opened Hlc
  import opened TextOrder

  datatype Bucket<K, T> = Bucket(key: K, items: seq<T>)

  /** The items among the first `n` under key `k`, in order. */
  function HavingUpTo<T, K(==)>(items: seq<T>, keyOf: T -> K, k: K, n: nat): seq<T>
    requires n <= |items|
  {
    if n == 0 then []
    else HavingUpTo(items, keyOf, k, n - 1) + if keyOf(items[n - 1]) == k then [items[n - 1]] else []
  }

  function Having<T, K(==)>(items: seq<T>, keyOf: T -> K, k: K): seq<T> {
    HavingUpTo(items, keyOf, k, |items|)
  }

  lemma {:induction false} HavingMembers<T(!new), K(!new)>(items: seq<T>, keyOf: T -> K, k: K, n: nat)
    requires n <= |items|
    ensures forall x | x in HavingUpTo(items, keyOf, k, n) :: x in items && keyOf(x) == k
    ensures forall i | 0 <= i < n && keyOf(items[i]) == k :: items[i] in HavingUpTo(items, keyOf, k, n)
  {
    if n > 0 {
      HavingMembers(items, keyOf, k, n - 1);
    }
  }

  function Flatten<T>(groups: seq<seq<T>>): seq<T> {
    if groups == [] then [] else groups[0] + Flatten(groups[1..])
  }

  lemma {:induction false} FlattenExtend<T>(groups: seq<seq<T>>, p: nat, x: T)
    requires p < |groups|
    ensures multiset(Flatten(groups[p := groups[p] + [x]])) == multiset(Flatten(groups)) + multiset{x}
  {
    var groups' := groups[p := groups[p] + [x]];
    if p == 0 {
      assert groups'[1..] == groups[1..];
    } else {
      FlattenExtend(groups[1..], p - 1, x);
      assert groups'[1..] == groups[1..][p - 1 := groups[p] + [x]];
    }
  }

  function KeysOf<K, T>(buckets: seq<Bucket<K, T>>): seq<K> {
    seq(|buckets|, i requires 0 <= i < |buckets| => buckets[i].key)
  }

  predicate Distinct<K(==)>(keys: seq<K>) {
    forall i, j | 0 <= i < j < |keys| :: keys[i] != keys[j]
  }

  /** The buckets are exactly the key classes of `items`, each in item order. */
  ghost predicate Partitions<T(!new), K(!new)>(items: seq<T>, keyOf: T -> K, buckets: seq<Bucket<K, T>>) {
    && (forall i | 0 <= i < |buckets| :: buckets[i].items == Having(items, keyOf, buckets[i].key) && buckets[i].items != [])
    && Distinct(KeysOf(buckets))
    && (forall n | 0 <= n < |items| :: keyOf(items[n]) in KeysOf(buckets))
  }

  function ItemsUpTo<T, K(==)>(items: seq<T>, keyOf: T -> K, keys: seq<K>, n: nat): seq<seq<T>>
    requires n <= |items|
  {
    seq(|keys|, i requires 0 <= i < |keys| => HavingUpTo(items, keyOf, keys[i], n))
  }

  lemma {:induction false} NothingYet<T, K>(items: seq<T>, keyOf: T -> K, keys: seq<K>)
    ensures Flatten(ItemsUpTo(items, keyOf, keys, 0)) == []
  {
    if keys != [] {
      NothingYet(items, keyOf, keys[1..]);
      assert ItemsUpTo(items, keyOf, keys, 0)[1..] == ItemsUpTo(items, keyOf, keys[1..], 0);
    }
  }

  /** One more item lands in exactly one class. */
  lemma ClassesStep<T(!new), K(!new)>(items: seq<T>, keyOf: T -> K, keys: seq<K>, n: nat) returns (p: nat)
    requires 0 < n <= |items| && Distinct(keys) && keyOf(items[n - 1]) in keys
    ensures p < |keys|
    ensures var before := ItemsUpTo(items, keyOf, keys, n - 1);
            ItemsUpTo(items, keyOf, keys, n) == before[p := before[p] + [items[n - 1]]]
  {
    p :| 0 <= p < |keys| && keys[p] == keyOf(items[n - 1]);
    var before, after := ItemsUpTo(items, keyOf, keys, n - 1), ItemsUpTo(items, keyOf, keys, n);
    forall i | 0 <= i < |keys| && i != p
      ensures after[i] == before[i]
    {
      assert before[i] + [] == before[i];
    }
  }

  lemma {:induction false} ClassesConserve<T(!new), K(!new)>(items: seq<T>, keyOf: T -> K, keys: seq<K>, n: nat)
    requires n <= |items|
    requires Distinct(keys)
    requires forall m | 0 <= m < n :: keyOf(items[m]) in keys
    ensures multiset(Flatten(ItemsUpTo(items, keyOf, keys, n))) == multiset(items[..n])
  {
    hide HavingUpTo, Flatten, Distinct;
    if n == 0 {
      NothingYet(items, keyOf, keys);
      assert items[..0] == [];
    } else {
      ClassesConserve(items, keyOf, keys, n - 1);
      var p := ClassesStep(items, keyOf, keys, n);
      var before := ItemsUpTo(items, keyOf, keys, n - 1);
      FlattenExtend(before, p, items[n - 1]);
      assert items[..n] == items[..n - 1] + [items[n - 1]];
    }
  }

  function ItemsOf<K, T>(buckets: seq<Bucket<K, T>>): seq<seq<T>> {
    seq(|buckets|, i requires 0 <= i < |buckets| => buckets[i].items)
  }

  /** Grouping loses nothing and duplicates nothing. */
  lemma PartitionConserves<T(!new), K(!new)>(items: seq<T>, keyOf: T -> K, buckets: seq<Bucket<K, T>>)
    requires Partitions(items, keyOf, buckets)
    ensures multiset(Flatten(ItemsOf(buckets))) == multiset(items)
  {
    hide Flatten, HavingUpTo;
    var keys := KeysOf(buckets);
    ClassesConserve(items, keyOf, keys, |items|);
    assert ItemsUpTo(items, keyOf, keys, |items|) == ItemsOf(buckets);
    assert items[..|items|] == items;
  }

  lemma HavingNothing<T, K>(items: seq<T>, keyOf: T -> K, k: K)
    ensures HavingUpTo(items, keyOf, k, 0) == []
  {
  }

  lemma HavingStep<T, K>(items: seq<T>, keyOf: T -> K, k: K, n: nat)
    requires n < |items|
    ensures HavingUpTo(items, keyOf, k, n + 1) == HavingUpTo(items, keyOf, k, n) + if keyOf(items[n]) == k then [items[n]] else []
  {
  }

  /** The hash-map pass both groupers start with. */
  method Bucketize<T(!new), K(!new)>(items: seq<T>, keyOf: T -> K) returns (classes: map<K, seq<T>>)
    ensures forall k | k in classes :: classes[k] == Having(items, keyOf, k) && classes[k] != []
    ensures forall n | 0 <= n < |items| :: keyOf(items[n]) in classes
  {
    hide HavingUpTo;
    classes := map[];
    assert forall k :: HavingUpTo(items, keyOf, k, 0) == [] by {
      forall k
        ensures HavingUpTo(items, keyOf, k, 0) == []
      {
        HavingNothing(items, keyOf, k);
      }
    }
    for n := 0 to |items|
      invariant forall k | k in classes :: classes[k] == HavingUpTo(items, keyOf, k, n) && classes[k] != []
      invariant forall k | k !in classes :: HavingUpTo(items, keyOf, k, n) == []
      invariant forall m | 0 <= m < n :: keyOf(items[m]) in classes
    {
      var k := keyOf(items[n]);
      var sofar := if k in classes then classes[k] else [];
      forall x
        ensures HavingUpTo(items, keyOf, x, n + 1) == HavingUpTo(items, keyOf, x, n) + if x == k then [items[n]] else []
      {
        HavingStep(items, keyOf, x, n);
      }
      classes := classes[k := sofar + [items[n]]];
    }
  }

  /** What a bucket is sorted by: a rank, then the row key as the tie-break. */
  datatype SortKey = SortKey(rank: nat, table: string, pks: string)

  predicate KeyLeq(a: SortKey, b: SortKey) {
    || a.rank < b.rank
    || (a.rank == b.rank && TextLess(a.table, b.table))
    || (a.rank == b.rank && a.table == b.table && TextLeq(a.pks, b.pks))
  }

  lemma KeyTotal(a: SortKey, b: SortKey)
    ensures KeyLeq(a, b) || KeyLeq(b, a)
  {
    TextTotal(a.table, b.table);
    TextTotal(a.pks, b.pks);
  }

  lemma KeyTransitive(a: SortKey, b: SortKey, c: SortKey)
    requires KeyLeq(a, b) && KeyLeq(b, c)
    ensures KeyLeq(a, c)
  {
    hide TextLeq;
    if TextLess(a.table, b.table) && TextLess(b.table, c.table) {
      TextTransitive(a.table, b.table, c.table);
      if a.table == c.table {
        TextAntisymmetric(a.table, b.table);
      }
    }
    if a.table == b.table == c.table && TextLeq(a.pks, b.pks) && TextLeq(b.pks, c.pks) {
      TextTransitive(a.pks, b.pks, c.pks);
    }
  }

  predicate Ordered<K, T>(buckets: seq<Bucket<K, T>>, sortKey: Bucket<K, T> -> SortKey) {
    forall i, j | 0 <= i < j < |buckets| :: KeyLeq(sortKey(buckets[i]), sortKey(buckets[j]))
  }

  method InsertOrdered<K, T>(buckets: seq<Bucket<K, T>>, sortKey: Bucket<K, T> -> SortKey, b: Bucket<K, T>)
    returns (p: nat)
    requires Ordered(buckets, sortKey)
    ensures p <= |buckets| && Ordered(buckets[..p] + [b] + buckets[p..], sortKey)
  {
    hide KeyLeq;
    p := 0;
    while p < |buckets| && KeyLeq(sortKey(buckets[p]), sortKey(b))
      invariant p <= |buckets|
      invariant forall i | 0 <= i < p :: KeyLeq(sortKey(buckets[i]), sortKey(b))
    {
      p := p + 1;
    }
    forall i | p <= i < |buckets|
      ensures KeyLeq(sortKey(b), sortKey(buckets[i]))
    {
      KeyTotal(sortKey(buckets[p]), sortKey(b));
      if i > p {
        KeyTransitive(sortKey(b), sortKey(buckets[p]), sortKey(buckets[i]));
      }
    }
  }

  lemma InsertedKeys<K, T>(buckets: seq<Bucket<K, T>>, b: Bucket<K, T>, p: nat)
    requires p <= |buckets| && Distinct(KeysOf(buckets)) && b.key !in KeysOf(buckets)
    ensures Distinct(KeysOf(buckets[..p] + [b] + buckets[p..]))
    ensures forall x :: x in KeysOf(buckets[..p] + [b] + buckets[p..]) <==> x in KeysOf(buckets) || x == b.key
  {
    var keys, more := KeysOf(buckets), KeysOf(buckets[..p] + [b] + buckets[p..]);
    assert more == keys[..p] + [b.key] + keys[p..];
    assert keys == keys[..p] + keys[p..];
  }

  /** Drain the hash map, whose order is arbitrary, into a sorted vector. */
  method OrderBuckets<K(==), T>(classes: map<K, seq<T>>, sortKey: Bucket<K, T> -> SortKey)
    returns (buckets: seq<Bucket<K, T>>)
    ensures Ordered(buckets, sortKey)
    ensures Distinct(KeysOf(buckets))
    ensures forall k :: k in KeysOf(buckets) <==> k in classes
    ensures forall i | 0 <= i < |buckets| :: buckets[i].key in classes && buckets[i].items == classes[buckets[i].key]
  {
    buckets := [];
    var todo := classes.Keys;
    while todo != {}
      invariant todo <= classes.Keys
      invariant Ordered(buckets, sortKey)
      invariant Distinct(KeysOf(buckets))
      invariant forall k :: k in KeysOf(buckets) <==> k in classes && k !in todo
      invariant forall i | 0 <= i < |buckets| :: buckets[i].key in classes && buckets[i].items == classes[buckets[i].key]
      decreases |todo|
    {
      var k :| k in todo;
      var b := Bucket(k, classes[k]);
      var p := InsertOrdered(buckets, sortKey, b);
      InsertedKeys(buckets, b, p);
      buckets := buckets[..p] + [b] + buckets[p..];
      todo := todo - {k};
    }
  }

  /** Transaction groups in ascending HLC order. */
  method GroupByHlc<T(!new)>(items: seq<T>, hlcOf: T -> string) returns (buckets: seq<Bucket<string, T>>)
    ensures Partitions(items, hlcOf, buckets)
    ensures forall i, j | 0 <= i < j < |buckets| :: Rank(buckets[i].key) <= Rank(buckets[j].key)
  {
    hide Rank, HavingUpTo;
    var classes := Bucketize(items, hlcOf);
    var sortKey := (b: Bucket<string, T>) => SortKey(Rank(b.key), "", "");
    buckets := OrderBuckets(classes, sortKey);
    forall i, j | 0 <= i < j < |buckets|
      ensures Rank(buckets[i].key) <= Rank(buckets[j].key)
    {
      assert KeyLeq(sortKey(buckets[i]), sortKey(buckets[j]));
    }
  }
}
