/** lib/hash.cc: a hash table that grows, against a finite map, for any hash function. */
module HashTables {
  import opened Collections
  import opened LinkedLists

  const INITIAL_BUCKETS := 4
  const RESIZE_RATIO := 3
  const INCREASE_SIZE_BY := 4

  /** The bucket for a key in a table of `n` buckets. */
  function Home<Key>(hash: Key -> nat, key: Key, n: nat): (b: nat)
    requires n > 0
    ensures b < n
  {
    hash(key) % n
  }

  /** No two items have the same key. */
  ghost predicate KeysDiffer<Key, T>(getKey: T -> Key, s: seq<T>) {
    forall i, j :: 0 <= i < j < |s| ==> getKey(s[i]) != getKey(s[j])
  }

  /** The item is the one that `m` has under its key. */
  ghost predicate In<Key, T>(getKey: T -> Key, m: map<Key, T>, x: T) {
    getKey(x) in m && m[getKey(x)] == x
  }

  /** The table holds exactly the items of `m`, each once and in the bucket of its hash. */
  ghost predicate Rep<Key, T>(getKey: T -> Key, hash: Key -> nat, bs: seq<seq<T>>, m: map<Key, T>) {
    && |bs| > 0
    && (forall k :: k in m ==> getKey(m[k]) == k && m[k] in bs[Home(hash, k, |bs|)])
    && (forall b :: 0 <= b < |bs| ==> KeysDiffer(getKey, bs[b]))
    && (forall b, x {:trigger x in bs[b]} :: 0 <= b < |bs| && x in bs[b] ==>
      In(getKey, m, x) && Home(hash, getKey(x), |bs|) == b)
  }

  /** Each item of the map is in the bucket of its hash, and in no other. */
  lemma InItsBucket<Key, T>(getKey: T -> Key, hash: Key -> nat, bs: seq<seq<T>>, m: map<Key, T>, k: Key, b: nat)
    requires Rep(getKey, hash, bs, m) && k in m && b < |bs|
    ensures m[k] in bs[b] <==> b == hash(k) % |bs|
  {
  }

  /** How many items the buckets hold. */
  function Total<T>(bs: seq<seq<T>>): nat {
    if bs == [] then 0 else Total(bs[..|bs| - 1]) + |bs[|bs| - 1]|
  }

  lemma {:induction false} TotalUpdate<T>(bs: seq<seq<T>>, b: nat, s: seq<T>)
    requires b < |bs|
    ensures Total(bs[b := s]) == Total(bs) - |bs[b]| + |s|
  {
    var n := |bs| - 1;
    if b == n {
      assert bs[b := s][..n] == bs[..n];
    } else {
      assert bs[b := s][..n] == bs[..n][b := s];
      TotalUpdate(bs[..n], b, s);
    }
  }

  lemma {:induction false} TotalZero<T>(bs: seq<seq<T>>)
    requires forall b :: 0 <= b < |bs| ==> bs[b] == []
    ensures Total(bs) == 0
  {
    if bs != [] { TotalZero(bs[..|bs| - 1]); }
  }

  /** Appending an item with a new key to its bucket adds it to the map. */
  lemma Inserted<Key, T>(getKey: T -> Key, hash: Key -> nat, bs: seq<seq<T>>, m: map<Key, T>, x: T)
    requires Rep(getKey, hash, bs, m) && getKey(x) !in m
    ensures var b := Home(hash, getKey(x), |bs|);
            Rep(getKey, hash, bs[b := bs[b] + [x]], m[getKey(x) := x])
  {
    var h := Home(hash, getKey(x), |bs|);
    var bs' := bs[h := bs[h] + [x]];
    forall b, y | 0 <= b < |bs'| && y in bs'[b] ensures y in bs[b] || (b == h && y == x) {
    }
    assert KeysDiffer(getKey, bs[h] + [x]) by {
      forall i | 0 <= i < |bs[h]| ensures getKey(bs[h][i]) != getKey(x) {
        assert bs[h][i] in bs[h];
      }
    }
  }

  lemma {:induction false} WithoutKeys<Key, T>(getKey: T -> Key, s: seq<T>, x: T)
    requires KeysDiffer(getKey, s) && x in s
    ensures KeysDiffer(getKey, Without(s, x)) && |Without(s, x)| == |s| - 1
    ensures forall y :: y in Without(s, x) <==> y in s && y != x
  {
    assert s == [s[0]] + s[1..];
    var t := s[1..];
    forall i, j | 0 <= i < j < |t| ensures getKey(t[i]) != getKey(t[j]) {
      assert getKey(s[i + 1]) != getKey(s[j + 1]);
    }
    forall y | y in t ensures getKey(y) != getKey(s[0]) {
      var i :| 0 <= i < |t| && t[i] == y;
      assert s[i + 1] == y;
    }
    if s[0] != x {
      WithoutKeys(getKey, t, x);
      var r := Without(s, x);
      forall i, j | 0 <= i < j < |r| ensures getKey(r[i]) != getKey(r[j]) {
        assert r[j] in Without(t, x);
        if i > 0 { assert getKey(Without(t, x)[i - 1]) != getKey(Without(t, x)[j - 1]); }
      }
    }
  }

  /** Taking an item out of its bucket takes its key out of the map. */
  lemma Removed<Key, T>(getKey: T -> Key, hash: Key -> nat, bs: seq<seq<T>>, m: map<Key, T>, key: Key)
    requires Rep(getKey, hash, bs, m) && key in m
    ensures var b := Home(hash, key, |bs|);
            && Rep(getKey, hash, bs[b := Without(bs[b], m[key])], m - {key})
            && |Without(bs[b], m[key])| == |bs[b]| - 1
  {
    WithoutKeys(getKey, bs[Home(hash, key, |bs|)], m[key]);
  }

  /** What `ReHash` has still to move: the items of `all` that are not in `m` are in the old buckets,
      and the first `i` of these are empty. */
  ghost predicate Left<Key, T>(getKey: T -> Key, hash: Key -> nat, old_: seq<seq<T>>, i: nat, m: map<Key, T>,
                               all: map<Key, T>) {
    && i <= |old_| && |old_| > 0
    && (forall b :: 0 <= b < i ==> old_[b] == [])
    && (forall b :: 0 <= b < |old_| ==> KeysDiffer(getKey, old_[b]))
    && (forall b, x {:trigger x in old_[b]} :: 0 <= b < |old_| && x in old_[b] ==>
          In(getKey, all, x) && Home(hash, getKey(x), |old_|) == b && getKey(x) !in m)
    && (forall k :: k in m ==> k in all && m[k] == all[k])
    && (forall k :: k in all ==> getKey(all[k]) == k && (k in m || all[k] in old_[Home(hash, k, |old_|)]))
  }

  lemma MovedOne<Key, T>(getKey: T -> Key, hash: Key -> nat, old_: seq<seq<T>>, i: nat, m: map<Key, T>,
                         all: map<Key, T>)
    requires Left(getKey, hash, old_, i, m, all) && i < |old_| && old_[i] != []
    ensures var x := old_[i][0];
            getKey(x) !in m && Left(getKey, hash, old_[i := old_[i][1..]], i, m[getKey(x) := x], all)
  {
    var x, t := old_[i][0], old_[i][1..];
    assert x in old_[i];
    assert KeysDiffer(getKey, t) by {
      forall j, k | 0 <= j < k < |t| ensures getKey(t[j]) != getKey(t[k]) {
        assert getKey(old_[i][j + 1]) != getKey(old_[i][k + 1]);
      }
    }
    forall b, y | 0 <= b < |old_| && y in old_[i := t][b] ensures y in old_[b] && getKey(y) != getKey(x) {
      if b == i {
        var j :| 0 <= j < |t| && t[j] == y;
        assert old_[i][j + 1] == y;
      }
    }
    forall y | y in old_[i] && y != x ensures y in t {
      var j :| 0 <= j < |old_[i]| && old_[i][j] == y;
      assert t[j - 1] == y;
    }
  }

  /** At the start of `ReHash` everything is still to be moved, at the end nothing. */
  lemma LeftAtEnds<Key, T>(getKey: T -> Key, hash: Key -> nat, old_: seq<seq<T>>, m: map<Key, T>, all: map<Key, T>)
    ensures Rep(getKey, hash, old_, all) ==> Left(getKey, hash, old_, 0, map[], all)
    ensures Left(getKey, hash, old_, |old_|, m, all) ==> m == all
  {
    if Left(getKey, hash, old_, |old_|, m, all) {
      forall k | k in all ensures k in m {
        assert old_[Home(hash, k, |old_|)] == [];
      }
    }
  }

  // ---------- iteration ----------

  /** The items of bucket `b` and those after it, in order. */
  function From<T>(bs: seq<seq<T>>, b: nat): seq<T>
    requires b <= |bs|
    decreases |bs| - b
  {
    if b == |bs| then [] else bs[b] + From(bs, b + 1)
  }

  lemma {:induction false} FromItems<T>(bs: seq<seq<T>>, b: nat, x: T)
    requires b <= |bs|
    ensures x in From(bs, b) <==> exists c :: b <= c < |bs| && x in bs[c]
    decreases |bs| - b
  {
    if b < |bs| {
      FromItems(bs, b + 1, x);
      if c :| b <= c < |bs| && x in bs[c] && c != b {
      }
    }
  }

  /** What the iterator walks through is every item of the map, once. */
  lemma {:induction false} FromOnce<Key, T>(getKey: T -> Key, hash: Key -> nat, bs: seq<seq<T>>, m: map<Key, T>, b: nat)
    requires Rep(getKey, hash, bs, m) && b <= |bs|
    ensures KeysDiffer(getKey, From(bs, b))
    ensures b == 0 ==> forall x :: x in From(bs, b) <==> In(getKey, m, x)
    decreases |bs| - b
  {
    if b < |bs| {
      FromOnce(getKey, hash, bs, m, b + 1);
      var s, t := bs[b], From(bs, b + 1);
      forall x, y | x in s && y in t ensures getKey(x) != getKey(y) {
        FromItems(bs, b + 1, y);
      }
      forall i, j | 0 <= i < j < |s + t| ensures getKey((s + t)[i]) != getKey((s + t)[j]) {
        if i < |s| <= j {
          assert s[i] in s && t[j - |s|] in t;
        }
      }
    }
    if b == 0 {
      forall x ensures x in From(bs, b) <==> In(getKey, m, x) {
        FromItems(bs, 0, x);
      }
    }
  }

  lemma LoadFactor(n: nat, b: nat)
    requires b > 0
    ensures n / b >= RESIZE_RATIO <==> n >= RESIZE_RATIO * b
  {
    assert n == n / b * b + n % b;
    if n / b < 3 {
      assert n / b * b <= 2 * b;
    } else {
      assert n / b * b >= 3 * b;
    }
  }

  /** The buckets are the source's array of lists. */
  class HashTable<Key(==), T(==)> {
    const getKey: T -> Key
    const hash: Key -> nat
    var buckets: seq<seq<T>>
    var numBuckets: nat
    var numItems: nat
    /** The map that the table stands for. */
    ghost var contents: map<Key, T>

    ghost predicate Valid()
      reads this
    {
      Filling(numItems, numBuckets) && numItems == |contents| && numItems <= RESIZE_RATIO * numBuckets
    }

    /** The table with some of the items in it: as valid, but for the count. */
    ghost predicate Filling(items: nat, size: nat)
      reads this
    {
      && |buckets| == numBuckets == size && numItems == items
      && Rep(getKey, hash, buckets, contents)
      && Total(buckets) == |contents|
    }

    constructor (getKey: T -> Key, hash: Key -> nat)
      ensures Valid() && contents == map[] && this.getKey == getKey && this.hash == hash && numBuckets == 4
    {
      this.getKey, this.hash := getKey, hash;
      numItems, contents := 0, map[];
      buckets := seq(INITIAL_BUCKETS, _ => []);
      numBuckets := INITIAL_BUCKETS;
      new;
      TotalZero(buckets);
    }

    /** Replaces the buckets by `sz` empty ones. */
    method InitBuckets(sz: nat)
      requires sz > 0
      modifies `buckets, `numBuckets, `contents
      ensures Filling(numItems, sz) && contents == map[]
    {
      numBuckets := sz;
      buckets := seq(sz, _ => []);
      contents := map[];
      TotalZero(buckets);
    }

    /** The item with a key, if it is in the table. */
    method Find(key: Key) returns (item: Option<T>)
      requires Valid()
      ensures item == if key in contents then Some(contents[key]) else None
    {
      var bucket := Home(hash, key, numBuckets);
      item := FindInBucket(bucket, key);
    }

    method FindInBucket(bucket: nat, key: Key) returns (item: Option<T>)
      requires Valid() && bucket == Home(hash, key, numBuckets)
      ensures item == if key in contents then Some(contents[key]) else None
    {
      var list := buckets[bucket];
      for i := 0 to |list|
        invariant forall j :: 0 <= j < i ==> getKey(list[j]) != key
      {
        if key == getKey(list[i]) {
          assert list[i] in buckets[bucket];
          return Some(list[i]);
        }
      }
      return None;
    }

    /** Adds an item whose key is not in the table. */
    method Insert(item: T)
      requires Valid() && getKey(item) !in contents
      modifies this
      ensures Valid() && contents == old(contents)[getKey(item) := item]
      // it grows exactly if there were three items for each bucket
      ensures numBuckets == if old(numItems) == 3 * old(numBuckets) then 4 * old(numBuckets) else old(numBuckets)
    {
      LoadFactor(numItems, numBuckets);
      if numItems / numBuckets >= RESIZE_RATIO {
        ReHash();
      }
      AppendToBucket(item);
      numItems := numItems + 1;
    }

    /** Puts an item in the bucket of its hash. */
    method AppendToBucket(item: T)
      requires Filling(numItems, numBuckets) && getKey(item) !in contents
      modifies `contents, `buckets
      ensures Filling(numItems, numBuckets) && contents == old(contents)[getKey(item) := item]
      ensures var b := hash(getKey(item)) % numBuckets;
              buckets == old(buckets)[b := old(buckets)[b] + [item]]
    {
      var b := Home(hash, getKey(item), numBuckets);
      Inserted(getKey, hash, buckets, contents, item);
      TotalUpdate(buckets, b, buckets[b] + [item]);
      buckets := buckets[b := buckets[b] + [item]];
      contents := contents[getKey(item) := item];
    }

    /** Takes the item with a key that is in the table out of it. */
    method Remove(key: Key) returns (item: T)
      requires Valid() && key in contents
      modifies this
      ensures Valid() && item == old(contents)[key] && contents == old(contents) - {key}
      ensures numBuckets == old(numBuckets)
    {
      var b := Home(hash, key, numBuckets);
      var found := FindInBucket(b, key);
      item := found.value;
      Removed(getKey, hash, buckets, contents, key);
      TotalUpdate(buckets, b, Without(buckets[b], item));
      buckets := buckets[b := Without(buckets[b], item)];
      numItems := numItems - 1;
      contents := contents - {key};
    }

    /** Moves everything to a table four times the size. */
    method ReHash()
      requires Valid()
      modifies this
      ensures Valid() && contents == old(contents) && numItems == old(numItems)
      ensures numBuckets == INCREASE_SIZE_BY * old(numBuckets)
    {
      var oldTable, oldSize := buckets, numBuckets;
      ghost var all := contents;
      LeftAtEnds(getKey, hash, oldTable, map[], all);
      InitBuckets(numBuckets * INCREASE_SIZE_BY);
      for i := 0 to oldSize
        invariant Filling(old(numItems), INCREASE_SIZE_BY * oldSize)
        invariant |oldTable| == oldSize && Left(getKey, hash, oldTable, i, contents, all)
      {
        oldTable := MoveBucket(oldTable, i, all);
      }
      LeftAtEnds(getKey, hash, oldTable, contents, all);
    }

    /** The inner loop of `ReHash`: moves all items of one old bucket. */
    method MoveBucket(oldTable: seq<seq<T>>, i: nat, ghost all: map<Key, T>) returns (rest: seq<seq<T>>)
      requires Filling(numItems, numBuckets)
      requires i < |oldTable| && Left(getKey, hash, oldTable, i, contents, all)
      modifies `contents, `buckets
      ensures Filling(numItems, numBuckets)
      ensures |rest| == |oldTable| && Left(getKey, hash, rest, i + 1, contents, all)
    {
      rest := oldTable;
      while rest[i] != []
        invariant Filling(numItems, numBuckets)
        invariant |rest| == |oldTable| && Left(getKey, hash, rest, i, contents, all)
        decreases |rest[i]|
      {
        MovedOne(getKey, hash, rest, i, contents, all);
        var item := rest[i][0];
        rest := rest[i := rest[i][1..]];
        AppendToBucket(item);
      }
    }

    /** The first bucket from `bucket` on that has any items. */
    method FindNextFullBucket(bucket: nat) returns (b: nat)
      requires |buckets| == numBuckets && bucket <= numBuckets
      ensures bucket <= b <= numBuckets && (b < numBuckets ==> buckets[b] != [])
      ensures From(buckets, bucket) == From(buckets, b)
    {
      b := bucket;
      while b < numBuckets
        invariant bucket <= b <= numBuckets && From(buckets, bucket) == From(buckets, b)
      {
        if buckets[b] != [] {
          break;
        }
        b := b + 1;
      }
    }
  }

  class HashIterator<Key(==), T(==)> {
    const table: HashTable<Key, T>
    var bucket: nat
    /** The position of the list iterator in the bucket. */
    var at: nat

    ghost predicate Valid()
      reads this, table
    {
      && |table.buckets| == table.numBuckets && bucket <= table.numBuckets
      && (bucket < table.numBuckets ==> at < |table.buckets[bucket]|)
    }

    /** The items still to come. */
    ghost function Rest(): seq<T>
      requires Valid()
      reads this, table
    {
      if bucket == table.numBuckets then [] else table.buckets[bucket][at..] + From(table.buckets, bucket + 1)
    }

    constructor (table: HashTable<Key, T>)
      requires |table.buckets| == table.numBuckets
      ensures Valid() && this.table == table && Rest() == From(table.buckets, 0)
    {
      this.table := table;
      bucket, at := 0, 0;
      new;
      var b := table.FindNextFullBucket(0);
      bucket := b;
    }

    predicate IsDone()
      requires Valid()
      reads this, table
      ensures IsDone() <==> Rest() == []
    {
      bucket == table.numBuckets
    }

    function Item(): (x: T)
      requires Valid() && !IsDone()
      reads this, table
      ensures x == Rest()[0]
    {
      table.buckets[bucket][at]
    }

    method Next()
      requires Valid() && !IsDone()
      modifies this
      ensures Valid() && Rest() == old(Rest())[1..]
    {
      at := at + 1;
      if at == |table.buckets[bucket]| {
        var b := table.FindNextFullBucket(bucket + 1);
        bucket, at := b, 0;
      }
    }
  }

  /** The loop that an iterator is for: it ends, having met every item of the table exactly once. */
  method VisitAll<Key(==), T(==)>(table: HashTable<Key, T>) returns (items: seq<T>)
    requires table.Valid()
    ensures KeysDiffer(table.getKey, items)
    ensures forall x :: x in items <==> In(table.getKey, table.contents, x)
  {
    items := Walk(table);
    FromOnce(table.getKey, table.hash, table.buckets, table.contents, 0);
  }

  lemma FrontMoved<T>(a: seq<T>, b: seq<T>)
    requires b != []
    ensures a + [b[0]] + b[1..] == a + b
  {
  }

  method Walk<Key(==), T(==)>(table: HashTable<Key, T>) returns (items: seq<T>)
    requires |table.buckets| == table.numBuckets
    ensures items == From(table.buckets, 0)
  {
    items := [];
    var iter := new HashIterator(table);
    while !iter.IsDone()
      invariant iter.Valid() && iter.table == table && fresh(iter)
      invariant items + iter.Rest() == From(table.buckets, 0)
      decreases |iter.Rest()|
    {
      FrontMoved(items, iter.Rest());
      items := items + [iter.Item()];
      iter.Next();
    }
  }
}
