/** Separate-chaining hash table with string keys
    (src/data-structures/HashTable.ts): 31 buckets, a position-weighted
    character-code hash, and chains in which each key occurs at most once. */
module HashTables {
  import opened Wrappers

  /** The fixed bucket count. */
  const Buckets: nat := 31

  datatype Entry<T> = Entry(key: string, value: T)

  /** The hash after folding in the first `n` characters: each step adds
      the character code times its 1-based position, modulo 31. */
  function HashUpTo(key: string, n: nat): (h: nat)
    requires n <= |key|
    ensures h < Buckets
  {
    if n == 0 then 0 else (HashUpTo(key, n - 1) + (key[n - 1] as int) * n) % Buckets
  }

  function HashOf(key: string): nat
  {
    HashUpTo(key, |key|)
  }

  /** The sum of character codes weighted by 1-based position, over the
      first `n` characters. */
  function WeightedSum(key: string, n: nat): nat
    requires n <= |key|
  {
    if n == 0 then 0 else WeightedSum(key, n - 1) + (key[n - 1] as int) * n
  }

  /** Reducing at every step gives the same result as reducing the whole
      weighted sum once: the hash is the weighted sum modulo 31. */
  lemma {:induction false} HashIsWeightedSum(key: string, n: nat)
    requires n <= |key|
    ensures HashUpTo(key, n) == WeightedSum(key, n) % Buckets
  {
    if n > 0 {
      HashIsWeightedSum(key, n - 1);
      ModOfSum(WeightedSum(key, n - 1), (key[n - 1] as int) * n);
    }
  }

  lemma {:induction false} ModOfSum(a: nat, x: nat)
    ensures (a % Buckets + x) % Buckets == (a + x) % Buckets
  {
  }

  /** The position of the first entry with key `k`, or `|b|` if none. */
  function KeyIndex<T>(b: seq<Entry<T>>, k: string): (i: nat)
    ensures i <= |b|
    ensures i < |b| ==> b[i].key == k
    ensures forall j :: 0 <= j < i ==> b[j].key != k
  {
    if b == [] then 0 else if b[0].key == k then 0 else 1 + KeyIndex(b[1..], k)
  }

  predicate HasKey<T>(b: seq<Entry<T>>, k: string)
  {
    exists j :: 0 <= j < |b| && b[j].key == k
  }

  /** No key occurs twice in a chain. */
  predicate UniqueKeys<T>(b: seq<Entry<T>>)
  {
    forall i, j :: 0 <= i < j < |b| ==> b[i].key != b[j].key
  }

  /** The value stored under `k` in chain `b`, as `get` scans for it. */
  function Find<T>(b: seq<Entry<T>>, k: string): Option<T>
  {
    var i := KeyIndex(b, k);
    if i < |b| then Some(b[i].value) else None
  }

  /** `set` on one chain: overwrite the first entry with key `k`, or append
      a new entry at the end. */
  function Put<T>(b: seq<Entry<T>>, k: string, v: T): seq<Entry<T>>
  {
    var i := KeyIndex(b, k);
    if i < |b| then b[i := Entry(k, v)] else b + [Entry(k, v)]
  }

  /** `remove` on one chain: splice out the first entry with key `k`. */
  function Drop<T>(b: seq<Entry<T>>, k: string): seq<Entry<T>>
  {
    var i := KeyIndex(b, k);
    if i < |b| then b[..i] + b[i + 1..] else b
  }

  lemma {:induction false} FindIffHasKey<T>(b: seq<Entry<T>>, k: string)
    ensures Find(b, k).Some? <==> HasKey(b, k)
  {
  }

  /** After `Put(b, k, v)` the chain finds `v` under `k` and still finds
      every other key's old value; it grows by one entry exactly when `k`
      was absent, and it still has no repeated key. */
  lemma {:induction false} PutFacts<T>(b: seq<Entry<T>>, k: string, v: T)
    requires UniqueKeys(b)
    ensures Find(Put(b, k, v), k) == Some(v)
    ensures forall k' :: k' != k ==> Find(Put(b, k, v), k') == Find(b, k')
    ensures |Put(b, k, v)| == if HasKey(b, k) then |b| else |b| + 1
    ensures UniqueKeys(Put(b, k, v))
  {
    var i := KeyIndex(b, k);
    var p := Put(b, k, v);
    if i < |b| {
      assert p[i] == Entry(k, v);
      assert KeyIndex(p, k) == i;
      forall k' | k' != k
        ensures Find(p, k') == Find(b, k')
      {
        PutOther(b, k, v, k');
      }
    } else {
      assert p[|b|] == Entry(k, v);
      assert KeyIndex(p, k) == |b|;
      forall k' | k' != k
        ensures Find(p, k') == Find(b, k')
      {
        PutOther(b, k, v, k');
      }
    }
  }

  /** Writing key `k` does not change what another key finds. */
  lemma {:induction false} PutOther<T>(b: seq<Entry<T>>, k: string, v: T, k': string)
    requires k' != k
    ensures Find(Put(b, k, v), k') == Find(b, k')
  {
    var p := Put(b, k, v);
    var i := KeyIndex(b, k);
    var j := KeyIndex(b, k');
    if i < |b| {
      assert p == b[i := Entry(k, v)];
    } else {
      assert p == b + [Entry(k, v)];
      assert p[|b|].key == k;
    }
    if j < |b| {
      KeyIndexUnique(p, k', j);
    } else {
      KeyIndexUnique(p, k', |p|);
    }
  }

  /** `KeyIndex` is characterised by its contract: a position holding `k`
      with no `k` before it, or the end of a chain without `k`. */
  lemma {:induction false} KeyIndexUnique<T>(b: seq<Entry<T>>, k: string, j: nat)
    requires j <= |b|
    requires j < |b| ==> b[j].key == k
    requires forall x :: 0 <= x < j ==> b[x].key != k
    ensures KeyIndex(b, k) == j
  {
  }

  /** After `Drop(b, k)` on a chain without repeated keys, `k` is gone,
      every other key finds its old value, the chain shrinks by one entry
      exactly when `k` was present, and still has no repeated key. */
  lemma {:induction false} DropFacts<T>(b: seq<Entry<T>>, k: string)
    requires UniqueKeys(b)
    ensures Find(Drop(b, k), k) == None
    ensures forall k' :: k' != k ==> Find(Drop(b, k), k') == Find(b, k')
    ensures |Drop(b, k)| == if HasKey(b, k) then |b| - 1 else |b|
    ensures UniqueKeys(Drop(b, k))
  {
    var i := KeyIndex(b, k);
    var d := Drop(b, k);
    if i < |b| {
      assert forall x :: 0 <= x < |d| ==> d[x] == b[if x < i then x else x + 1];
      KeyIndexUnique(d, k, |d|);
      forall k' | k' != k
        ensures Find(d, k') == Find(b, k')
      {
        DropOther(b, k, k');
      }
    }
  }

  /** Removing key `k` does not change what another key finds. */
  lemma {:induction false} DropOther<T>(b: seq<Entry<T>>, k: string, k': string)
    requires k' != k && KeyIndex(b, k) < |b|
    ensures Find(Drop(b, k), k') == Find(b, k')
  {
    var i := KeyIndex(b, k);
    var d := Drop(b, k);
    assert d == b[..i] + b[i + 1..];
    if KeyIndex(b, k') < |b| {
      DropShifts(b, i, KeyIndex(b, k'), k');
    } else {
      DropShifts(b, i, |b|, k');
    }
  }

  /** After splicing out position `i`, the first `k'` (at `j`, or nowhere
      when `j == |b|`) moves down one place if it came after `i`. */
  lemma {:induction false} DropShifts<T>(b: seq<Entry<T>>, i: nat, j: nat, k': string)
    requires i < |b| && j <= |b| && j != i
    requires j == KeyIndex(b, k')
    ensures KeyIndex(b[..i] + b[i + 1..], k') == if j < i then j else j - 1
  {
    var d := b[..i] + b[i + 1..];
    var t := if j < i then j else j - 1;
    assert forall x :: 0 <= x < |d| ==> d[x] == b[if x < i then x else x + 1];
    assert forall x :: 0 <= x < t ==> d[x].key != k';
    KeyIndexUnique(d, k', t);
  }

  /** All chains laid end to end, first bucket first. */
  function Flatten<T>(bs: seq<seq<Entry<T>>>): seq<Entry<T>>
  {
    if bs == [] then [] else Flatten(bs[..|bs| - 1]) + bs[|bs| - 1]
  }

  lemma {:induction false} FlattenMember<T>(bs: seq<seq<Entry<T>>>, e: Entry<T>)
    ensures e in Flatten(bs) <==> exists b :: 0 <= b < |bs| && e in bs[b]
  {
    if bs != [] {
      FlattenMember(bs[..|bs| - 1], e);
      assert forall b :: 0 <= b < |bs| - 1 ==> bs[..|bs| - 1][b] == bs[b];
    }
  }

  lemma {:induction false} FlattenSize<T>(bs: seq<seq<Entry<T>>>)
    ensures |Flatten(bs)| == SizeSum(bs)
  {
    if bs != [] {
      FlattenSize(bs[..|bs| - 1]);
    }
  }

  function SizeSum<T>(bs: seq<seq<Entry<T>>>): nat
  {
    if bs == [] then 0 else SizeSum(bs[..|bs| - 1]) + |bs[|bs| - 1]|
  }

  /** A table of 31 chains in which every entry sits in the chain its key
      hashes to, and no chain repeats a key (so no key occurs twice in the
      whole table). */
  ghost predicate WellPlaced<T>(bs: seq<seq<Entry<T>>>)
  {
    && |bs| == Buckets
    && (forall b, j :: 0 <= b < Buckets && 0 <= j < |bs[b]| ==> HashOf(bs[b][j].key) == b)
    && (forall b :: 0 <= b < Buckets ==> UniqueKeys(bs[b]))
  }

  /** What `get(k)` finds: the value in the chain `k` hashes to. */
  function LookupIn<T>(bs: seq<seq<Entry<T>>>, k: string): Option<T>
    requires |bs| == Buckets
  {
    Find(bs[HashOf(k)], k)
  }

  /** `set(k, v)` on a table: afterwards `get(k)` is `v`, `get` of every
      other key is unchanged, and the table stays well placed. */
  lemma {:induction false} SetThenGet<T>(bs: seq<seq<Entry<T>>>, k: string, v: T)
    requires WellPlaced(bs)
    ensures var h := HashOf(k);
      var after := bs[h := Put(bs[h], k, v)];
      && WellPlaced(after)
      && LookupIn(after, k) == Some(v)
      && forall k' :: k' != k ==> LookupIn(after, k') == LookupIn(bs, k')
  {
    var h := HashOf(k);
    var after := bs[h := Put(bs[h], k, v)];
    PutFacts(bs[h], k, v);
    var p := Put(bs[h], k, v);
    forall j | 0 <= j < |p|
      ensures HashOf(p[j].key) == h
    {
      if KeyIndex(bs[h], k) < |bs[h]| {
        assert p == bs[h][KeyIndex(bs[h], k) := Entry(k, v)];
      } else {
        assert p == bs[h] + [Entry(k, v)];
      }
    }
  }

  /** `remove(k)` on a table: afterwards `get(k)` is undefined, `get` of
      every other key is unchanged, and the table stays well placed. */
  lemma {:induction false} RemoveThenGet<T>(bs: seq<seq<Entry<T>>>, k: string)
    requires WellPlaced(bs)
    ensures var h := HashOf(k);
      var after := bs[h := Drop(bs[h], k)];
      && WellPlaced(after)
      && LookupIn(after, k) == None
      && forall k' :: k' != k ==> LookupIn(after, k') == LookupIn(bs, k')
  {
    var h := HashOf(k);
    DropFacts(bs[h], k);
    var d := Drop(bs[h], k);
    var i := KeyIndex(bs[h], k);
    if i < |bs[h]| {
      assert forall x :: 0 <= x < |d| ==> d[x] == bs[h][if x < i then x else x + 1];
    }
  }

  /** Replacing one chain changes the total entry count by the difference
      in that chain's length. */
  lemma {:induction false} SizeSumUpdate<T>(bs: seq<seq<Entry<T>>>, h: nat, c: seq<Entry<T>>)
    requires h < |bs|
    ensures SizeSum(bs[h := c]) + |bs[h]| == SizeSum(bs) + |c|
  {
    var n := |bs|;
    if h < n - 1 {
      assert bs[h := c][..n - 1] == bs[..n - 1][h := c];
      SizeSumUpdate(bs[..n - 1], h, c);
    } else {
      assert bs[h := c][..n - 1] == bs[..n - 1];
    }
  }

  /** `getAll` grows by one entry when `set` adds a new key and keeps its
      length when `set` overwrites; `remove` shrinks it by one exactly when
      the key was present. */
  lemma {:induction false} EntryCounts<T>(bs: seq<seq<Entry<T>>>, k: string, v: T)
    requires WellPlaced(bs)
    ensures var h := HashOf(k);
      |Flatten(bs[h := Put(bs[h], k, v)])| == if LookupIn(bs, k).Some? then |Flatten(bs)| else |Flatten(bs)| + 1
    ensures var h := HashOf(k);
      |Flatten(bs[h := Drop(bs[h], k)])| == if LookupIn(bs, k).Some? then |Flatten(bs)| - 1 else |Flatten(bs)|
  {
    var h := HashOf(k);
    PutFacts(bs[h], k, v);
    DropFacts(bs[h], k);
    FindIffHasKey(bs[h], k);
    FlattenSize(bs);
    FlattenSize(bs[h := Put(bs[h], k, v)]);
    FlattenSize(bs[h := Drop(bs[h], k)]);
    SizeSumUpdate(bs, h, Put(bs[h], k, v));
    SizeSumUpdate(bs, h, Drop(bs[h], k));
  }

  class HashTable<T> {
    const table: array<seq<Entry<T>>>

    ghost predicate Valid()
      reads this, table
    {
      WellPlaced(table[..])
    }

    /** What `get(k)` finds. */
    ghost function Lookup(k: string): Option<T>
      reads this, table
      requires Valid()
    {
      LookupIn(table[..], k)
    }

    constructor ()
      ensures Valid() && fresh(table)
      ensures forall b :: 0 <= b < Buckets ==> table[b] == []
    {
      var t := new seq<Entry<T>>[Buckets];
      var i := 0;
      while i < Buckets
        invariant 0 <= i <= Buckets
        invariant forall b :: 0 <= b < i ==> t[b] == []
        modifies t
      {
        t[i] := [];
        i := i + 1;
      }
      table := t;
    }

    static method Hash(key: string) returns (h: nat)
      ensures h == HashOf(key) && h < Buckets
    {
      h := 0;
      var i := 0;
      while i < |key|
        invariant 0 <= i <= |key|
        invariant h == HashUpTo(key, i)
      {
        h := (h + (key[i] as int) * (i + 1)) % Buckets;
        i := i + 1;
      }
    }

    /** Scans bucket `h` for `key`; `|table[h]|` when it is absent. */
    method IndexIn(h: nat, key: string) returns (i: nat)
      requires Valid() && h < Buckets
      ensures i == KeyIndex(table[h], key)
    {
      var chain := table[h];
      i := 0;
      while i < |chain|
        invariant 0 <= i <= |chain|
        invariant forall j :: 0 <= j < i ==> chain[j].key != key
      {
        if chain[i].key == key {
          KeyIndexUnique(chain, key, i);
          return;
        }
        i := i + 1;
      }
      KeyIndexUnique(chain, key, i);
    }

    /** Overwrites the entry for `key` in place, or appends one to its
        chain; no other bucket changes. */
    method Set(key: string, value: T)
      requires Valid()
      modifies table
      ensures table[..] == old(table[..])[HashOf(key) := Put(old(table[HashOf(key)]), key, value)]
      ensures Valid() && Lookup(key) == Some(value)
      ensures forall k :: k != key ==> Lookup(k) == old(Lookup(k))
    {
      SetThenGet(table[..], key, value);
      var h := Hash(key);
      var i := IndexIn(h, key);
      if i < |table[h]| {
        table[h] := table[h][i := Entry(key, value)];
      } else {
        table[h] := table[h] + [Entry(key, value)];
      }
    }

    method Get(key: string) returns (r: Option<T>)
      requires Valid()
      ensures r == Lookup(key)
    {
      var h := Hash(key);
      var i := IndexIn(h, key);
      if i < |table[h]| {
        r := Some(table[h][i].value);
      } else {
        r := None;
      }
    }

    /** Splices the entry for `key` out of its chain; true iff there was one. */
    method Remove(key: string) returns (removed: bool)
      requires Valid()
      modifies table
      ensures removed <==> old(Lookup(key)).Some?
      ensures table[..] == old(table[..])[HashOf(key) := Drop(old(table[HashOf(key)]), key)]
      ensures Valid() && Lookup(key) == None
      ensures forall k :: k != key ==> Lookup(k) == old(Lookup(k))
    {
      RemoveThenGet(table[..], key);
      var h := Hash(key);
      var i := IndexIn(h, key);
      if i < |table[h]| {
        table[h] := table[h][..i] + table[h][i + 1..];
        removed := true;
      } else {
        removed := false;
      }
    }

    method Has(key: string) returns (b: bool)
      requires Valid()
      ensures b <==> Lookup(key).Some?
    {
      var r := Get(key);
      b := r.Some?;
    }

    /** Every entry, bucket by bucket, each chain in order. */
    method GetAll() returns (r: seq<Entry<T>>)
      requires Valid()
      ensures r == Flatten(table[..])
    {
      r := [];
      var b := 0;
      while b < Buckets
        invariant 0 <= b <= Buckets
        invariant r == Flatten(table[..b])
      {
        var chain := table[b];
        var j := 0;
        while j < |chain|
          invariant 0 <= j <= |chain|
          invariant r == Flatten(table[..b]) + chain[..j]
        {
          r := r + [chain[j]];
          j := j + 1;
        }
        assert chain[..j] == chain;
        assert table[..b + 1][..b] == table[..b];
        b := b + 1;
      }
      assert table[..Buckets] == table[..];
    }
  }

  /** `getAll` lists exactly the stored key/value pairs. */
  lemma {:induction false} ListedIffStored<T>(bs: seq<seq<Entry<T>>>, k: string, v: T)
    requires WellPlaced(bs)
    ensures Entry(k, v) in Flatten(bs) <==> LookupIn(bs, k) == Some(v)
  {
    FlattenMember(bs, Entry(k, v));
    var h := HashOf(k);
    if b :| 0 <= b < Buckets && Entry(k, v) in bs[b] {
      var j :| 0 <= j < |bs[b]| && bs[b][j] == Entry(k, v);
      assert b == h;
      KeyIndexUnique(bs[b], k, j);
    }
  }

  /** No key is listed twice by `getAll`. */
  lemma {:induction false} ListedOnce<T>(bs: seq<seq<Entry<T>>>, i: nat, j: nat)
    requires WellPlaced(bs)
    requires i < j < |Flatten(bs)|
    ensures Flatten(bs)[i].key != Flatten(bs)[j].key
  {
    ListedKeysDistinct(bs, Buckets, i, j);
  }

  /** The chains of the first `n` buckets flattened repeat no key, when
      each chain repeats none and every key sits in the bucket of its hash. */
  lemma {:induction false} ListedKeysDistinct<T>(bs: seq<seq<Entry<T>>>, n: nat, i: nat, j: nat)
    requires n == |bs|
    requires forall b, x :: 0 <= b < |bs| && 0 <= x < |bs[b]| ==> HashOf(bs[b][x].key) == b
    requires forall b :: 0 <= b < |bs| ==> UniqueKeys(bs[b])
    requires i < j < |Flatten(bs)|
    ensures Flatten(bs)[i].key != Flatten(bs)[j].key
  {
    var init := bs[..n - 1];
    var last := bs[n - 1];
    var f := Flatten(init);
    assert Flatten(bs) == f + last;
    assert forall b :: 0 <= b < |init| ==> init[b] == bs[b];
    if j < |f| {
      ListedKeysDistinct(init, n - 1, i, j);
    } else if i >= |f| {
      assert Flatten(bs)[i] == last[i - |f|] && Flatten(bs)[j] == last[j - |f|];
    } else {
      var e := f[i];
      FlattenMember(init, e);
      var b :| 0 <= b < |init| && e in init[b];
      assert HashOf(e.key) == b;
      assert HashOf(last[j - |f|].key) == n - 1;
    }
  }
}
