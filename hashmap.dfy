/**
 * The chained hash table of p2psim/bighashmap.cc: an array of buckets, each a
 * chain of key/value elements, with an element count, a resize threshold
 * (capacity) and a default value.  A chain is a sequence, in list order from
 * the bucket head.  The ghost map `contents` is what the table stores; the
 * pure predicate ChainsHold ties the chains to it.
 */
module BigHashMap {
  import opened Wrappers

  datatype Pair<K, V> = Pair(key: K, value: V)

  /** bucket(): the hash code cast to unsigned (mod 2^32), modulo the bucket count. */
  function Slot<K>(hash: K -> int, k: K, nb: int): (r: int)
    requires nb > 0
    ensures 0 <= r < nb
  {
    (hash(k) % 0x1_0000_0000) % nb
  }

  function KeysOf<K, V>(c: seq<Pair<K, V>>): set<K>
  {
    set i | 0 <= i < |c| :: c[i].key
  }

  lemma KeysOfSnoc<K, V>(c: seq<Pair<K, V>>, e: Pair<K, V>)
    ensures KeysOf(c + [e]) == KeysOf(c) + {e.key}
  {
    var d := c + [e];
    forall x | x in KeysOf(d) ensures x in KeysOf(c) + {e.key} {
      var i :| 0 <= i < |d| && d[i].key == x;
      if i < |c| { assert c[i] == d[i]; }
    }
    forall x | x in KeysOf(c) ensures x in KeysOf(d) {
      var i :| 0 <= i < |c| && c[i].key == x;
      assert d[i] == c[i];
    }
    assert d[|c|] == e;
  }

  /** Keys within a chain are distinct. */
  ghost predicate Distinct<K, V>(c: seq<Pair<K, V>>)
  {
    forall i, j :: 0 <= i < j < |c| ==> c[i].key != c[j].key
  }

  /** Chain c of bucket b agrees with m: distinct keys, each element in its key's bucket and stored in m. */
  ghost predicate ChainOk<K, V>(c: seq<Pair<K, V>>, b: int, nb: int, m: map<K, V>, hash: K -> int)
    requires nb > 0
  {
    && Distinct(c)
    && forall i :: 0 <= i < |c| ==> Slot(hash, c[i].key, nb) == b && c[i].key in m && m[c[i].key] == c[i].value
  }

  /**
   * The chains represent m: every chain agrees with m and every key of m is in
   * its bucket's chain.
   */
  ghost predicate ChainsHold<K, V>(bs: seq<seq<Pair<K, V>>>, m: map<K, V>, hash: K -> int)
  {
    && |bs| > 0
    && (forall b :: 0 <= b < |bs| ==> ChainOk(bs[b], b, |bs|, m, hash))
    && (forall k :: k in m ==> k in KeysOf(bs[Slot(hash, k, |bs|)]))
  }

  /** The chain after insert finds key k in it: that element gets value v in place; nothing else changes. */
  function SetValue<K(==), V>(c: seq<Pair<K, V>>, k: K, v: V): seq<Pair<K, V>>
  {
    var i := IndexOfKey(c, k);
    if i < |c| then c[i := Pair(k, v)] else c
  }

  /** Position of the first element with key k in a chain, |c| when there is none. */
  function IndexOfKey<K(==), V>(c: seq<Pair<K, V>>, k: K): (r: nat)
    ensures r <= |c|
    ensures r < |c| ==> c[r].key == k
    ensures forall i :: 0 <= i < r ==> c[i].key != k
    ensures r == |c| <==> k !in KeysOf(c)
  {
    if c == [] then 0
    else if c[0].key == k then 0
    else
      assert KeysOf(c) == {c[0].key} + KeysOf(c[1..]);
      1 + IndexOfKey(c[1..], k)
  }

  /** A key is stored exactly when its bucket's chain holds it, with the stored value. */
  lemma LookupAgrees<K, V>(bs: seq<seq<Pair<K, V>>>, m: map<K, V>, hash: K -> int, k: K)
    requires ChainsHold(bs, m, hash)
    ensures var c := bs[Slot(hash, k, |bs|)]; var i := IndexOfKey(c, k);
      (k in m <==> i < |c|) && (i < |c| ==> c[i].value == m[k])
  {
    var b := Slot(hash, k, |bs|);
    assert ChainOk(bs[b], b, |bs|, m, hash);
  }

  /** The keys in the chain of bucket b are exactly the stored keys that hash to b. */
  lemma BucketKeys<K, V>(bs: seq<seq<Pair<K, V>>>, m: map<K, V>, hash: K -> int, b: int)
    requires ChainsHold(bs, m, hash) && 0 <= b < |bs|
    ensures ChainOk(bs[b], b, |bs|, m, hash)
    ensures forall k :: k in KeysOf(bs[b]) <==> k in m && Slot(hash, k, |bs|) == b
  {
    assert ChainOk(bs[b], b, |bs|, m, hash);
  }

  /**
   * Replacing the chain of bucket b by nc gives a table for m2, when nc agrees
   * with m2, m2 differs from m only on keys of bucket b and nc holds all of
   * m2's keys of bucket b.
   */
  lemma SwapChain<K, V>(bs: seq<seq<Pair<K, V>>>, m: map<K, V>, m2: map<K, V>, hash: K -> int, b: int, nc: seq<Pair<K, V>>)
    requires ChainsHold(bs, m, hash) && 0 <= b < |bs|
    requires ChainOk(nc, b, |bs|, m2, hash)
    requires forall k :: k in m2 && Slot(hash, k, |bs|) != b ==> k in m && m2[k] == m[k]
    requires forall k :: k in m && Slot(hash, k, |bs|) != b ==> k in m2
    requires forall k :: k in m2 && Slot(hash, k, |bs|) == b ==> k in KeysOf(nc)
    ensures ChainsHold(bs[b := nc], m2, hash)
  {
    var nbs := bs[b := nc];
    forall bb | 0 <= bb < |nbs| && bb != b
      ensures ChainOk(nbs[bb], bb, |nbs|, m2, hash)
    {
      assert ChainOk(bs[bb], bb, |bs|, m, hash);
    }
  }

  /** Prepending a new key to its bucket stores it. */
  lemma PrependKeeps<K, V>(bs: seq<seq<Pair<K, V>>>, m: map<K, V>, hash: K -> int, k: K, v: V)
    requires ChainsHold(bs, m, hash) && k !in m
    ensures var b := Slot(hash, k, |bs|);
      ChainsHold(bs[b := [Pair(k, v)] + bs[b]], m[k := v], hash)
  {
    var b := Slot(hash, k, |bs|);
    var c := bs[b];
    var nc := [Pair(k, v)] + c;
    assert ChainOk(c, b, |bs|, m, hash);
    assert forall j :: 0 < j < |nc| ==> nc[j] == c[j - 1];
    assert KeysOf(nc) == {k} + KeysOf(c) by {
      forall x | x in KeysOf(c) ensures x in KeysOf(nc) {
        var j :| 0 <= j < |c| && c[j].key == x;
        assert nc[j + 1].key == x;
      }
      assert nc[0].key == k;
      forall x | x in KeysOf(nc) ensures x == k || x in KeysOf(c) {
        var j :| 0 <= j < |nc| && nc[j].key == x;
        if j > 0 { assert c[j - 1].key == x; }
      }
    }
    assert ChainOk(nc, b, |bs|, m[k := v], hash);
    SwapChain(bs, m, m[k := v], hash, b, nc);
  }

  /** Overwriting the value of an element stores the new value under its key. */
  lemma ReplaceKeeps<K, V>(bs: seq<seq<Pair<K, V>>>, m: map<K, V>, hash: K -> int, b: int, i: int, v: V)
    requires ChainsHold(bs, m, hash) && 0 <= b < |bs| && 0 <= i < |bs[b]|
    ensures ChainsHold(bs[b := bs[b][i := Pair(bs[b][i].key, v)]], m[bs[b][i].key := v], hash)
  {
    var c := bs[b];
    var k := c[i].key;
    var nc := c[i := Pair(k, v)];
    assert ChainOk(c, b, |bs|, m, hash);
    assert KeysOf(nc) == KeysOf(c) by {
      forall x | x in KeysOf(c) ensures x in KeysOf(nc) {
        var j :| 0 <= j < |c| && c[j].key == x;
        assert nc[j].key == x;
      }
    }
    assert ChainOk(nc, b, |bs|, m[k := v], hash);
    SwapChain(bs, m, m[k := v], hash, b, nc);
  }

  /** Unlinking the element at i removes exactly its key. */
  lemma UnlinkKeeps<K, V>(bs: seq<seq<Pair<K, V>>>, m: map<K, V>, hash: K -> int, b: int, i: int)
    requires ChainsHold(bs, m, hash) && 0 <= b < |bs| && 0 <= i < |bs[b]|
    ensures ChainsHold(bs[b := bs[b][..i] + bs[b][i + 1..]], m - {bs[b][i].key}, hash)
  {
    var c := bs[b];
    var k := c[i].key;
    assert ChainOk(c, b, |bs|, m, hash);
    UnlinkChain(c, i, b, |bs|, m, hash);
    assert forall x :: x in m - {k} && Slot(hash, x, |bs|) == b ==> x in KeysOf(c) by {
      forall x | x in m - {k} && Slot(hash, x, |bs|) == b ensures x in KeysOf(c) {
        assert x in KeysOf(bs[Slot(hash, x, |bs|)]);
      }
    }
    SwapChain(bs, m, m - {k}, hash, b, c[..i] + c[i + 1..]);
  }

  /** The chain without element i agrees with the map without its key and keeps every other key. */
  lemma UnlinkChain<K, V>(c: seq<Pair<K, V>>, i: int, b: int, nb: int, m: map<K, V>, hash: K -> int)
    requires nb > 0 && ChainOk(c, b, nb, m, hash) && 0 <= i < |c|
    ensures ChainOk(c[..i] + c[i + 1..], b, nb, m - {c[i].key}, hash)
    ensures forall x :: x in KeysOf(c) && x != c[i].key ==> x in KeysOf(c[..i] + c[i + 1..])
  {
    var k := c[i].key;
    var nc := c[..i] + c[i + 1..];
    assert forall j :: 0 <= j < |nc| ==> nc[j] == c[if j < i then j else j + 1];
    forall x | x in KeysOf(c) && x != k ensures x in KeysOf(nc) {
      var j :| 0 <= j < |c| && c[j].key == x;
      assert nc[if j < i then j else j - 1].key == x;
    }
    forall j1, j2 | 0 <= j1 < j2 < |nc| ensures nc[j1].key != nc[j2].key {
      assert nc[j1] == c[if j1 < i then j1 else j1 + 1];
      assert nc[j2] == c[if j2 < i then j2 else j2 + 1];
    }
  }

  /** The chain after find_pair moves the element at i to the front. */
  function MoveToFront<K, V>(c: seq<Pair<K, V>>, i: int): (r: seq<Pair<K, V>>)
    requires 0 <= i < |c|
    ensures |r| == |c| && r[0] == c[i] && multiset(r) == multiset(c)
  {
    assert c == c[..i] + [c[i]] + c[i + 1..];
    [c[i]] + c[..i] + c[i + 1..]
  }

  /** Old position of the element at position j after moving position i to the front. */
  function From(i: int, j: int): int
  {
    if j == 0 then i else if j <= i then j - 1 else j
  }

  /** Where each element of MoveToFront(c, i) came from. */
  lemma MoveToFrontPositions<K, V>(c: seq<Pair<K, V>>, i: int)
    requires 0 <= i < |c|
    ensures forall j :: 0 <= j < |c| ==> 0 <= From(i, j) < |c| && MoveToFront(c, i)[j] == c[From(i, j)]
  {
    var nc := MoveToFront(c, i);
    forall j | 0 <= j < |nc|
      ensures nc[j] == c[From(i, j)]
    {
      if j == 0 {
      } else if j <= i {
        assert nc[j] == c[..i][j - 1];
      } else {
        assert nc[j] == c[i + 1..][j - i - 1];
      }
    }
  }

  /** A chain moved to the front is still a valid chain for bucket b, with the same keys. */
  lemma MoveToFrontChain<K, V>(c: seq<Pair<K, V>>, i: int, b: int, nb: int, m: map<K, V>, hash: K -> int)
    requires nb > 0 && 0 <= i < |c| && ChainOk(c, b, nb, m, hash)
    ensures ChainOk(MoveToFront(c, i), b, nb, m, hash)
    ensures KeysOf(MoveToFront(c, i)) == KeysOf(c)
  {
    var nc := MoveToFront(c, i);
    MoveToFrontPositions(c, i);
    forall j1, j2 | 0 <= j1 < j2 < |nc|
      ensures nc[j1].key != nc[j2].key
    {
      var f1, f2 := From(i, j1), From(i, j2);
      if f1 < f2 {
        assert c[f1].key != c[f2].key;
      } else {
        assert c[f2].key != c[f1].key;
      }
    }
    forall x | x in KeysOf(c) ensures x in KeysOf(nc) {
      var j :| 0 <= j < |c| && c[j].key == x;
      assert nc[if j == i then 0 else if j < i then j + 1 else j].key == x;
    }
  }

  /** Moving an element to the front of its chain changes no stored pair. */
  lemma MoveToFrontKeeps<K, V>(bs: seq<seq<Pair<K, V>>>, m: map<K, V>, hash: K -> int, b: int, i: int)
    requires ChainsHold(bs, m, hash) && 0 <= b < |bs| && 0 <= i < |bs[b]|
    ensures ChainsHold(bs[b := MoveToFront(bs[b], i)], m, hash)
  {
    var c := bs[b];
    assert ChainOk(c, b, |bs|, m, hash);
    MoveToFrontChain(c, i, b, |bs|, m, hash);
    SwapChain(bs, m, m, hash, b, MoveToFront(c, i));
  }

  /** Bucket counts resize can choose: 1, 3, 7, 15, ... (2^k - 1). */
  predicate Mersenne(x: int)
    decreases x
  {
    x == 1 || (x > 1 && x % 2 == 1 && Mersenne((x - 1) / 2))
  }

  lemma {:induction false} MersenneNext(a: int, b: int)
    requires Mersenne(a) && Mersenne(b) && a < b
    ensures Mersenne(2 * a + 1) && 2 * a + 1 <= b
    decreases b
  {
    if a > 1 {
      MersenneNext((a - 1) / 2, (b - 1) / 2);
    }
  }

  /** resize's loop: doubles-plus-one from nb while below want and below the cap. */
  function Grow(nb: int, want: int, maxNb: int): int
    requires Mersenne(nb) && Mersenne(maxNb) && nb <= maxNb
    decreases maxNb - nb
  {
    if nb < want && nb < maxNb then
      MersenneNext(nb, maxNb);
      Grow(2 * nb + 1, want, maxNb)
    else nb
  }

  /**
   * resize's choice for a wanted count: the smallest 2^k - 1 that is at least
   * want, or maxNb when that is smaller.
   */
  lemma {:induction false} GrowSpec(nb: int, want: int, maxNb: int)
    requires Mersenne(nb) && Mersenne(maxNb) && nb <= maxNb
    ensures var r := Grow(nb, want, maxNb);
      && Mersenne(r) && nb <= r <= maxNb
      && (r >= want || r == maxNb)
      && (r == nb || (r - 1) / 2 < want)
    decreases maxNb - nb
  {
    if nb < want && nb < maxNb {
      MersenneNext(nb, maxNb);
      GrowSpec(2 * nb + 1, want, maxNb);
    }
  }

  /** set_dynamic_resizing's threshold. */
  function CapacityFor(on: bool, nb: int, maxNb: int, threshold: int): int
  {
    if !on then 0x7FFF_FFFF
    else if nb >= maxNb then 0x7FFF_FFFE
    else threshold * nb
  }

  /**
   * dynamic_resizing() reads the flag back from the threshold: it is on
   * exactly when the capacity is below 0x7FFFFFFF.
   */
  lemma CapacityReportsFlag(on: bool, nb: int, maxNb: int, threshold: int)
    requires 0 <= threshold && 0 < nb && threshold * nb < 0x7FFF_FFFF
    ensures (CapacityFor(on, nb, maxNb, threshold) < 0x7FFF_FFFF) == on
  {
  }

  class HashMap<K(==), V> {
    var buckets: array<seq<Pair<K, V>>>
    var nbuckets: int
    var n: int
    var capacity: int
    const defaultValue: V
    /** The key type's hashcode(). */
    const hashcode: K -> int
    /** MAX_NBUCKETS and DEFAULT_RESIZE_THRESHOLD of the header. */
    const maxBuckets: int
    const threshold: int
    ghost var contents: map<K, V>

    ghost predicate Valid()
      reads this, buckets
    {
      && buckets.Length == nbuckets
      && ChainsHold(buckets[..], contents, hashcode)
      && n == |contents|
      && Mersenne(maxBuckets) && 1 <= threshold && threshold * maxBuckets < 0x7FFF_FFFE
    }

    /** dynamic_resizing(): the threshold is not the "off" value. */
    function DynamicResizing(): bool
      reads this
    {
      capacity < 0x7FFF_FFFF
    }

    /** initialize(): initialNb empty buckets, dynamic resizing on, no elements. */
    constructor (initialNb: int, maxNb: int, resizeThreshold: int, def: V, hash: K -> int)
      requires 0 < initialNb && Mersenne(maxNb) && 1 <= resizeThreshold
      requires resizeThreshold * maxNb < 0x7FFF_FFFE && resizeThreshold * initialNb < 0x7FFF_FFFE
      ensures Valid() && fresh(buckets)
      ensures contents == map[] && nbuckets == initialNb && n == 0
      ensures capacity == CapacityFor(true, initialNb, maxNb, resizeThreshold) && DynamicResizing()
      ensures defaultValue == def && hashcode == hash && maxBuckets == maxNb && threshold == resizeThreshold
    {
      nbuckets := initialNb;
      buckets := new seq<Pair<K, V>>[initialNb](_ => []);
      defaultValue := def;
      hashcode := hash;
      maxBuckets := maxNb;
      threshold := resizeThreshold;
      n := 0;
      contents := map[];
      new;
      SetDynamicResizing(true);
    }

    /** set_dynamic_resizing. */
    method SetDynamicResizing(on: bool)
      modifies this
      ensures capacity == CapacityFor(on, nbuckets, maxBuckets, threshold)
      ensures buckets == old(buckets) && nbuckets == old(nbuckets) && n == old(n) && contents == old(contents)
    {
      if !on {
        capacity := 0x7FFF_FFFF;
      } else if nbuckets >= maxBuckets {
        capacity := 0x7FFF_FFFE;
      } else {
        capacity := threshold * nbuckets;
      }
    }

    /** The walk along a chain looking for a key. */
    static method FindInChain(c: seq<Pair<K, V>>, key: K) returns (i: nat)
      ensures i == IndexOfKey(c, key)
    {
      i := 0;
      while i < |c| && c[i].key != key
        invariant i <= |c| && forall j :: 0 <= j < i ==> c[j].key != key
      {
        i := i + 1;
      }
      assert i < |c| || key !in KeysOf(c);
    }

    /** Installs a new chain for bucket b, together with the table it then represents. */
    method SetChain(b: int, nc: seq<Pair<K, V>>, ghost m2: map<K, V>, newN: int)
      requires Valid() && 0 <= b < nbuckets && ChainsHold(buckets[..][b := nc], m2, hashcode) && newN == |m2|
      modifies this, buckets
      ensures Valid() && contents == m2 && n == |m2|
      ensures buckets == old(buckets) && buckets[..] == old(buckets[..])[b := nc]
      ensures nbuckets == old(nbuckets) && capacity == old(capacity)
    {
      ghost var bs := buckets[..];
      buckets[b] := nc;
      assert forall x :: 0 <= x < nbuckets ==> buckets[..][x] == bs[b := nc][x];
      assert buckets[..] == bs[b := nc];
      contents := m2;
      n := newN;
    }

    /**
     * find_pair: the element with the key, if any, which is moved to the front
     * of its chain; nothing else changes.
     */
    method FindPair(key: K) returns (r: Option<Pair<K, V>>)
      requires Valid()
      modifies this, buckets
      ensures Valid() && contents == old(contents) && n == old(n)
      ensures buckets == old(buckets) && nbuckets == old(nbuckets) && capacity == old(capacity)
      ensures r == if key in contents then Some(Pair(key, contents[key])) else None
      ensures var b := Slot(hashcode, key, nbuckets);
        && (forall j :: 0 <= j < nbuckets && j != b ==> buckets[j] == old(buckets[j]))
        && multiset(buckets[b]) == multiset(old(buckets[b]))
        && (r.Some? ==> buckets[b][0] == r.value)
        && (r.Some? ==> buckets[b] == MoveToFront(old(buckets[b]), IndexOfKey(old(buckets[b]), key)))
        && (r.None? ==> buckets[b] == old(buckets[b]))
    {
      var b := Slot(hashcode, key, nbuckets);
      LookupAgrees(buckets[..], contents, hashcode, key);
      var c := buckets[b];
      var i := FindInChain(c, key);
      if i == |c| {
        return None;
      }
      r := Some(c[i]);
      if i > 0 {
        MoveUp(b, i);
        assert buckets[b] == buckets[..][b];
      } else {
        assert MoveToFront(c, 0) == c;
      }
    }

    /** find_pair's reordering: element i of bucket b moves to the front of its chain. */
    method MoveUp(b: int, i: int)
      requires Valid() && 0 <= b < nbuckets && 0 <= i < |buckets[b]|
      modifies this, buckets
      ensures Valid() && contents == old(contents) && n == old(n)
      ensures buckets == old(buckets) && nbuckets == old(nbuckets) && capacity == old(capacity)
      ensures buckets[..] == old(buckets[..])[b := MoveToFront(old(buckets[b]), i)]
    {
      MoveToFrontKeeps(buckets[..], contents, hashcode, b, i);
      assert buckets[..][b] == buckets[b];
      SetChain(b, MoveToFront(buckets[b], i), contents, n);
    }

    /**
     * insert: an existing key gets the new value (false, count unchanged);
     * a new key is prepended to its bucket after a resize when the count has
     * reached the capacity (true, count + 1).
     */
    method Insert(key: K, value: V) returns (added: bool)
      requires Valid()
      modifies this, buckets
      ensures Valid()
      ensures added <==> key !in old(contents)
      ensures contents == old(contents)[key := value]
      ensures n == old(n) + (if added then 1 else 0)
      ensures !added ==> buckets == old(buckets) && nbuckets == old(nbuckets) && capacity == old(capacity)
      ensures !added ==> var b := Slot(hashcode, key, nbuckets);
        buckets[..] == old(buckets[..])[b := SetValue(old(buckets[b]), key, value)]
      ensures added ==> NewKeyPlaced(key, value)
    {
      var b := Slot(hashcode, key, nbuckets);
      LookupAgrees(buckets[..], contents, hashcode, key);
      var c := buckets[b];
      var i := FindInChain(c, key);
      if i < |c| {
        Overwrite(key, value, b, i);
        return false;
      }
      AddNew(key, value);
      added := true;
    }

    /** insert on a stored key: its element, at position i of bucket b, gets the new value in place. */
    method Overwrite(key: K, value: V, b: int, i: int)
      requires Valid() && b == Slot(hashcode, key, nbuckets) && i == IndexOfKey(buckets[b], key) < |buckets[b]|
      modifies this, buckets
      ensures Valid() && key in old(contents) && contents == old(contents)[key := value] && n == old(n)
      ensures buckets == old(buckets) && nbuckets == old(nbuckets) && capacity == old(capacity)
      ensures buckets[..] == old(buckets[..])[b := SetValue(old(buckets[b]), key, value)]
    {
      var c := buckets[b];
      assert c == buckets[..][b];
      ReplaceKeeps(buckets[..], contents, hashcode, b, i, value);
      LookupAgrees(buckets[..], contents, hashcode, key);
      SetChain(b, c[i := Pair(key, value)], contents[key := value], n);
    }

    /** The common tail of insert and find_pair_force for a missing key: resize if full, then prepend. */
    method AddNew(key: K, value: V)
      requires Valid() && key !in contents
      modifies this, buckets
      ensures Valid() && contents == old(contents)[key := value] && n == old(n) + 1
      ensures NewKeyPlaced(key, value)
    {
      if n >= capacity {
        GrowAndPrepend(key, value);
      } else {
        PrependNew(key, value);
        var b := Slot(hashcode, key, nbuckets);
        assert buckets[b] == buckets[..][b];
      }
    }

    /** insert on a new key when the count has reached the capacity: resize for one more bucket, then prepend. */
    method GrowAndPrepend(key: K, value: V)
      requires Valid() && key !in contents && n >= capacity
      modifies this, buckets
      ensures Valid() && contents == old(contents)[key := value] && n == old(n) + 1
      ensures NewKeyPlaced(key, value)
    {
      Resize(nbuckets + 1);
      PrependNew(key, value);
      var b := Slot(hashcode, key, nbuckets);
      assert buckets[b] == buckets[..][b];
    }

    /** The prepend of a new key: its pair becomes the head of its bucket; the rest stays. */
    method PrependNew(key: K, value: V)
      requires Valid() && key !in contents
      modifies this, buckets
      ensures Valid() && contents == old(contents)[key := value] && n == old(n) + 1
      ensures buckets == old(buckets) && nbuckets == old(nbuckets) && capacity == old(capacity)
      ensures var b := Slot(hashcode, key, nbuckets);
        buckets[..] == old(buckets[..])[b := [Pair(key, value)] + old(buckets[b])]
    {
      var b := Slot(hashcode, key, nbuckets);
      assert buckets[b] == buckets[..][b];
      PrependKeeps(buckets[..], contents, hashcode, key, value);
      SetChain(b, [Pair(key, value)] + buckets[b], contents[key := value], n + 1);
    }

    /**
     * Where insert and find_pair_force put a new key: when the count had
     * reached the capacity, the table first grows to the bucket count resize
     * picks for one more bucket (the capacity follows when dynamic resizing
     * was on); otherwise the array, the bucket count and the capacity stay and
     * only the key's bucket changes, by the prepend.  Either way the new pair
     * heads its bucket.
     */
    twostate predicate NewKeyPlaced(key: K, value: V)
      reads this, buckets
    {
      && Valid() && nbuckets > 0
      && var b := Slot(hashcode, key, nbuckets);
      && (old(n) >= old(capacity) ==>
           && nbuckets == Grow(1, old(nbuckets) + 1, maxBuckets)
           && capacity == if nbuckets == old(nbuckets) || !old(DynamicResizing()) then old(capacity)
                          else CapacityFor(true, nbuckets, maxBuckets, threshold))
      && (old(n) < old(capacity) ==>
           && buckets == old(buckets) && nbuckets == old(nbuckets) && capacity == old(capacity)
           && buckets[..] == old(buckets[..])[b := [Pair(key, value)] + old(buckets[b])])
      && |buckets[b]| > 0 && buckets[b][0] == Pair(key, value)
    }

    /** remove: true exactly when the key was stored; it is then unlinked and the count drops. */
    method Remove(key: K) returns (removed: bool)
      requires Valid()
      modifies this, buckets
      ensures Valid() && buckets == old(buckets) && nbuckets == old(nbuckets) && capacity == old(capacity)
      ensures removed <==> key in old(contents)
      ensures contents == old(contents) - {key}
      ensures n == old(n) - (if removed then 1 else 0)
    {
      var b := Slot(hashcode, key, nbuckets);
      LookupAgrees(buckets[..], contents, hashcode, key);
      var c := buckets[b];
      var i := FindInChain(c, key);
      if i == |c| {
        assert contents - {key} == contents;
        return false;
      }
      UnlinkKeeps(buckets[..], contents, hashcode, b, i);
      SetChain(b, c[..i] + c[i + 1..], contents - {key}, n - 1);
      removed := true;
    }

    /**
     * find_pair_force: the stored element for the key, or a new element with
     * the given default value, inserted as insert would.
     */
    method FindPairForce(key: K, def: V) returns (r: Pair<K, V>)
      requires Valid()
      modifies this, buckets
      ensures Valid()
      ensures contents == if key in old(contents) then old(contents) else old(contents)[key := def]
      ensures r == Pair(key, contents[key])
      ensures n == old(n) + (if key in old(contents) then 0 else 1)
      ensures key in old(contents) ==> unchanged(this) && unchanged(buckets)
      ensures key !in old(contents) ==> NewKeyPlaced(key, def)
    {
      var b := Slot(hashcode, key, nbuckets);
      LookupAgrees(buckets[..], contents, hashcode, key);
      var c := buckets[b];
      var i := FindInChain(c, key);
      if i < |c| {
        return c[i];
      }
      AddNew(key, def);
      r := Pair(key, def);
    }

    /** resize's loop: the bucket count chosen for a wanted count. */
    static method ResizeTarget(want: int, maxNb: int) returns (newNb: int)
      requires Mersenne(maxNb)
      ensures newNb == Grow(1, want, maxNb)
    {
      newNb := 1;
      while newNb < want && newNb < maxNb
        invariant Mersenne(newNb) && newNb <= maxNb
        invariant Grow(newNb, want, maxNb) == Grow(1, want, maxNb)
        decreases maxNb - newNb
      {
        MersenneNext(newNb, maxNb);
        newNb := ((newNb + 1) * 2) - 1;
      }
    }

    /**
     * resize: picks the smallest 2^k - 1 bucket count that is at least want
     * (at most MAX_NBUCKETS) and rehashes when it differs from the current one.
     */
    method Resize(want: int)
      requires Valid()
      modifies this
      ensures Valid() && contents == old(contents) && n == old(n)
      ensures nbuckets == Grow(1, want, maxBuckets)
      ensures nbuckets == old(nbuckets) ==> buckets == old(buckets) && capacity == old(capacity)
      ensures nbuckets != old(nbuckets) ==> fresh(buckets)
      ensures nbuckets != old(nbuckets) ==>
        capacity == if old(DynamicResizing()) then CapacityFor(true, nbuckets, maxBuckets, threshold) else old(capacity)
    {
      var newNb := ResizeTarget(want, maxBuckets);
      if nbuckets != newNb {
        GrowSpec(1, want, maxBuckets);
        Resize0(newNb);
      }
    }

    /**
     * resize0: moves every element into a fresh array of newNb buckets, into
     * bucket hashcode(key) mod newNb, prepending in the order the old chains
     * are walked; the threshold is reset when dynamic resizing is on.
     */
    method Resize0(newNb: int)
      requires Valid() && newNb > 0
      modifies this
      ensures Valid() && fresh(buckets) && nbuckets == newNb
      ensures contents == old(contents) && n == old(n)
      ensures capacity == if old(DynamicResizing()) then CapacityFor(true, newNb, maxBuckets, threshold) else old(capacity)
    {
      var newBuckets := new seq<Pair<K, V>>[newNb](_ => []);
      var oldBuckets := buckets;
      ghost var m := contents;
      nbuckets := newNb;
      buckets := newBuckets;
      if capacity < 0x7FFF_FFFF {
        SetDynamicResizing(true);
      }
      Rehash(oldBuckets, newBuckets, m);
    }

    /** The outer loop of resize0: moves every old chain, bucket by bucket, into the new array. */
    method Rehash(oldBuckets: array<seq<Pair<K, V>>>, newBuckets: array<seq<Pair<K, V>>>, ghost m: map<K, V>)
      requires oldBuckets != newBuckets && ChainsHold(oldBuckets[..], m, hashcode)
      requires newBuckets.Length > 0 && forall b :: 0 <= b < newBuckets.Length ==> newBuckets[b] == []
      modifies newBuckets
      ensures ChainsHold(newBuckets[..], m, hashcode)
    {
      var oldNb := oldBuckets.Length;
      ghost var moved: map<K, V> := map[];
      assert ChainsHold(newBuckets[..], moved, hashcode) by {
        forall b | 0 <= b < newBuckets.Length ensures ChainOk(newBuckets[..][b], b, newBuckets.Length, moved, hashcode) {
          assert newBuckets[..][b] == [];
        }
      }
      for i := 0 to oldNb
        invariant ChainsHold(newBuckets[..], moved, hashcode)
        invariant forall k :: k in moved <==> k in m && Slot(hashcode, k, oldNb) < i
        invariant forall k :: k in moved ==> moved[k] == m[k]
      {
        BucketKeys(oldBuckets[..], m, hashcode, i);
        moved := MoveChain(newBuckets, oldBuckets[i], moved, m);
      }
      assert moved == m;
    }

    /**
     * The inner loop of resize0: prepends each element of one old chain to its
     * bucket in the new array, in chain order.
     */
    method MoveChain(newBuckets: array<seq<Pair<K, V>>>, chain: seq<Pair<K, V>>, ghost moved: map<K, V>, ghost m: map<K, V>)
      returns (ghost moved2: map<K, V>)
      requires newBuckets.Length > 0 && ChainsHold(newBuckets[..], moved, hashcode)
      requires Distinct(chain) && forall j :: 0 <= j < |chain| ==> chain[j].key in m && m[chain[j].key] == chain[j].value
      requires forall j :: 0 <= j < |chain| ==> chain[j].key !in moved
      modifies newBuckets
      ensures ChainsHold(newBuckets[..], moved2, hashcode)
      ensures moved2.Keys == moved.Keys + KeysOf(chain)
      ensures forall k :: k in moved2 ==> if k in moved then moved2[k] == moved[k] else k in m && moved2[k] == m[k]
    {
      moved2 := moved;
      var j := 0;
      while j < |chain|
        invariant j <= |chain| && ChainsHold(newBuckets[..], moved2, hashcode)
        invariant moved2.Keys == moved.Keys + KeysOf(chain[..j])
        invariant forall k :: k in moved2 ==> if k in moved then moved2[k] == moved[k] else k in m && moved2[k] == m[k]
      {
        var e := chain[j];
        MovedStep(chain, j, moved, moved2, m);
        Prepend(newBuckets, e, moved2);
        moved2 := moved2[e.key := e.value];
        j := j + 1;
      }
      assert chain[..j] == chain;
    }

    /** The ghost bookkeeping of one step of MoveChain: the moved map gains chain[j]. */
    lemma MovedStep(chain: seq<Pair<K, V>>, j: nat, moved: map<K, V>, moved2: map<K, V>, m: map<K, V>)
      requires j < |chain| && Distinct(chain)
      requires chain[j].key in m && m[chain[j].key] == chain[j].value && chain[j].key !in moved
      requires moved2.Keys == moved.Keys + KeysOf(chain[..j])
      requires forall k :: k in moved2 ==> if k in moved then moved2[k] == moved[k] else k in m && moved2[k] == m[k]
      ensures chain[j].key !in moved2
      ensures var moved3 := moved2[chain[j].key := chain[j].value];
        && moved3.Keys == moved.Keys + KeysOf(chain[..j + 1])
        && forall k :: k in moved3 ==> if k in moved then moved3[k] == moved[k] else k in m && moved3[k] == m[k]
    {
      var e := chain[j];
      assert chain[..j + 1] == chain[..j] + [e];
      KeysOfSnoc(chain[..j], e);
    }

    /** One step of resize0's inner loop: the element goes to the front of its new bucket. */
    method Prepend(newBuckets: array<seq<Pair<K, V>>>, e: Pair<K, V>, ghost moved: map<K, V>)
      requires newBuckets.Length > 0 && ChainsHold(newBuckets[..], moved, hashcode) && e.key !in moved
      modifies newBuckets
      ensures ChainsHold(newBuckets[..], moved[e.key := e.value], hashcode)
      ensures var b := Slot(hashcode, e.key, newBuckets.Length);
        newBuckets[..] == old(newBuckets[..])[b := [e] + old(newBuckets[b])]
    {
      ghost var bs := newBuckets[..];
      PrependKeeps(bs, moved, hashcode, e.key, e.value);
      assert e == Pair(e.key, e.value);
      var b := Slot(hashcode, e.key, newBuckets.Length);
      newBuckets[b] := [e] + newBuckets[b];
      assert forall x :: 0 <= x < newBuckets.Length ==> newBuckets[..][x] == bs[b := [e] + bs[b]][x];
    }

    /** clear: every bucket empty, no elements; the bucket count stays. */
    method Clear()
      requires Valid()
      modifies this, buckets
      ensures Valid() && contents == map[] && n == 0
      ensures buckets == old(buckets) && nbuckets == old(nbuckets) && capacity == old(capacity)
    {
      for i := 0 to nbuckets
        invariant buckets == old(buckets) && nbuckets == old(nbuckets) && capacity == old(capacity)
        invariant forall j :: 0 <= j < i ==> buckets[j] == []
      {
        buckets[i] := [];
      }
      n := 0;
      contents := map[];
      assert ChainsHold(buckets[..], contents, hashcode) by {
        forall b | 0 <= b < nbuckets ensures ChainOk(buckets[..][b], b, nbuckets, contents, hashcode) {
          assert buckets[..][b] == [];
        }
      }
    }
  }
}
