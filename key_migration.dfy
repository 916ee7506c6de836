/**
 * The per-node key store and migrate_data, the handler a node runs when a new
 * node asks it for the keys the new node now owns.  Chord_vnodes::migrate_data
 * (protocols/chordv.h) and Chord_overlay::migrate_data
 * (protocols/chord_overlay.h) are the same code; ChordNode.MigrateData models
 * both.  The skip list key_pairs is a collaborator whose body is not part of
 * this model: KeyList gives it the assumed meaning of a list kept strictly
 * ascending by hash id, whose insert leaves the list unchanged when the hash id
 * is already present and whose remove drops the pair with the given hash id.
 */
module KeyMigration {
  import opened ConsistentHash

  /** key_pair: a stored key, by its ring position and its original key. */
  datatype KeyPair = KeyPair(hashId: CHID, originalKey: CHID)

  ghost predicate StrictlySorted(s: seq<KeyPair>)
  {
    forall i, j :: 0 <= i < j < |s| ==> s[i].hashId < s[j].hashId
  }

  predicate HasHash(s: seq<KeyPair>, h: CHID)
  {
    exists i :: 0 <= i < |s| && s[i].hashId == h
  }

  /** skiplist::insert: inserts in ascending position unless the hash id is present. */
  function SortedInsert(s: seq<KeyPair>, p: KeyPair): (r: seq<KeyPair>)
  {
    if s == [] then [p]
    else if p.hashId < s[0].hashId then [p] + s
    else if p.hashId == s[0].hashId then s
    else [s[0]] + SortedInsert(s[1..], p)
  }

  /** skiplist::remove: drops the pair with hash id h. */
  function RemoveHash(s: seq<KeyPair>, h: CHID): (r: seq<KeyPair>)
  {
    if s == [] then []
    else if s[0].hashId == h then RemoveHash(s[1..], h)
    else [s[0]] + RemoveHash(s[1..], h)
  }

  /** Inserting adds p exactly when its hash id was absent, and otherwise keeps the list. */
  lemma {:induction false} SortedInsertContents(s: seq<KeyPair>, p: KeyPair)
    requires StrictlySorted(s)
    ensures HasHash(s, p.hashId) ==> SortedInsert(s, p) == s
    ensures !HasHash(s, p.hashId) ==> multiset(SortedInsert(s, p)) == multiset(s) + multiset{p}
  {
    if s == [] {
    } else if p.hashId < s[0].hashId {
      assert !HasHash(s, p.hashId);
    } else if p.hashId == s[0].hashId {
    } else {
      var t := s[1..];
      assert s == [s[0]] + t;
      assert HasHash(s, p.hashId) ==> HasHash(t, p.hashId) by {
        if HasHash(s, p.hashId) {
          var i :| 0 <= i < |s| && s[i].hashId == p.hashId;
          assert t[i - 1].hashId == p.hashId;
        }
      }
      assert HasHash(t, p.hashId) ==> HasHash(s, p.hashId) by {
        if HasHash(t, p.hashId) {
          var i :| 0 <= i < |t| && t[i].hashId == p.hashId;
          assert s[i + 1].hashId == p.hashId;
        }
      }
      SortedInsertContents(t, p);
    }
  }

  /** Inserting keeps the list strictly sorted, and p's hash id is present afterwards. */
  lemma {:induction false} SortedInsertSorted(s: seq<KeyPair>, p: KeyPair)
    requires StrictlySorted(s)
    ensures StrictlySorted(SortedInsert(s, p))
    ensures HasHash(SortedInsert(s, p), p.hashId)
    ensures forall q :: q in SortedInsert(s, p) ==> q in s || q == p
  {
    if s == [] {
      assert SortedInsert(s, p)[0] == p;
    } else if p.hashId < s[0].hashId {
      assert SortedInsert(s, p)[0] == p;
    } else if p.hashId == s[0].hashId {
    } else {
      var t := s[1..];
      SortedInsertSorted(t, p);
      var r := SortedInsert(t, p);
      assert SortedInsert(s, p) == [s[0]] + r;
      forall k | 0 <= k < |r| ensures s[0].hashId < r[k].hashId {
        assert r[k] in r;
      }
      var i :| 0 <= i < |r| && r[i].hashId == p.hashId;
      assert SortedInsert(s, p)[i + 1].hashId == p.hashId;
    }
  }

  lemma SortedInsertSpec(s: seq<KeyPair>, p: KeyPair)
    requires StrictlySorted(s)
    ensures StrictlySorted(SortedInsert(s, p))
    ensures HasHash(SortedInsert(s, p), p.hashId)
    ensures multiset(s) <= multiset(SortedInsert(s, p))
  {
    SortedInsertSorted(s, p);
    SortedInsertContents(s, p);
  }

  /** On a strictly sorted list, removing the first pair's hash id drops exactly that pair. */
  lemma {:induction false} RemoveFirstHash(s: seq<KeyPair>)
    requires StrictlySorted(s) && |s| > 0
    ensures RemoveHash(s, s[0].hashId) == s[1..]
  {
    AbsentHashUnaffected(s[1..], s[0].hashId);
  }

  lemma {:induction false} AbsentHashUnaffected(s: seq<KeyPair>, h: CHID)
    requires forall i :: 0 <= i < |s| ==> s[i].hashId != h
    ensures RemoveHash(s, h) == s
  {
    if s != [] {
      AbsentHashUnaffected(s[1..], h);
    }
  }

  /** A pair is migrated when it is clockwise closer to the new node than to this one. */
  predicate Closer(p: KeyPair, newId: CHID, meId: CHID)
  {
    Distance(p.hashId, newId) < Distance(p.hashId, meId)
  }

  /**
   * End of the leading run of pairs, from index i on, that are closer to the new
   * node: the loop of migrate_data stops at the first pair that is not.
   */
  function RunFrom(s: seq<KeyPair>, i: nat, newId: CHID, meId: CHID): (r: nat)
    requires i <= |s|
    ensures i <= r <= |s|
    ensures forall k :: i <= k < r ==> Closer(s[k], newId, meId)
    ensures r < |s| ==> !Closer(s[r], newId, meId)
    decreases |s| - i
  {
    if i == |s| || !Closer(s[i], newId, meId) then i
    else RunFrom(s, i + 1, newId, meId)
  }

  /** Number of pairs migrate_data moves: the maximal closer leading run. */
  function MovedCount(s: seq<KeyPair>, newId: CHID, meId: CHID): nat
  {
    RunFrom(s, 0, newId, meId)
  }

  /** Inserting pairs one after another, in order, into a skip list. */
  function InsertAll(l: seq<KeyPair>, ps: seq<KeyPair>): seq<KeyPair>
    decreases |ps|
  {
    if ps == [] then l else InsertAll(SortedInsert(l, ps[0]), ps[1..])
  }

  lemma {:induction false} InsertAllSnoc(l: seq<KeyPair>, ps: seq<KeyPair>, p: KeyPair)
    ensures InsertAll(l, ps + [p]) == SortedInsert(InsertAll(l, ps), p)
    decreases |ps|
  {
    if ps == [] {
      assert [p][1..] == [];
    } else {
      assert (ps + [p])[1..] == ps[1..] + [p];
      InsertAllSnoc(SortedInsert(l, ps[0]), ps[1..], p);
    }
  }

  /**
   * Every inserted pair ends up in the target list with its hash id; the target
   * list stays strictly sorted and loses nothing it held before.
   */
  lemma {:induction false} InsertAllSpec(l: seq<KeyPair>, ps: seq<KeyPair>)
    requires StrictlySorted(l)
    ensures StrictlySorted(InsertAll(l, ps))
    ensures multiset(l) <= multiset(InsertAll(l, ps))
    ensures forall k :: 0 <= k < |ps| ==> HasHash(InsertAll(l, ps), ps[k].hashId)
    decreases |ps|
  {
    if ps != [] {
      var l' := SortedInsert(l, ps[0]);
      SortedInsertSpec(l, ps[0]);
      InsertAllSpec(l', ps[1..]);
      var r := InsertAll(l', ps[1..]);
      HasHashGrows(l', r, ps[0].hashId);
      forall k | 1 <= k < |ps| ensures HasHash(r, ps[k].hashId) {
        assert ps[1..][k - 1] == ps[k];
      }
    }
  }

  lemma HasHashGrows(a: seq<KeyPair>, b: seq<KeyPair>, h: CHID)
    requires multiset(a) <= multiset(b) && HasHash(a, h)
    ensures HasHash(b, h)
  {
    var i :| 0 <= i < |a| && a[i].hashId == h;
    assert a[i] in multiset(a);
    assert a[i] in multiset(b);
    var j :| 0 <= j < |b| && b[j] == a[i];
  }

  /** The skip list key_pairs of one node. */
  class KeyList {
    var pairs: seq<KeyPair>

    ghost predicate Valid()
      reads this
    {
      StrictlySorted(pairs)
    }

    constructor ()
      ensures Valid() && pairs == []
    {
      pairs := [];
    }

    method Insert(p: KeyPair)
      requires Valid()
      modifies this
      ensures Valid() && pairs == SortedInsert(old(pairs), p)
    {
      SortedInsertSpec(pairs, p);
      pairs := SortedInsert(pairs, p);
    }

    method Remove(h: CHID)
      modifies this
      ensures pairs == RemoveHash(old(pairs), h)
    {
      pairs := RemoveHash(pairs, h);
    }
  }

  /** The part of a Chord node that migrate_data touches: its id and its key store. */
  class ChordNode {
    const meId: CHID
    const keyPairs: KeyList

    constructor (id: CHID)
      ensures meId == id && fresh(keyPairs) && keyPairs.Valid() && keyPairs.pairs == []
    {
      meId := id;
      keyPairs := new KeyList();
    }

    /**
     * migrate_data: walks key_pairs in ascending hash order, copies into the new
     * node's list the leading run of pairs closer to newId than to this node,
     * stops at the first pair that is not, and removes the copied pairs from its
     * own list.  The returned reference is this node's own list.
     */
    method MigrateData(newList: KeyList, newId: CHID) returns (dataAddress: KeyList)
      requires keyPairs.Valid() && newList.Valid() && newList != keyPairs
      modifies keyPairs, newList
      ensures dataAddress == keyPairs
      ensures keyPairs.Valid() && newList.Valid()
      ensures var m := MovedCount(old(keyPairs.pairs), newId, meId);
        && keyPairs.pairs == old(keyPairs.pairs)[m..]
        && newList.pairs == InsertAll(old(newList.pairs), old(keyPairs.pairs)[..m])
    {
      dataAddress := keyPairs;
      ghost var s := keyPairs.pairs;
      var keyVector := CopyRun(newList, newId);
      RemoveRun(keyVector, s);
    }

    /**
     * The walk of migrate_data: copies the leading run of closer pairs into the
     * new list and returns their hash ids, in order.
     */
    method CopyRun(newList: KeyList, newId: CHID) returns (keyVector: seq<CHID>)
      requires keyPairs.Valid() && newList.Valid() && newList != keyPairs
      modifies newList
      ensures |keyVector| == MovedCount(keyPairs.pairs, newId, meId)
      ensures keyVector == HashIds(keyPairs.pairs[..|keyVector|])
      ensures newList.Valid() && newList.pairs == InsertAll(old(newList.pairs), keyPairs.pairs[..|keyVector|])
    {
      ghost var s := keyPairs.pairs;
      ghost var l0 := newList.pairs;
      keyVector := [];
      var i := 0;
      while i < |keyPairs.pairs|
        invariant keyPairs.pairs == s && newList.Valid()
        invariant 0 <= i <= |s| && i == |keyVector|
        invariant RunFrom(s, i, newId, meId) == MovedCount(s, newId, meId)
        invariant newList.pairs == InsertAll(l0, s[..i])
        invariant keyVector == HashIds(s[..i])
      {
        var current := keyPairs.pairs[i];
        if Distance(current.hashId, newId) < Distance(current.hashId, meId) {
          CopyPair(newList, current, l0, s[..i]);
          HashIdsSnoc(s[..i], current);
          assert s[..i + 1] == s[..i] + [current];
          keyVector := keyVector + [current.hashId];
        } else {
          break;
        }
        i := i + 1;
      }
    }

    /** One copy of the walk: the pair is inserted in sorted position into the new list. */
    method CopyPair(newList: KeyList, current: KeyPair, ghost l0: seq<KeyPair>, ghost done: seq<KeyPair>)
      requires newList.Valid() && newList.pairs == InsertAll(l0, done)
      modifies newList
      ensures newList.Valid() && newList.pairs == InsertAll(l0, done + [current])
    {
      newList.Insert(KeyPair(current.hashId, current.originalKey));
      InsertAllSnoc(l0, done, current);
    }

    /** The removal loop of migrate_data: removing the copied hash ids leaves the rest of the list. */
    method RemoveRun(keyVector: seq<CHID>, ghost s: seq<KeyPair>)
      requires keyPairs.Valid() && keyPairs.pairs == s
      requires |keyVector| <= |s| && keyVector == HashIds(s[..|keyVector|])
      modifies keyPairs
      ensures keyPairs.Valid() && keyPairs.pairs == s[|keyVector|..]
    {
      RemovePrefix(s, |keyVector|, keyVector);
      var t := 0;
      while t < |keyVector|
        invariant 0 <= t <= |keyVector|
        invariant keyPairs.pairs == s[t..] && keyPairs.Valid()
      {
        keyPairs.Remove(keyVector[t]);
        t := t + 1;
      }
    }

    /**
     * The hand-over migrate_data evidently intends: every pair closer to the
     * new node than to this one is copied to the new node's list and removed
     * from this list, wherever it sits in the ascending walk.
     */
    method MigrateCloser(newList: KeyList, newId: CHID) returns (dataAddress: KeyList)
      requires keyPairs.Valid() && newList.Valid() && newList != keyPairs
      modifies keyPairs, newList
      ensures dataAddress == keyPairs
      ensures keyPairs.Valid() && newList.Valid()
      ensures keyPairs.pairs == KeptPairs(old(keyPairs.pairs), newId, meId)
      ensures newList.pairs == InsertAll(old(newList.pairs), CloserPairs(old(keyPairs.pairs), newId, meId))
    {
      dataAddress := keyPairs;
      var s := keyPairs.pairs;
      ghost var l0 := newList.pairs;
      assert StrictlySorted(s);
      for i := 0 to |s|
        invariant StrictlySorted(s)
        invariant keyPairs.pairs == KeptPairs(s[..i], newId, meId) + s[i..]
        invariant newList.pairs == InsertAll(l0, CloserPairs(s[..i], newId, meId))
        invariant newList.Valid()
      {
        HandOverStep(s, i, newList, newId, l0);
      }
      assert s[..|s|] == s;
      KeptSorted(s, newId, meId);
    }

    /** One pass of MigrateCloser's walk: pair i goes to the new list or stays. */
    method HandOverStep(s: seq<KeyPair>, i: nat, newList: KeyList, newId: CHID, ghost l0: seq<KeyPair>)
      requires i < |s| && StrictlySorted(s) && newList != keyPairs && newList.Valid()
      requires keyPairs.pairs == KeptPairs(s[..i], newId, meId) + s[i..]
      requires newList.pairs == InsertAll(l0, CloserPairs(s[..i], newId, meId))
      modifies keyPairs, newList
      ensures keyPairs.pairs == KeptPairs(s[..i + 1], newId, meId) + s[i + 1..]
      ensures newList.pairs == InsertAll(l0, CloserPairs(s[..i + 1], newId, meId)) && newList.Valid()
    {
      var current := s[i];
      ghost var before := s[..i];
      SliceStep(s, i);
      SplitSnoc(before, current, newId, meId);
      if Closer(current, newId, meId) {
        newList.Insert(current);
        InsertAllSnoc(l0, CloserPairs(before, newId, meId), current);
        assert CloserPairs(s[..i + 1], newId, meId) == CloserPairs(before, newId, meId) + [current];
        assert newList.pairs == InsertAll(l0, CloserPairs(s[..i + 1], newId, meId));
        RemoveCurrent(s, i, newId, meId);
        keyPairs.Remove(current.hashId);
        assert newList.pairs == InsertAll(l0, CloserPairs(s[..i + 1], newId, meId));
      } else {
        assert CloserPairs(s[..i + 1], newId, meId) == CloserPairs(before, newId, meId);
        assert KeptPairs(before, newId, meId) + s[i..] == (KeptPairs(before, newId, meId) + [current]) + s[i + 1..];
      }
    }
  }

  function HashIds(s: seq<KeyPair>): (r: seq<CHID>)
    ensures |r| == |s|
    ensures forall k :: 0 <= k < |s| ==> r[k] == s[k].hashId
  {
    if s == [] then [] else [s[0].hashId] + HashIds(s[1..])
  }

  lemma HashIdsSnoc(s: seq<KeyPair>, p: KeyPair)
    ensures HashIds(s + [p]) == HashIds(s) + [p.hashId]
  {
  }

  /** Removing the hash ids of a prefix of a strictly sorted list, one by one, leaves the suffix. */
  lemma RemovePrefix(s: seq<KeyPair>, m: nat, ks: seq<CHID>)
    requires StrictlySorted(s) && m <= |s| && ks == HashIds(s[..m])
    ensures forall t :: 0 <= t < m ==> RemoveHash(s[t..], ks[t]) == s[t + 1..]
  {
    forall t | 0 <= t < m ensures RemoveHash(s[t..], ks[t]) == s[t + 1..] {
      RemoveFirstHash(s[t..]);
      assert s[t..][1..] == s[t + 1..];
    }
  }

  /**
   * migrate_data neither creates nor loses pairs when the new node holds none
   * of the moved hash ids: this node's rest and the new node's list together
   * hold exactly the pairs both held before.
   */
  lemma MigrationConserves(s: seq<KeyPair>, l: seq<KeyPair>, newId: CHID, meId: CHID)
    requires StrictlySorted(s) && StrictlySorted(l)
    requires forall k :: 0 <= k < MovedCount(s, newId, meId) ==> !HasHash(l, s[k].hashId)
    ensures var m := MovedCount(s, newId, meId);
      multiset(s[m..]) + multiset(InsertAll(l, s[..m])) == multiset(s) + multiset(l)
  {
    var m := MovedCount(s, newId, meId);
    var ps, kept := s[..m], s[m..];
    assert s == ps + kept;
    assert multiset(s) == multiset(ps) + multiset(kept);
    forall k | 0 <= k < |ps| ensures !HasHash(l, ps[k].hashId) {
      assert ps[k] == s[k];
    }
    InsertAllConserves(l, ps);
  }

  /** Inserting pairs with distinct hash ids absent from l adds exactly those pairs. */
  lemma {:induction false} InsertAllConserves(l: seq<KeyPair>, ps: seq<KeyPair>)
    requires StrictlySorted(l) && StrictlySorted(ps)
    requires forall k :: 0 <= k < |ps| ==> !HasHash(l, ps[k].hashId)
    ensures multiset(InsertAll(l, ps)) == multiset(l) + multiset(ps)
    decreases |ps|
  {
    if ps != [] {
      var p, rest := ps[0], ps[1..];
      var l' := SortedInsert(l, p);
      SortedInsertContents(l, p);
      SortedInsertSorted(l, p);
      forall k | 0 <= k < |rest| ensures !HasHash(l', rest[k].hashId) {
        var h := rest[k].hashId;
        assert rest[k] == ps[k + 1] && p.hashId < h;
        forall i | 0 <= i < |l'| ensures l'[i].hashId != h {
          assert l'[i] in l';
          if l'[i] != p {
            assert l'[i] in l;
          }
        }
      }
      InsertAllConserves(l', rest);
      assert ps == [p] + rest;
    }
  }

  // ---- Wrap-around: the leading run misses keys past the top of the id space ----

  /** All pairs closer to the new node, wherever they sit in the list. */
  function CloserPairs(s: seq<KeyPair>, newId: CHID, meId: CHID): (r: seq<KeyPair>)
  {
    if s == [] then []
    else (if Closer(s[0], newId, meId) then [s[0]] else []) + CloserPairs(s[1..], newId, meId)
  }

  /** All pairs that stay. */
  function KeptPairs(s: seq<KeyPair>, newId: CHID, meId: CHID): (r: seq<KeyPair>)
  {
    if s == [] then []
    else (if Closer(s[0], newId, meId) then [] else [s[0]]) + KeptPairs(s[1..], newId, meId)
  }

  /**
   * The corrected split: a pair is handed over exactly when it is closer to the
   * new node, and no pair is created or lost.
   */
  lemma {:induction false} CloserSplitSpec(s: seq<KeyPair>, newId: CHID, meId: CHID)
    ensures forall p :: p in CloserPairs(s, newId, meId) <==> p in s && Closer(p, newId, meId)
    ensures forall p :: p in KeptPairs(s, newId, meId) <==> p in s && !Closer(p, newId, meId)
    ensures multiset(CloserPairs(s, newId, meId)) + multiset(KeptPairs(s, newId, meId)) == multiset(s)
  {
    CloserMembers(s, newId, meId);
    KeptMembers(s, newId, meId);
    SplitMultiset(s, newId, meId);
  }

  lemma {:induction false} CloserMembers(s: seq<KeyPair>, newId: CHID, meId: CHID)
    ensures forall p :: p in CloserPairs(s, newId, meId) <==> p in s && Closer(p, newId, meId)
  {
    if s != [] {
      CloserMembers(s[1..], newId, meId);
      assert s == [s[0]] + s[1..];
    }
  }

  lemma {:induction false} KeptMembers(s: seq<KeyPair>, newId: CHID, meId: CHID)
    ensures forall p :: p in KeptPairs(s, newId, meId) <==> p in s && !Closer(p, newId, meId)
  {
    if s != [] {
      KeptMembers(s[1..], newId, meId);
      assert s == [s[0]] + s[1..];
    }
  }

  lemma {:induction false} SplitMultiset(s: seq<KeyPair>, newId: CHID, meId: CHID)
    ensures multiset(CloserPairs(s, newId, meId)) + multiset(KeptPairs(s, newId, meId)) == multiset(s)
  {
    if s != [] {
      SplitMultiset(s[1..], newId, meId);
      assert s == [s[0]] + s[1..];
    }
  }

  /**
   * When no key crosses the top of the id space (every hash id is at most this
   * node's id) and the new node precedes this node, the leading run is exactly
   * the set of closer pairs: migrate_data is correct there.
   */
  lemma {:induction false} RunIsCloserWithoutWrap(s: seq<KeyPair>, newId: CHID, meId: CHID)
    requires StrictlySorted(s) && newId < meId
    requires forall k :: 0 <= k < |s| ==> s[k].hashId <= meId
    ensures s[..MovedCount(s, newId, meId)] == CloserPairs(s, newId, meId)
    ensures s[MovedCount(s, newId, meId)..] == KeptPairs(s, newId, meId)
  {
    var m := MovedCount(s, newId, meId);
    forall k | 0 <= k < |s|
      ensures Closer(s[k], newId, meId) <==> s[k].hashId <= newId
    {
    }
    forall k | 0 <= k < |s|
      ensures Closer(s[k], newId, meId) <==> k < m
    {
      if k < m {
      } else if m < |s| {
        assert !Closer(s[m], newId, meId);
        assert s[m].hashId <= s[k].hashId;
      }
    }
    PrefixFilter(s, newId, meId, m);
  }

  lemma {:induction false} PrefixFilter(s: seq<KeyPair>, newId: CHID, meId: CHID, m: nat)
    requires m <= |s|
    requires forall k :: 0 <= k < |s| ==> (Closer(s[k], newId, meId) <==> k < m)
    ensures s[..m] == CloserPairs(s, newId, meId)
    ensures s[m..] == KeptPairs(s, newId, meId)
  {
    var head, tail := s[..m], s[m..];
    forall k | 0 <= k < |head| ensures Closer(head[k], newId, meId) {
      assert head[k] == s[k];
    }
    forall k | 0 <= k < |tail| ensures !Closer(tail[k], newId, meId) {
      assert tail[k] == s[m + k];
    }
    AllCloser(head, newId, meId);
    NoneCloser(tail, newId, meId);
    assert s == head + tail;
    CloserAppend(head, tail, newId, meId);
    KeptAppend(head, tail, newId, meId);
  }

  /** A list of pairs that are all closer is handed over whole. */
  lemma {:induction false} AllCloser(s: seq<KeyPair>, newId: CHID, meId: CHID)
    requires forall k :: 0 <= k < |s| ==> Closer(s[k], newId, meId)
    ensures CloserPairs(s, newId, meId) == s && KeptPairs(s, newId, meId) == []
  {
    if s != [] {
      var rest := s[1..];
      forall k | 0 <= k < |rest| ensures Closer(rest[k], newId, meId) {
        assert rest[k] == s[k + 1];
      }
      AllCloser(rest, newId, meId);
      assert Closer(s[0], newId, meId);
      assert s == [s[0]] + rest;
    }
  }

  /** A list of pairs none of which is closer stays whole. */
  lemma {:induction false} NoneCloser(s: seq<KeyPair>, newId: CHID, meId: CHID)
    requires forall k :: 0 <= k < |s| ==> !Closer(s[k], newId, meId)
    ensures CloserPairs(s, newId, meId) == [] && KeptPairs(s, newId, meId) == s
  {
    if s != [] {
      var rest := s[1..];
      forall k | 0 <= k < |rest| ensures !Closer(rest[k], newId, meId) {
        assert rest[k] == s[k + 1];
      }
      NoneCloser(rest, newId, meId);
      assert !Closer(s[0], newId, meId);
      assert s == [s[0]] + rest;
    }
  }

  /** Selecting the closer pairs distributes over concatenation. */
  lemma {:induction false} CloserAppend(a: seq<KeyPair>, b: seq<KeyPair>, newId: CHID, meId: CHID)
    ensures CloserPairs(a + b, newId, meId) == CloserPairs(a, newId, meId) + CloserPairs(b, newId, meId)
  {
    if a != [] {
      CloserAppend(a[1..], b, newId, meId);
      assert (a + b)[0] == a[0];
      assert (a + b)[1..] == a[1..] + b;
    } else {
      assert a + b == b;
    }
  }

  /** Selecting the kept pairs distributes over concatenation. */
  lemma {:induction false} KeptAppend(a: seq<KeyPair>, b: seq<KeyPair>, newId: CHID, meId: CHID)
    ensures KeptPairs(a + b, newId, meId) == KeptPairs(a, newId, meId) + KeptPairs(b, newId, meId)
  {
    if a != [] {
      KeptAppend(a[1..], b, newId, meId);
      assert (a + b)[0] == a[0];
      assert (a + b)[1..] == a[1..] + b;
    } else {
      assert a + b == b;
    }
  }

  /**
   * As written, migrate_data loses keys at the wrap-around: with this node at
   * id 5 holding hash ids 1 and 2^64-2, a new node at 2^64-1 should receive the
   * key at 2^64-2, but the walk stops at the first key (id 1), so nothing moves.
   */
  lemma MigrateDataMissesWrappedKey()
    ensures var s := [KeyPair(1, 10), KeyPair(RING - 2, 20)];
      && StrictlySorted(s)
      && MovedCount(s, RING - 1, 5) == 0
      && Closer(s[1], RING - 1, 5)
      && CloserPairs(s, RING - 1, 5) == [s[1]]
  {
    var s := [KeyPair(1, 10), KeyPair(RING - 2, 20)];
    assert !Closer(s[0], RING - 1, 5);
    assert Closer(s[1], RING - 1, 5);
    assert s[1..] == [s[1]] && s[1..][1..] == [];
    assert CloserPairs(s[1..], RING - 1, 5) == [s[1]];
  }

  /** Splitting one more pair: it goes to the closer or to the kept side. */
  lemma {:induction false} SplitSnoc(s: seq<KeyPair>, p: KeyPair, newId: CHID, meId: CHID)
    ensures CloserPairs(s + [p], newId, meId) == CloserPairs(s, newId, meId) + (if Closer(p, newId, meId) then [p] else [])
    ensures KeptPairs(s + [p], newId, meId) == KeptPairs(s, newId, meId) + (if Closer(p, newId, meId) then [] else [p])
  {
    var tail := if Closer(p, newId, meId) then [p] else [];
    var rest := if Closer(p, newId, meId) then [] else [p];
    if s == [] {
      assert [p][1..] == [];
      assert s + [p] == [p];
    } else {
      var t := s + [p];
      assert t[0] == s[0] && t[1..] == s[1..] + [p];
      SplitSnoc(s[1..], p, newId, meId);
      var c0 := if Closer(s[0], newId, meId) then [s[0]] else [];
      var k0 := if Closer(s[0], newId, meId) then [] else [s[0]];
      assert CloserPairs(t, newId, meId) == c0 + (CloserPairs(s[1..], newId, meId) + tail);
      assert c0 + (CloserPairs(s[1..], newId, meId) + tail) == (c0 + CloserPairs(s[1..], newId, meId)) + tail;
      assert KeptPairs(t, newId, meId) == k0 + (KeptPairs(s[1..], newId, meId) + rest);
      assert k0 + (KeptPairs(s[1..], newId, meId) + rest) == (k0 + KeptPairs(s[1..], newId, meId)) + rest;
    }
  }

  lemma SliceStep(s: seq<KeyPair>, i: nat)
    requires i < |s|
    ensures s[..i + 1] == s[..i] + [s[i]] && s[i..] == [s[i]] + s[i + 1..]
  {
  }

  lemma {:induction false} RemoveHashAppend(a: seq<KeyPair>, b: seq<KeyPair>, h: CHID)
    ensures RemoveHash(a + b, h) == RemoveHash(a, h) + RemoveHash(b, h)
  {
    if a == [] {
      assert a + b == b;
    } else {
      assert (a + b)[1..] == a[1..] + b;
      RemoveHashAppend(a[1..], b, h);
    }
  }

  /**
   * On a strictly sorted list, removing the hash id of pair i from the kept
   * pairs before i followed by the pairs from i on drops exactly pair i.
   */
  lemma RemoveCurrent(s: seq<KeyPair>, i: nat, newId: CHID, meId: CHID)
    requires StrictlySorted(s) && i < |s|
    ensures RemoveHash(KeptPairs(s[..i], newId, meId) + s[i..], s[i].hashId)
      == KeptPairs(s[..i], newId, meId) + s[i + 1..]
  {
    var k := KeptPairs(s[..i], newId, meId);
    var h := s[i].hashId;
    var rest := s[i + 1..];
    KeptBelow(s, i, newId, meId);
    AbsentHashUnaffected(k, h);
    RestAbove(s, i, rest);
    AbsentHashUnaffected(rest, h);
    assert s[i..] == [s[i]] + rest;
    RemoveHashAppend(k, s[i..], h);
    RemoveHashAppend([s[i]], rest, h);
    assert [s[i]][1..] == [];
    assert RemoveHash([s[i]], h) == [];
  }

  /** The kept pairs before index i of a strictly sorted list all lack pair i's hash id. */
  lemma KeptBelow(s: seq<KeyPair>, i: nat, newId: CHID, meId: CHID)
    requires StrictlySorted(s) && i < |s|
    ensures forall x :: 0 <= x < |KeptPairs(s[..i], newId, meId)| ==>
      KeptPairs(s[..i], newId, meId)[x].hashId != s[i].hashId
  {
    var before := s[..i];
    var k := KeptPairs(before, newId, meId);
    KeptMembers(before, newId, meId);
    forall x | 0 <= x < |k| ensures k[x].hashId != s[i].hashId {
      assert k[x] in before;
      var j :| 0 <= j < |before| && before[j] == k[x];
      assert before[j] == s[j] && j < i;
    }
  }

  /** The pairs after index i of a strictly sorted list all lack pair i's hash id. */
  lemma RestAbove(s: seq<KeyPair>, i: nat, rest: seq<KeyPair>)
    requires StrictlySorted(s) && i < |s| && rest == s[i + 1..]
    ensures forall x :: 0 <= x < |rest| ==> rest[x].hashId != s[i].hashId
  {
    forall x | 0 <= x < |rest| ensures rest[x].hashId != s[i].hashId {
      assert rest[x] == s[i + 1 + x];
    }
  }

  /** The kept pairs of a strictly sorted list are strictly sorted. */
  lemma {:induction false} KeptSorted(s: seq<KeyPair>, newId: CHID, meId: CHID)
    requires StrictlySorted(s)
    ensures StrictlySorted(KeptPairs(s, newId, meId))
  {
    if s != [] {
      KeptSorted(s[1..], newId, meId);
      KeptMembers(s[1..], newId, meId);
      var r := KeptPairs(s[1..], newId, meId);
      forall x | 0 <= x < |r| ensures s[0].hashId < r[x].hashId {
        assert r[x] in r;
      }
    }
  }
}
