/**
 * The oracle observers' sorted membership list: LearnedDHTObserver
 * (observers/learneddhtobserver.h/.C, over Chord_vnodes::IDMap) and
 * MarquesObserver (observers/marquesobserver.h/.C, over Chord_overlay::IDMap).
 * The two classes differ only in the protocol class they name and the two
 * IDMap classes are declared alike, so one Observer class models both.
 */
module OracleObserver {
  import opened Wrappers
  import opened ConsistentHash
  import opened ChordTypes

  /** _totallivenodes is an unsigned 32-bit counter. */
  const UINT_RANGE: int := 0x1_0000_0000

  // ------------------------------------------------------------ list edits

  /** vector::insert(p, 1, n): n placed at position p. */
  function InsertAt(s: seq<IDMap>, p: nat, n: IDMap): (r: seq<IDMap>)
    requires p <= |s|
    ensures |r| == |s| + 1 && r[p] == n
    ensures forall i :: 0 <= i < p ==> r[i] == s[i]
    ensures forall i :: p < i < |r| ==> r[i] == s[i - 1]
    ensures multiset(r) == multiset(s) + multiset{n}
  {
    assert s == s[..p] + s[p..];
    s[..p] + [n] + s[p..]
  }

  /** vector::erase(p): the entry at position p removed, the others kept in order. */
  function RemoveAt(s: seq<IDMap>, p: nat): (r: seq<IDMap>)
    requires p < |s|
    ensures |r| == |s| - 1
    ensures forall i :: 0 <= i < p ==> r[i] == s[i]
    ensures forall i :: p <= i < |r| ==> r[i] == s[i + 1]
    ensures multiset(r) == multiset(s) - multiset{s[p]}
  {
    assert s == s[..p] + [s[p]] + s[p + 1..];
    s[..p] + s[p + 1..]
  }

  /** Ids strictly increasing: sorted with one entry per id. */
  ghost predicate StrictById(s: seq<IDMap>)
  {
    forall i, j :: 0 <= i < j < |s| ==> s[i].id < s[j].id
  }

  ghost predicate HasId(s: seq<IDMap>, x: CHID)
  {
    exists i :: 0 <= i < |s| && s[i].id == x
  }

  ghost predicate HasIp(s: seq<IDMap>, ip: IPAddress)
  {
    exists i :: 0 <= i < |s| && s[i].ip == ip
  }

  /**
   * addnode's edit of ids: insert n at upper_bound(ids, n, cmp), the first
   * entry with id >= n.id, unless that entry already has n's id.  When every
   * id is below n.id the source dereferences end(); the model appends.
   */
  function AddToList(ids: seq<IDMap>, n: IDMap): seq<IDMap>
  {
    var p := UpperBoundCmp(ids, n.id);
    if p < |ids| && ids[p].id == n.id then ids else InsertAt(ids, p, n)
  }

  /**
   * kick's edit of ids on "join": the same sorted insert, skipped when the
   * entry found has n's ip (rather than its id); past the end it appends.
   */
  function JoinList(ids: seq<IDMap>, n: IDMap): seq<IDMap>
  {
    var p := UpperBoundCmp(ids, n.id);
    if p < |ids| && ids[p].ip == n.ip then ids else InsertAt(ids, p, n)
  }

  /**
   * delnode's and "crash"'s edit of ids: erase find(ids, n), the first entry
   * equal to n by id.  When there is none the source erases end(); the model
   * leaves the list unchanged.
   */
  function DelList(ids: seq<IDMap>, n: IDMap): seq<IDMap>
  {
    var p := FindById(ids, n.id);
    if p < |ids| then RemoveAt(ids, p) else ids
  }

  /** The constructor's entry for a network node: its ip and id, timestamp 0. */
  function Entry(node: (CHID, IPAddress)): (e: IDMap)
    ensures e.id == node.0 && e.ip == node.1 && e.timestamp == 0
  {
    IDMap(node.0, node.1, 0, 0, false)
  }

  function Entries(nodes: seq<(CHID, IPAddress)>): (r: seq<IDMap>)
    ensures |r| == |nodes|
    ensures forall i :: 0 <= i < |nodes| ==> r[i] == Entry(nodes[i])
  {
    if nodes == [] then [] else [Entry(nodes[0])] + Entries(nodes[1..])
  }

  // ---------------------------------------------------------------- lemmas

  /** Inserting at upper_bound with the <= comparator keeps a list sorted by id. */
  lemma InsertAtLowerBoundSorted(s: seq<IDMap>, n: IDMap)
    requires SortedById(s)
    ensures SortedById(InsertAt(s, UpperBoundCmp(s, n.id), n))
  {
    var p := UpperBoundCmp(s, n.id);
    UpperBoundCmpBounds(s, n.id);
    var r := InsertAt(s, p, n);
    forall i, j | 0 <= i < j < |r|
      ensures r[i].id <= r[j].id
    {
      if j < p {
        assert r[i] == s[i] && r[j] == s[j];
      } else if j == p {
        assert r[i] == s[i];
      } else if i == p {
        assert r[j] == s[j - 1] && s[p].id <= s[j - 1].id;
      } else if i < p {
        assert r[i] == s[i] && r[j] == s[j - 1];
      } else {
        assert r[i] == s[i - 1] && r[j] == s[j - 1];
      }
    }
  }

  /** The entry found by upper_bound has n's id exactly when some entry has it, on a sorted list. */
  lemma LowerBoundFindsId(s: seq<IDMap>, x: CHID)
    requires SortedById(s)
    ensures HasId(s, x) <==> (UpperBoundCmp(s, x) < |s| && s[UpperBoundCmp(s, x)].id == x)
  {
    var p := UpperBoundCmp(s, x);
    UpperBoundCmpBounds(s, x);
    if HasId(s, x) {
      var k :| 0 <= k < |s| && s[k].id == x;
      assert p <= k;
      assert s[p].id <= s[k].id;
    }
    if p < |s| && s[p].id == x {
      assert HasId(s, x);
    }
  }

  /** addnode keeps ids sorted. */
  lemma AddKeepsSorted(ids: seq<IDMap>, n: IDMap)
    requires SortedById(ids)
    ensures SortedById(AddToList(ids, n))
  {
    var p := UpperBoundCmp(ids, n.id);
    if !(p < |ids| && ids[p].id == n.id) {
      InsertAtLowerBoundSorted(ids, n);
    }
  }

  /** addnode keeps the ids of a list unique (strictly increasing). */
  lemma AddKeepsStrict(ids: seq<IDMap>, n: IDMap)
    requires StrictById(ids)
    ensures StrictById(AddToList(ids, n))
  {
    var p := UpperBoundCmp(ids, n.id);
    UpperBoundCmpBounds(ids, n.id);
    if !(p < |ids| && ids[p].id == n.id) {
      var r := InsertAt(ids, p, n);
      assert forall k :: p <= k < |ids| ==> n.id < ids[k].id by {
        forall k | p <= k < |ids| ensures n.id < ids[k].id {
          if k > p { assert ids[p].id < ids[k].id; }
        }
      }
      forall i, j | 0 <= i < j < |r|
        ensures r[i].id < r[j].id
      {
        if j < p {
          assert r[i] == ids[i] && r[j] == ids[j];
        } else if j == p {
          assert r[i] == ids[i];
        } else if i == p {
          assert r[j] == ids[j - 1];
        } else if i < p {
          assert r[i] == ids[i] && r[j] == ids[j - 1];
        } else {
          assert r[i] == ids[i - 1] && r[j] == ids[j - 1];
        }
      }
    }
  }

  /** After addnode n's id is listed and no other id was added or removed. */
  lemma AddIds(ids: seq<IDMap>, n: IDMap)
    ensures forall x :: HasId(AddToList(ids, n), x) <==> HasId(ids, x) || x == n.id
  {
    var p := UpperBoundCmp(ids, n.id);
    if p < |ids| && ids[p].id == n.id {
      assert HasId(ids, n.id);
    } else {
      var r := InsertAt(ids, p, n);
      forall x
        ensures HasId(r, x) <==> HasId(ids, x) || x == n.id
      {
        if HasId(r, x) {
          var k :| 0 <= k < |r| && r[k].id == x;
          if k < p {
            assert ids[k] == r[k];
          } else if k > p {
            assert ids[k - 1] == r[k];
          }
        }
        if HasId(ids, x) {
          var k :| 0 <= k < |ids| && ids[k].id == x;
          if k < p {
            assert r[k] == ids[k];
          } else {
            assert r[k + 1] == ids[k];
          }
        }
        if x == n.id {
          assert r[p] == n;
        }
      }
    }
  }

  /**
   * On a sorted list addnode changes nothing when n's id is already listed,
   * and otherwise adds exactly n; a second addnode of the same node is a
   * no-op on the list.
   */
  lemma AddContents(ids: seq<IDMap>, n: IDMap)
    requires SortedById(ids)
    ensures HasId(ids, n.id) ==> AddToList(ids, n) == ids
    ensures !HasId(ids, n.id) ==> multiset(AddToList(ids, n)) == multiset(ids) + multiset{n}
    ensures AddToList(AddToList(ids, n), n) == AddToList(ids, n)
  {
    LowerBoundFindsId(ids, n.id);
    AddKeepsSorted(ids, n);
    AddIds(ids, n);
    var r := AddToList(ids, n);
    assert HasId(r, n.id);
    LowerBoundFindsId(r, n.id);
  }

  /** On a list without n's id, delnode undoes addnode. */
  lemma DelUndoesAdd(ids: seq<IDMap>, n: IDMap)
    requires !HasId(ids, n.id)
    ensures DelList(AddToList(ids, n), n) == ids
  {
    var p := UpperBoundCmp(ids, n.id);
    assert !(p < |ids| && ids[p].id == n.id);
    var r := InsertAt(ids, p, n);
    assert FindById(r, n.id) == p;
    assert RemoveAt(r, p) == ids;
  }

  /** Erasing an entry keeps a list sorted, and unique if it was. */
  lemma RemoveKeepsOrder(s: seq<IDMap>, p: nat)
    requires p < |s|
    ensures SortedById(s) ==> SortedById(RemoveAt(s, p))
    ensures StrictById(s) ==> StrictById(RemoveAt(s, p))
  {
    var r := RemoveAt(s, p);
    assert forall i :: 0 <= i < |r| ==> r[i] == s[if i < p then i else i + 1];
  }

  /** delnode keeps ids sorted, and unique if they were. */
  lemma DelKeepsOrder(ids: seq<IDMap>, n: IDMap)
    ensures SortedById(ids) ==> SortedById(DelList(ids, n))
    ensures StrictById(ids) ==> StrictById(DelList(ids, n))
  {
    var p := FindById(ids, n.id);
    if p < |ids| {
      RemoveKeepsOrder(ids, p);
    }
  }

  /**
   * delnode removes exactly the entry found when n's id is listed and
   * nothing otherwise; on a unique list exactly n's id disappears.
   */
  lemma DelContents(ids: seq<IDMap>, n: IDMap)
    ensures HasId(ids, n.id) ==>
      multiset(DelList(ids, n)) == multiset(ids) - multiset{ids[FindById(ids, n.id)]}
    ensures !HasId(ids, n.id) ==> DelList(ids, n) == ids
    ensures StrictById(ids) ==> forall x :: HasId(DelList(ids, n), x) <==> HasId(ids, x) && x != n.id
  {
    var p := FindById(ids, n.id);
    if p < |ids| {
      assert HasId(ids, n.id);
      var r := RemoveAt(ids, p);
      if StrictById(ids) {
        forall x
          ensures HasId(r, x) <==> HasId(ids, x) && x != n.id
        {
          if HasId(r, x) {
            var k :| 0 <= k < |r| && r[k].id == x;
            var k' := if k < p then k else k + 1;
            assert ids[k'] == r[k] && k' != p;
          }
          if HasId(ids, x) && x != n.id {
            var k :| 0 <= k < |ids| && ids[k].id == x;
            assert k != p;
            if k < p {
              assert r[k] == ids[k];
            } else {
              assert r[k - 1] == ids[k];
            }
          }
        }
      }
    }
  }

  /**
   * "join" keeps ids sorted; it adds exactly n when n's ip is not listed,
   * keeps the ids unique when n's id was not listed, and changes nothing
   * when n's own entry (same id and ip) is already in a unique list.
   */
  lemma JoinKeepsOrder(ids: seq<IDMap>, n: IDMap)
    requires SortedById(ids)
    ensures SortedById(JoinList(ids, n))
    ensures JoinList(ids, n) == ids || multiset(JoinList(ids, n)) == multiset(ids) + multiset{n}
    ensures !HasIp(ids, n.ip) ==> multiset(JoinList(ids, n)) == multiset(ids) + multiset{n}
    ensures StrictById(ids) && !HasId(ids, n.id) ==> StrictById(JoinList(ids, n))
    ensures StrictById(ids) && (exists k :: 0 <= k < |ids| && ids[k].id == n.id && ids[k].ip == n.ip) ==>
      JoinList(ids, n) == ids
  {
    var p := UpperBoundCmp(ids, n.id);
    UpperBoundCmpBounds(ids, n.id);
    InsertAtLowerBoundSorted(ids, n);
    if p < |ids| && ids[p].ip == n.ip {
      assert HasIp(ids, n.ip);
    } else {
      if StrictById(ids) && !HasId(ids, n.id) {
        LowerBoundFindsId(ids, n.id);
        AddKeepsStrict(ids, n);
        assert JoinList(ids, n) == AddToList(ids, n);
      }
    }
    if StrictById(ids) && (exists k :: 0 <= k < |ids| && ids[k].id == n.id && ids[k].ip == n.ip) {
      var k :| 0 <= k < |ids| && ids[k].id == n.id && ids[k].ip == n.ip;
      assert p == k;
    }
  }

  /** On a list holding neither n's id nor its ip, "crash" undoes "join". */
  lemma CrashUndoesJoin(ids: seq<IDMap>, n: IDMap)
    requires !HasId(ids, n.id) && !HasIp(ids, n.ip)
    ensures JoinList(ids, n) == AddToList(ids, n)
    ensures DelList(JoinList(ids, n), n) == ids
  {
    var p := UpperBoundCmp(ids, n.id);
    if p < |ids| {
      assert ids[p].ip != n.ip && ids[p].id != n.id;
    }
    DelUndoesAdd(ids, n);
  }

  // ------------------------------------------------------------- the class

  /**
   * The constructor's push_back loop followed by sort(ids, cmp): here each
   * entry is placed at its upper_bound, which yields a list sorted by id that
   * holds exactly the given entries.
   */
  method SortById(entries: seq<IDMap>) returns (r: seq<IDMap>)
    ensures SortedById(r)
    ensures multiset(r) == multiset(entries)
  {
    r := [];
    for i := 0 to |entries|
      invariant SortedById(r)
      invariant multiset(r) == multiset(entries[..i])
    {
      r := InsertSorted(r, entries[i]);
      assert entries[..i + 1] == entries[..i] + [entries[i]];
    }
    assert entries[..|entries|] == entries;
  }

  /** One step of SortById: the entry goes in at its upper_bound. */
  method InsertSorted(s: seq<IDMap>, n: IDMap) returns (r: seq<IDMap>)
    requires SortedById(s)
    ensures SortedById(r)
    ensures multiset(r) == multiset(s) + multiset{n}
  {
    InsertAtLowerBoundSorted(s, n);
    r := InsertAt(s, UpperBoundCmp(s, n.id), n);
  }

  class Observer {
    /** _oracle_num: the "oracle" argument (0 when absent). */
    const oracleNum: nat
    var ids: seq<IDMap>
    var totalLiveNodes: nat

    ghost predicate Valid()
      reads this
    {
      SortedById(ids) && totalLiveNodes < UINT_RANGE
    }

    /** The observer over the network's nodes, given as (id, ip) pairs. */
    constructor (oracle: nat, nodes: seq<(CHID, IPAddress)>)
      ensures Valid()
      ensures oracleNum == oracle && totalLiveNodes == 0
      ensures multiset(ids) == multiset(Entries(nodes))
    {
      var sorted := SortById(Entries(nodes));
      oracleNum := oracle;
      totalLiveNodes := 0;
      ids := sorted;
    }

    /** get_sorted_nodes: the list itself, which must not be empty. */
    method GetSortedNodes() returns (r: seq<IDMap>)
      requires Valid() && |ids| > 0
      ensures r == ids && SortedById(r) && |r| > 0
    {
      return ids;
    }

    /**
     * addnode: a no-op with an oracle; otherwise the sorted insert, and the
     * live-node count goes up by one (mod 2^32) even when the id was listed.
     */
    method AddNode(n: IDMap)
      requires Valid()
      modifies this
      ensures Valid()
      ensures oracleNum != 0 ==> ids == old(ids) && totalLiveNodes == old(totalLiveNodes)
      ensures oracleNum == 0 ==> ids == AddToList(old(ids), n)
      ensures oracleNum == 0 ==> totalLiveNodes == (old(totalLiveNodes) + 1) % UINT_RANGE
    {
      if oracleNum != 0 {
        return;
      }
      AddKeepsSorted(ids, n);
      ids := AddToList(ids, n);
      totalLiveNodes := (totalLiveNodes + 1) % UINT_RANGE;
    }

    /** delnode: erase the entry with n's id; the count goes down by one (mod 2^32). */
    method DelNode(n: IDMap)
      requires Valid()
      modifies this
      ensures Valid()
      ensures ids == DelList(old(ids), n)
      ensures totalLiveNodes == (old(totalLiveNodes) + UINT_RANGE - 1) % UINT_RANGE
    {
      DelKeepsOrder(ids, n);
      ids := DelList(ids, n);
      totalLiveNodes := (totalLiveNodes + UINT_RANGE - 1) % UINT_RANGE;
    }

    /**
     * kick's maintenance of ids for node n: nothing without event info; on
     * "join" the sorted insert unless the entry found has n's ip; on "crash"
     * the erase of n's entry, whose ip the source asserts to be n's; other
     * events change nothing.  An event requires an oracle (asserted).
     */
    method Kick(info: Option<string>, n: IDMap)
      requires Valid()
      requires info.Some? ==> oracleNum != 0
      requires info == Some("crash") ==> FindById(ids, n.id) < |ids| && ids[FindById(ids, n.id)].ip == n.ip
      modifies this
      ensures Valid()
      ensures totalLiveNodes == old(totalLiveNodes)
      ensures info == Some("join") ==> ids == JoinList(old(ids), n)
      ensures info == Some("crash") ==> ids == DelList(old(ids), n)
      ensures info != Some("join") && info != Some("crash") ==> ids == old(ids)
    {
      if info.None? {
        return;
      }
      var event := info.value;
      if event == "join" {
        JoinKeepsOrder(ids, n);
        ids := JoinList(ids, n);
      } else if event == "crash" {
        DelKeepsOrder(ids, n);
        ids := DelList(ids, n);
      }
    }
  }
}
