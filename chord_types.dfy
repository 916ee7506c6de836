/**
 * Value types shared by Chord_overlay (protocols/chord_overlay.h) and
 * Chord_vnodes (protocols/chordv.h): the IDMap member record with its
 * comparator and equality, the three-way id comparator of the skip lists,
 * the TIMEOUT formula and the location-table entry idmapwrap.  The two
 * headers declare these textually identically; one definition serves both.
 */
module ChordTypes {
  import opened ConsistentHash

  /** A 32-bit IP address as the simulator uses it; 0 means "no node". */
  type IPAddress = x: int | 0 <= x < 0x1_0000_0000

  /** Simulated time (64-bit unsigned). */
  type Time = x: int | 0 <= x < 0x1_0000_0000_0000_0000

  /** A ring member; the raw data_address pointer is not modelled. */
  datatype IDMap = IDMap(id: CHID, ip: IPAddress, timestamp: Time, alivetime: Time, isVNode: bool)

  /** IDMap::cmp, the comparator given to sort and upper_bound: non-strict. */
  predicate Cmp(a: IDMap, b: IDMap)
  {
    a.id <= b.id
  }

  /** IDMap::operator==: members are identified by id alone. */
  predicate Same(a: IDMap, b: IDMap)
  {
    a.id == b.id
  }

  /** Cmp is reflexive (so it is not a strict weak order) and total. */
  lemma CmpIsTotalButNotStrict(a: IDMap, b: IDMap)
    ensures Cmp(a, a)
    ensures Cmp(a, b) || Cmp(b, a)
    ensures Cmp(a, b) && Cmp(b, a) <==> Same(a, b)
  {
  }

  /** Equality by id ignores every other field. */
  lemma SameIgnoresOtherFields(a: IDMap, ip: IPAddress, ts: Time)
    ensures Same(a, a.(ip := ip, timestamp := ts))
    ensures a.ip != ip ==> a != a.(ip := ip, timestamp := ts)
  {
  }

  /** idmapcompare: three-way comparison of ids used to order the skip lists. */
  function IdCompare(a: CHID, b: CHID): (r: int)
    ensures r == 0 <==> a == b
    ensures r < 0 <==> a < b
    ensures r > 0 <==> a > b
  {
    if a == b then 0 else if a < b then -1 else 1
  }

  /** The comparator is antisymmetric and its values are exactly -1, 0 and 1. */
  lemma IdCompareAntisymmetric(a: CHID, b: CHID)
    ensures IdCompare(a, b) == -IdCompare(b, a)
    ensures IdCompare(a, b) in {-1, 0, 1}
  {
  }

  ghost predicate SortedById(s: seq<IDMap>)
  {
    forall i, j :: 0 <= i < j < |s| ==> s[i].id <= s[j].id
  }

  function Ids(s: seq<IDMap>): (r: seq<CHID>)
    ensures |r| == |s|
    ensures forall i :: 0 <= i < |s| ==> r[i] == s[i].id
  {
    if s == [] then [] else [s[0].id] + Ids(s[1..])
  }

  lemma SortedIds(s: seq<IDMap>)
    requires SortedById(s)
    ensures Sorted(Ids(s))
  {
  }

  /**
   * upper_bound(ids, n, IDMap::cmp): the first position p with cmp(n, ids[p]),
   * i.e. the first entry whose id is >= n.id; |ids| when there is none.
   */
  function UpperBoundCmp(ids: seq<IDMap>, t: CHID): (p: nat)
    ensures p <= |ids|
  {
    if ids == [] then 0
    else if t <= ids[0].id then 0
    else 1 + UpperBoundCmp(ids[1..], t)
  }

  /**
   * Because the comparator is <= rather than <, upper_bound returns the first
   * entry with id >= n.id (a lower bound), not the first entry > n.id.
   */
  lemma UpperBoundCmpIsFirstAtLeast(ids: seq<IDMap>, t: CHID)
    ensures UpperBoundCmp(ids, t) == FirstAtLeast(Ids(ids), t)
    ensures forall i :: 0 <= i < UpperBoundCmp(ids, t) ==> ids[i].id < t
    ensures UpperBoundCmp(ids, t) < |ids| ==> t <= ids[UpperBoundCmp(ids, t)].id
  {
    UpperBoundCmpBounds(ids, t);
  }

  /** The position upper_bound with <= finds: every earlier id is below t, the one there is not. */
  lemma {:induction false} UpperBoundCmpBounds(ids: seq<IDMap>, t: CHID)
    ensures forall i :: 0 <= i < UpperBoundCmp(ids, t) ==> ids[i].id < t
    ensures UpperBoundCmp(ids, t) < |ids| ==> t <= ids[UpperBoundCmp(ids, t)].id
  {
    if ids != [] && t > ids[0].id {
      UpperBoundCmpBounds(ids[1..], t);
    }
  }

  /** find(ids.begin(), ids.end(), n): the first entry equal to n by id; |ids| if none. */
  function FindById(ids: seq<IDMap>, id: CHID): (p: nat)
    ensures p <= |ids|
    ensures forall i :: 0 <= i < p ==> ids[i].id != id
    ensures p < |ids| ==> ids[p].id == id
  {
    if ids == [] then 0
    else if ids[0].id == id then 0
    else 1 + FindById(ids[1..], id)
  }

  /**
   * TIMEOUT(src, dst): twice the topology latency times the multiplier when the
   * latency is at most 1000, otherwise 1000.
   */
  function Timeout(latency: nat, multiplier: nat): nat
  {
    if latency <= 1000 then multiplier * 2 * latency else 1000
  }

  /**
   * Up to a latency of 1000 the timeout grows with the latency and scales with
   * the multiplier; past 1000 it is the flat 1000, so with any multiplier of at
   * least 1 it is not monotone: it drops from latency 1000 to 1001.
   */
  lemma TimeoutShape(l1: nat, l2: nat, multiplier: nat)
    ensures l1 <= l2 <= 1000 ==> Timeout(l1, multiplier) <= Timeout(l2, multiplier)
    ensures l1 <= 1000 ==> Timeout(l1, 2 * multiplier) == 2 * Timeout(l1, multiplier)
    ensures 1000 < l1 && 1000 < l2 ==> Timeout(l1, multiplier) == Timeout(l2, multiplier + 1)
    ensures multiplier >= 1 ==> Timeout(1000, multiplier) > Timeout(1001, multiplier)
  {
    if l1 <= l2 <= 1000 {
      assert multiplier * 2 * l1 <= multiplier * 2 * l2 by {
        MulMonotone(multiplier * 2, l1, l2);
      }
    }
  }

  lemma MulMonotone(a: nat, x: nat, y: nat)
    requires x <= y
    ensures a * x <= a * y
  {
  }

  /** Health status constants of a location-table entry. */
  const LOC_REPLACEMENT: int := 0
  const LOC_HEALTHY: int := 1
  const LOC_ONCHECK: int := 2
  const LOC_DEAD: int := 6

  /** LocTable_vnodes::idmapwrap / LocTable_mnodes::idmapwrap, without its skip-list link. */
  datatype IdMapWrap = IdMapWrap(n: IDMap, id: CHID, isSucc: bool, status: int,
                                 fs: CHID, fe: CHID, follower: CHID)

  /**
   * The idmapwrap constructor: the entry wraps x under x's id, starts as a
   * replacement entry (status 0, not yet healthy), is not a successor and has
   * an empty finger range and no follower.
   */
  function NewIdMapWrap(x: IDMap): IdMapWrap
  {
    IdMapWrap(x, x.id, false, 0, 0, 0, 0)
  }

  /**
   * What the location table relies on when it files new entries in its skip
   * list under idmapcompare: two new entries compare equal exactly when their
   * nodes are equal by operator==, they are ordered as their nodes' ids are,
   * the node is kept whole, and a new entry is neither healthy (so
   * succ(id, LOC_HEALTHY) does not return it) nor a successor: it starts as a
   * replacement entry with an empty finger range and no follower.
   */
  lemma NewIdMapWrapOrder(x: IDMap, y: IDMap)
    ensures IdCompare(NewIdMapWrap(x).id, NewIdMapWrap(y).id) == 0 <==> Same(x, y)
    ensures IdCompare(NewIdMapWrap(x).id, NewIdMapWrap(y).id) < 0 <==> Cmp(x, y) && !Same(x, y)
    ensures NewIdMapWrap(x).n == x && NewIdMapWrap(x).status != LOC_HEALTHY && !NewIdMapWrap(x).isSucc
    ensures NewIdMapWrap(x).status == LOC_REPLACEMENT
    ensures NewIdMapWrap(x).fs == 0 && NewIdMapWrap(x).fe == 0 && NewIdMapWrap(x).follower == 0
  {
  }
}
