/**
 * The 64-bit consistent-hashing identifier space shared by the virtual-node
 * protocol, the key store and the oracle.  ConsistentHash::distance and
 * ConsistentHash::between are collaborators whose bodies are not part of this
 * model; they are given here with their assumed meaning only:
 *   distance(a, b) = (b - a) mod 2^64, and
 *   between(lo, hi, x) holds when x lies strictly inside the clockwise arc (lo, hi).
 */
module ConsistentHash {

  /** Size of the identifier space (CHID is a 64-bit unsigned integer). */
  const RING: int := 0x1_0000_0000_0000_0000

  type CHID = x: int | 0 <= x < RING

  /** Clockwise distance from a to b. */
  function Distance(a: CHID, b: CHID): (d: CHID)
    ensures d == 0 <==> a == b
    ensures a <= b ==> d == b - a
    ensures b < a ==> d == RING - a + b
  {
    (b - a) % RING
  }

  /** 64-bit unsigned addition, wrapping around. */
  function Add(a: CHID, b: int): (r: CHID)
    requires 0 <= b
    ensures Distance(a, r) == b % RING
  {
    (a + b) % RING
  }

  /** x lies strictly inside the clockwise arc from lo to hi; the arc (lo, lo) is empty. */
  predicate Between(lo: CHID, hi: CHID, x: CHID)
  {
    0 < Distance(lo, x) < Distance(lo, hi)
  }

  /** Between read in plain integer terms: the two non-wrapping and the wrapping case. */
  lemma BetweenCases(lo: CHID, hi: CHID, x: CHID)
    ensures lo < hi ==> (Between(lo, hi, x) <==> lo < x < hi)
    ensures hi < lo ==> (Between(lo, hi, x) <==> lo < x || x < hi)
    ensures lo == hi ==> !Between(lo, hi, x)
  {
  }

  /** Going once round the ring: distances there and back add up to the ring size. */
  lemma DistanceRoundTrip(a: CHID, b: CHID)
    requires a != b
    ensures Distance(a, b) + Distance(b, a) == RING
  {
  }

  ghost predicate Sorted(s: seq<CHID>)
  {
    forall i, j :: 0 <= i < j < |s| ==> s[i] <= s[j]
  }

  /** Index of the first element >= t, or |s| (std::lower_bound on a sorted list). */
  function FirstAtLeast(s: seq<CHID>, t: CHID): (p: nat)
    ensures p <= |s|
    ensures forall i :: 0 <= i < p ==> s[i] < t
    ensures p < |s| ==> t <= s[p]
  {
    if s == [] then 0
    else if t <= s[0] then 0
    else 1 + FirstAtLeast(s[1..], t)
  }

  /** Index of the first element > t, or |s| (std::upper_bound on a sorted list). */
  function FirstAbove(s: seq<CHID>, t: CHID): (p: nat)
    ensures p <= |s|
    ensures forall i :: 0 <= i < p ==> s[i] <= t
    ensures p < |s| ==> t < s[p]
  {
    if s == [] then 0
    else if t < s[0] then 0
    else 1 + FirstAbove(s[1..], t)
  }

  /** An index past the end wraps around to the first entry. */
  function Wrap(p: nat, n: nat): nat
  {
    if p < n then p else 0
  }

  /**
   * On a sorted list, the first entry >= t (wrapping to the first entry) is
   * the ring successor of t: no entry is clockwise closer to t.
   */
  lemma {:induction false} FirstAtLeastIsRingSuccessor(s: seq<CHID>, t: CHID)
    requires Sorted(s) && |s| > 0
    ensures var p := Wrap(FirstAtLeast(s, t), |s|);
      forall k :: 0 <= k < |s| ==> Distance(t, s[p]) <= Distance(t, s[k])
  {
    var q := FirstAtLeast(s, t);
    var p := Wrap(q, |s|);
    forall k | 0 <= k < |s|
      ensures Distance(t, s[p]) <= Distance(t, s[k])
    {
      if q < |s| {
        if k >= q {
          assert s[q] <= s[k];
        } else {
          assert s[k] < t;
        }
      } else {
        assert s[0] <= s[k];
      }
    }
  }

  /**
   * On a sorted list, the first entry > t (wrapping to the first entry) is the
   * strict ring successor of t: among the entries different from t, none is
   * clockwise closer.
   */
  lemma {:induction false} FirstAboveIsStrictRingSuccessor(s: seq<CHID>, t: CHID)
    requires Sorted(s) && |s| > 0
    ensures var p := Wrap(FirstAbove(s, t), |s|);
      forall k :: 0 <= k < |s| && s[k] != t ==>
        s[p] != t && Distance(t, s[p]) <= Distance(t, s[k])
  {
    var q := FirstAbove(s, t);
    var p := Wrap(q, |s|);
    forall k | 0 <= k < |s| && s[k] != t
      ensures s[p] != t && Distance(t, s[p]) <= Distance(t, s[k])
    {
      if q < |s| {
        if k >= q {
          assert s[q] <= s[k];
        } else {
          assert s[k] <= t;
        }
      } else {
        assert s[0] <= s[k];
        assert s[k] <= t;
      }
    }
  }
}
