/**
 * The virtual-node finger logic of protocols/learned_dht.C (class VNode).
 *
 * A node with id me places fingers at me + lap*j for a geometric series of
 * laps: lap starts at 2^64 - 1 and is divided by the base at the top of every
 * round, j runs over 1 .. base - 1, and a target closer to me than the gap
 * to the ring successor (min_lap) is skipped.  initstate fills the location
 * table from the oracle's sorted member list, stabilized compares the table
 * with that list, and fix_fingers / reschedule_finger_stabilizer refresh the
 * table periodically.
 *
 * The location table's bodies are not part of this model: what the node asks
 * of it is an input (a function, or one answer per finger check), and what it
 * does to it is recorded, in order, in the node's event log.
 */
module LearnedDht {
  import opened Wrappers
  import opened ConsistentHash
  import opened ChordTypes

  // ------------------------------------------------------------ arithmetic

  function Pow(b: nat, k: nat): (r: nat)
    ensures b > 0 ==> r > 0
  {
    if k == 0 then 1 else b * Pow(b, k - 1)
  }

  lemma DivUnique(a: nat, b: nat, q: nat, r: nat)
    requires b > 0 && a == q * b + r && r < b
    ensures a / b == q
  {
    var q0 := a / b;
    var r0 := a % b;
    assert a == q0 * b + r0;
    var d := q0 - q;
    assert d * b == q0 * b - q * b;
    assert d * b == r - r0;
  }

  lemma DivShrinks(a: nat, b: nat)
    requires a > 0 && b >= 2
    ensures 0 <= a / b < a
  {
  }

  lemma MulLe(x: nat, y: nat, b: nat)
    requires x <= y
    ensures x * b <= y * b
  {
    assert y * b == x * b + (y - x) * b;
  }

  lemma Regroup(q: nat, b: nat, c: nat, r1: nat)
    ensures q * (b * c) + r1 * b == (q * c + r1) * b
  {
    assert q * (b * c) == (q * c) * b;
  }

  /** Dividing twice is dividing by the product (unsigned division). */
  lemma DivDiv(a: nat, b: nat, c: nat)
    requires b > 0 && c > 0
    ensures a / b / c == a / (b * c)
  {
    var bc := b * c;
    var q := a / bc;
    var r := a % bc;
    var r1 := r / b;
    var r0 := r % b;
    assert r1 < c by {
      if r1 >= c {
        MulLe(c, r1, b);
      }
    }
    var x := q * c + r1;
    Regroup(q, b, c, r1);
    assert a == x * b + r0;
    DivUnique(a, b, x, r0);
    DivUnique(x, c, q, r1);
  }

  // ------------------------------------------------------- finger targets

  /** One finger target: the lap of its round, its multiplier j and the id it aims at. */
  datatype Target = Target(lap: CHID, j: nat, finger: CHID)

  /**
   * The targets of one round whose lap is already divided, for j = from, ...,
   * base - 1, in that order; a target with lap*j < minLap is skipped.
   */
  function RoundTargets(me: CHID, base: nat, minLap: CHID, lap: CHID, from: nat): seq<Target>
    decreases base - from
  {
    if from >= base then []
    else
      (if lap * from < minLap then [] else [Target(lap, from, FingerAt(me, lap, from))])
      + RoundTargets(me, base, minLap, lap, from + 1)
  }

  /**
   * The targets of all rounds still to come when the current lap is `lap`:
   * while lap > minLap, divide it by base and enumerate that round.
   */
  function Schedule(me: CHID, base: nat, minLap: CHID, lap: CHID): seq<Target>
    requires base >= 2
    decreases lap
  {
    if lap <= minLap then []
    else
      DivShrinks(lap, base);
      RoundTargets(me, base, minLap, lap / base, 1) + Schedule(me, base, minLap, lap / base)
  }

  /** The whole enumeration of initstate, stabilized and dump. */
  function Fingers(me: CHID, base: nat, minLap: CHID): seq<Target>
    requires base >= 2
  {
    Schedule(me, base, minLap, RING - 1)
  }

  lemma {:induction false} RoundTargetsMembers(me: CHID, base: nat, minLap: CHID, lap: CHID, from: nat, t: Target)
    ensures t in RoundTargets(me, base, minLap, lap, from) <==>
      t.lap == lap && from <= t.j < base && t.lap * t.j >= minLap && t.finger == Add(me, lap * t.j)
    decreases base - from
  {
    if from < base {
      RoundTargetsMembers(me, base, minLap, lap, from + 1, t);
    }
  }

  /**
   * Target t belongs to round k >= 1 of an enumeration started at lap L: the
   * laps are L / base^k, the round runs only while the previous lap
   * L / base^(k-1) exceeds minLap, and within it lap*j must reach minLap.
   */
  ghost predicate InRound(me: CHID, base: nat, minLap: CHID, L: CHID, k: nat, t: Target)
    requires base >= 2
  {
    1 <= k && L / Pow(base, k - 1) > minLap && t.lap == L / Pow(base, k)
    && 1 <= t.j < base && t.lap * t.j >= minLap && t.finger == Add(me, t.lap * t.j)
  }

  lemma RoundShift(me: CHID, base: nat, minLap: CHID, L: CHID, k: nat, t: Target)
    requires base >= 2 && k >= 1
    ensures InRound(me, base, minLap, L / base, k, t) <==> InRound(me, base, minLap, L, k + 1, t)
  {
    DivDiv(L, base, Pow(base, k - 1));
    DivDiv(L, base, Pow(base, k));
    assert Pow(base, k + 1) == base * Pow(base, k);
    assert Pow(base, k) == base * Pow(base, k - 1);
  }

  lemma FirstRound(me: CHID, base: nat, minLap: CHID, L: CHID, t: Target)
    requires base >= 2
    ensures InRound(me, base, minLap, L, 1, t) <==>
      L > minLap && t in RoundTargets(me, base, minLap, L / base, 1)
  {
    assert Pow(base, 1) == base;
    assert Pow(base, 0) == 1;
    RoundTargetsMembers(me, base, minLap, L / base, 1, t);
  }

  lemma DivLe(a: nat, b: nat)
    requires b > 0
    ensures a / b <= a
  {
    if b > 1 && a > 0 {
      DivShrinks(a, b);
    }
  }

  lemma {:induction false} ScheduleInRound(me: CHID, base: nat, minLap: CHID, L: CHID, t: Target)
    requires base >= 2 && t in Schedule(me, base, minLap, L)
    ensures exists k: nat :: InRound(me, base, minLap, L, k, t)
    decreases L
  {
    FirstRound(me, base, minLap, L, t);
    assert L > minLap;
    var L' := L / base;
    DivShrinks(L, base);
    assert Schedule(me, base, minLap, L) == RoundTargets(me, base, minLap, L', 1) + Schedule(me, base, minLap, L');
    if t in RoundTargets(me, base, minLap, L', 1) {
      assert InRound(me, base, minLap, L, 1, t);
    } else {
      assert t in Schedule(me, base, minLap, L');
      ScheduleInRound(me, base, minLap, L', t);
      var k: nat :| InRound(me, base, minLap, L', k, t);
      RoundShift(me, base, minLap, L, k, t);
      assert InRound(me, base, minLap, L, k + 1, t);
    }
  }

  lemma {:induction false} InRoundSchedule(me: CHID, base: nat, minLap: CHID, L: CHID, k: nat, t: Target)
    requires base >= 2 && InRound(me, base, minLap, L, k, t)
    ensures t in Schedule(me, base, minLap, L)
    decreases L
  {
    FirstRound(me, base, minLap, L, t);
    DivLe(L, Pow(base, k - 1));
    if k >= 2 {
      DivShrinks(L, base);
      RoundShift(me, base, minLap, L, k - 1, t);
      InRoundSchedule(me, base, minLap, L / base, k - 1, t);
    }
  }

  /**
   * Closed form of the enumeration: a target is produced exactly when it lies
   * in some round k >= 1 in the sense of InRound.
   */
  lemma ScheduleMembers(me: CHID, base: nat, minLap: CHID, L: CHID, t: Target)
    requires base >= 2
    ensures t in Schedule(me, base, minLap, L) <==> exists k: nat :: InRound(me, base, minLap, L, k, t)
  {
    if t in Schedule(me, base, minLap, L) {
      ScheduleInRound(me, base, minLap, L, t);
    }
    if exists k: nat :: InRound(me, base, minLap, L, k, t) {
      var k: nat :| InRound(me, base, minLap, L, k, t);
      InRoundSchedule(me, base, minLap, L, k, t);
    }
  }

  /** Stepping d < 2^64 clockwise from me lands at distance exactly d. */
  lemma AddDistance(me: CHID, d: nat)
    requires d < RING
    ensures Distance(me, Add(me, d)) == d
  {
  }

  lemma RoundProductFits(L: CHID, base: nat, j: nat)
    requires base >= 2 && 1 <= j < base
    ensures (L / base) * j <= L
  {
    MulLe(j, base, L / base);
    assert (L / base) * base <= L;
  }

  /**
   * Every target of the enumeration started at L: its lap is below L, its
   * multiplier lies in 1 .. base - 1, and lap*j lies between minLap and L, so
   * it never overflows 64 bits and is exactly the clockwise distance from me
   * to the finger.
   */
  lemma {:induction false} ScheduleSound(me: CHID, base: nat, minLap: CHID, L: CHID, t: Target)
    requires base >= 2 && t in Schedule(me, base, minLap, L)
    ensures t.lap < L && 1 <= t.j < base
    ensures minLap <= t.lap * t.j <= L
    ensures Distance(me, t.finger) == t.lap * t.j
    decreases L
  {
    var L' := L / base;
    DivShrinks(L, base);
    var round := RoundTargets(me, base, minLap, L', 1);
    var later := Schedule(me, base, minLap, L');
    assert Schedule(me, base, minLap, L) == round + later;
    RoundTargetsMembers(me, base, minLap, L', 1, t);
    if t in round {
      RoundProductFits(L, base, t.j);
      AddDistance(me, t.lap * t.j);
    } else {
      assert t in later;
      ScheduleSound(me, base, minLap, L', t);
    }
  }

  // ------------------------------------------------------------ min_lap

  /** Ids strictly increasing (the oracle keeps one entry per id, sorted). */
  ghost predicate StrictlyIncreasing(s: seq<CHID>)
  {
    forall i, j :: 0 <= i < j < |s| ==> s[i] < s[j]
  }

  /** min_lap: the clockwise gap from the entry at myPos to the next entry, wrapping. */
  function MinLap(s: seq<CHID>, myPos: nat): CHID
    requires myPos < |s|
  {
    Distance(s[myPos], s[(myPos + 1) % |s|])
  }

  /**
   * On a strictly increasing list of at least two ids, min_lap is the gap to
   * the ring successor: it is positive and no other id is clockwise closer.
   * On a one-entry list it is 0.
   */
  lemma MinLapIsSuccessorGap(s: seq<CHID>, myPos: nat)
    requires StrictlyIncreasing(s) && myPos < |s|
    ensures |s| == 1 ==> MinLap(s, myPos) == 0
    ensures |s| >= 2 ==> 0 < MinLap(s, myPos)
    ensures forall k :: 0 <= k < |s| && k != myPos ==> MinLap(s, myPos) <= Distance(s[myPos], s[k])
  {
    var n := (myPos + 1) % |s|;
    var me := s[myPos];
    if myPos + 1 < |s| {
      assert n == myPos + 1;
      assert me < s[n];
      forall k | 0 <= k < |s| && k != myPos ensures Distance(me, s[n]) <= Distance(me, s[k]) {
        if k > myPos {
          assert s[n] <= s[k];
        } else {
          assert s[k] < me;
        }
      }
    } else {
      assert n == 0;
      forall k | 0 <= k < |s| && k != myPos ensures Distance(me, s[n]) <= Distance(me, s[k]) {
        assert k < myPos && s[k] < me;
        if k > 0 {
          assert s[0] < s[k];
        }
      }
    }
  }

  /**
   * No finger target lies strictly inside the arc from me to its ring
   * successor, and with two or more members no target is me itself.
   */
  lemma FingersAvoidSuccessorArc(base: nat, s: seq<CHID>, myPos: nat, t: Target)
    requires base >= 2 && StrictlyIncreasing(s) && myPos < |s|
    requires t in Fingers(s[myPos], base, MinLap(s, myPos))
    ensures !Between(s[myPos], s[(myPos + 1) % |s|], t.finger)
    ensures |s| >= 2 ==> t.finger != s[myPos]
  {
    ScheduleSound(s[myPos], base, MinLap(s, myPos), RING - 1, t);
    MinLapIsSuccessorGap(s, myPos);
  }

  // ---------------------------------------------------------- initstate

  /**
   * The entry initstate adds for target t: the entry at
   * upper_bound(ids, t.finger, IDMap::cmp) % |ids|, when its id lies strictly
   * inside (t.finger, t.finger + t.lap); otherwise nothing.
   */
  function InitChoice(ids: seq<IDMap>, t: Target): Option<IDMap>
    requires |ids| > 0
  {
    var e := ids[UpperBoundCmp(ids, t.finger) % |ids|];
    if Between(t.finger, Add(t.finger, t.lap), e.id) then Some(e) else None
  }

  function InitAdds(ids: seq<IDMap>, ts: seq<Target>): seq<IDMap>
    requires |ids| > 0
  {
    if ts == [] then []
    else
      (match InitChoice(ids, ts[0]) case Some(e) => [e] case None => [])
      + InitAdds(ids, ts[1..])
  }

  lemma InitAddsCons(ids: seq<IDMap>, t: Target, rest: seq<Target>)
    requires |ids| > 0
    ensures InitAdds(ids, [t] + rest) ==
      (match InitChoice(ids, t) case Some(e) => [e] case None => []) + InitAdds(ids, rest)
  {
    assert ([t] + rest)[1..] == rest;
  }

  lemma {:induction false} InitAddsAppend(ids: seq<IDMap>, a: seq<Target>, b: seq<Target>)
    requires |ids| > 0
    ensures InitAdds(ids, a + b) == InitAdds(ids, a) + InitAdds(ids, b)
  {
    if a != [] {
      var hd := match InitChoice(ids, a[0]) case Some(e) => [e] case None => [];
      assert (a + b)[0] == a[0] && (a + b)[1..] == a[1..] + b;
      InitAddsAppend(ids, a[1..], b);
      assert InitAdds(ids, a + b) == hd + (InitAdds(ids, a[1..]) + InitAdds(ids, b));
      assert InitAdds(ids, a) == hd + InitAdds(ids, a[1..]);
    } else {
      assert a + b == b;
    }
  }

  /** An index at most n, taken modulo n, is the index wrapped past the end. */
  lemma ModWraps(q: nat, n: nat)
    requires 0 < n && q <= n
    ensures q % n == Wrap(q, n)
  {
    if q == n {
      DivUnique(q, n, 1, 0);
    } else {
      DivUnique(q, n, 0, q);
    }
  }

  /** On a list sorted by id, initstate's candidate is the member clockwise closest to f. */
  lemma InitCandidateClosest(ids: seq<IDMap>, f: CHID)
    requires |ids| > 0 && SortedById(ids)
    ensures forall k :: 0 <= k < |ids| ==>
      Distance(f, ids[UpperBoundCmp(ids, f) % |ids|].id) <= Distance(f, ids[k].id)
  {
    var q := UpperBoundCmp(ids, f);
    UpperBoundCmpIsFirstAtLeast(ids, f);
    SortedIds(ids);
    FirstAtLeastIsRingSuccessor(Ids(ids), f);
    var p := Wrap(q, |ids|);
    ModWraps(q, |ids|);
    forall k | 0 <= k < |ids|
      ensures Distance(f, ids[p].id) <= Distance(f, ids[k].id)
    {
      assert Ids(ids)[k] == ids[k].id && Ids(ids)[p] == ids[p].id;
    }
  }

  /**
   * On a list sorted by id, initstate adds an entry for t exactly when no id
   * equals the target and some id lies within (0, lap) clockwise of it; the
   * entry added is a member of the list, and it is the member clockwise
   * closest to the target.
   */
  lemma InitChoiceSpec(ids: seq<IDMap>, t: Target)
    requires |ids| > 0 && SortedById(ids)
    ensures InitChoice(ids, t).Some? <==>
      (forall k :: 0 <= k < |ids| ==> ids[k].id != t.finger)
      && (exists k :: 0 <= k < |ids| && 0 < Distance(t.finger, ids[k].id) < t.lap)
    ensures InitChoice(ids, t).Some? ==>
      InitChoice(ids, t).value in ids
      && forall k :: 0 <= k < |ids| ==>
           Distance(t.finger, InitChoice(ids, t).value.id) <= Distance(t.finger, ids[k].id)
  {
    var f := t.finger;
    var p := UpperBoundCmp(ids, f) % |ids|;
    InitCandidateClosest(ids, f);
    assert Distance(f, Add(f, t.lap)) == t.lap;
    assert InitChoice(ids, t).Some? <==> 0 < Distance(f, ids[p].id) < t.lap;
  }

  // ---------------------------------------------------------- stabilized

  /** find(lid.begin(), lid.end(), id): the first position holding id; |s| if none. */
  function IndexOf(s: seq<CHID>, id: CHID): (p: nat)
    ensures p <= |s|
    ensures forall i :: 0 <= i < p ==> s[i] != id
    ensures p < |s| ==> s[p] == id
  {
    if s == [] then 0
    else if s[0] == id then 0
    else 1 + IndexOf(s[1..], id)
  }

  /**
   * The successor stabilized expects for a finger: upper_bound(lid, finger)
   * with the default <, so the first id strictly above it, wrapping to index 0.
   */
  function ExpectedSucc(lid: seq<CHID>, finger: CHID): (r: CHID)
    requires |lid| > 0
    ensures r in lid
  {
    lid[Wrap(FirstAbove(lid, finger), |lid|)]
  }

  /** Every target's table successor is the expected one. */
  predicate AllMatch(lid: seq<CHID>, tableSucc: CHID -> CHID, ts: seq<Target>)
    requires |lid| > 0
  {
    forall i :: 0 <= i < |ts| ==> ExpectedSucc(lid, ts[i].finger) == tableSucc(ts[i].finger)
  }

  lemma AllMatchAppend(lid: seq<CHID>, tableSucc: CHID -> CHID, a: seq<Target>, b: seq<Target>)
    requires |lid| > 0
    ensures AllMatch(lid, tableSucc, a + b) <==> AllMatch(lid, tableSucc, a) && AllMatch(lid, tableSucc, b)
  {
    if AllMatch(lid, tableSucc, a) && AllMatch(lid, tableSucc, b) {
      forall i | 0 <= i < |a + b|
        ensures ExpectedSucc(lid, (a + b)[i].finger) == tableSucc((a + b)[i].finger)
      {
        if i >= |a| {
          assert (a + b)[i] == b[i - |a|];
        }
      }
    }
    if AllMatch(lid, tableSucc, a + b) {
      forall i | 0 <= i < |a|
        ensures ExpectedSucc(lid, a[i].finger) == tableSucc(a[i].finger)
      {
        assert (a + b)[i] == a[i];
      }
      forall i | 0 <= i < |b|
        ensures ExpectedSucc(lid, b[i].finger) == tableSucc(b[i].finger)
      {
        assert (a + b)[|a| + i] == b[i];
      }
    }
  }

  /**
   * initstate's upper_bound (first id at least the target) and stabilized's
   * (first id above it) pick the same position exactly when the target is
   * not itself one of the ids.
   */
  lemma {:induction false} UpperBoundsAgreeOffIds(s: seq<CHID>, t: CHID)
    requires Sorted(s)
    ensures FirstAtLeast(s, t) == FirstAbove(s, t) <==> t !in s
  {
    if s != [] {
      assert Sorted(s[1..]);
      UpperBoundsAgreeOffIds(s[1..], t);
      if t != s[0] && t in s {
        assert t in s[1..];
      }
    }
  }

  // --------------------------------------------------------- fix_fingers

  /**
   * What the node does to its location table and whom it calls, in order.
   * Checked is one step of the check_fingers counter (the c-th finger check).
   */
  datatype Event =
    | Added(n: IDMap)
    | Deleted(n: IDMap)
    | Checked(c: nat, lap: CHID, finger: CHID)
    | Pinged(n: IDMap, ok: bool)
    | LookedUp(target: CHID)
    | MigrateRequested(ip: IPAddress)
    | Rescheduled(delay: nat)

  function AddEvents(ns: seq<IDMap>): (r: seq<Event>)
    ensures |r| == |ns|
    ensures forall i :: 0 <= i < |ns| ==> r[i] == Added(ns[i])
  {
    if ns == [] then [] else [Added(ns[0])] + AddEvents(ns[1..])
  }

  /** The reply of get_predsucc to a finger ping: the pinged node, its predecessor and successors. */
  datatype PingReply = PingReply(ok: bool, dst: IDMap, pred: IDMap, succs: seq<IDMap>)

  /**
   * What fix_fingers learns from collaborators that are not part of this
   * model, indexed by the number c of finger checks made before:
   * loctable->succ(finger), the timestamp of that table entry, now(), the
   * finger ping with its reply, alive() right after the ping, the finger
   * lookup's result, and after the loop loctable->succ(me.id + 1).
   */
  datatype FingerEnv = FingerEnv(
    tableSucc: nat -> IDMap,
    stamp: nat -> Time,
    now: nat -> Time,
    ping: nat -> PingReply,
    aliveAfterPing: nat -> bool,
    lookup: nat -> seq<IDMap>,
    migrateTo: IDMap)

  /** The table successor of check c, with its ip cleared when it is this node. */
  function Current(me: IDMap, env: FingerEnv, c: nat): IDMap
  {
    var x := env.tableSucc(c);
    if x.ip == me.ip then x.(ip := 0) else x
  }

  /** now() - timestamp in 64-bit unsigned arithmetic. */
  function Age(env: FingerEnv, c: nat): CHID
  {
    (env.now(c) - env.stamp(c)) % RING
  }

  /** Check c finds a live-looking table entry inside (finger, finger + lap), outside a restart. */
  predicate Probes(me: IDMap, restart: bool, env: FingerEnv, c: nat, lap: CHID, finger: CHID)
  {
    !restart && Current(me, env, c).ip != 0
    && Between(finger, Add(finger, lap), Current(me, env, c).id)
  }

  /** ... and that entry was refreshed less than the finger timer ago. */
  predicate Fresh(me: IDMap, restart: bool, timer: nat, env: FingerEnv, c: nat, lap: CHID, finger: CHID)
  {
    Probes(me, restart, env, c, lap, finger) && Age(env, c) < timer
  }

  /** ... or it was not. */
  predicate Stale(me: IDMap, restart: bool, timer: nat, env: FingerEnv, c: nat, lap: CHID, finger: CHID)
  {
    Probes(me, restart, env, c, lap, finger) && Age(env, c) >= timer
  }

  predicate StaleCheck(me: IDMap, restart: bool, timer: nat, env: FingerEnv, e: Event)
  {
    e.Checked? && Stale(me, restart, timer, env, e.c, e.lap, e.finger)
  }

  predicate FreshCheck(me: IDMap, restart: bool, timer: nat, env: FingerEnv, e: Event)
  {
    e.Checked? && Fresh(me, restart, timer, env, e.c, e.lap, e.finger)
  }

  /** A table entry is deleted only right after a failed ping of that entry. */
  predicate DeletesFollowFailedPings(tr: seq<Event>)
  {
    && (|tr| > 0 ==> !tr[0].Deleted?)
    && forall h, i :: 0 <= h < |tr| && 0 <= i < |tr| && i == h + 1 && tr[i].Deleted? ==> tr[h] == Pinged(tr[i].n, false)
  }

  /** A failed ping is followed by the deletion of that entry, unless it is the last event. */
  predicate FailedPingsDelete(tr: seq<Event>)
  {
    forall i, k :: 0 <= i < |tr| && 0 <= k < |tr| && k == i + 1 && tr[i].Pinged? && !tr[i].ok ==> tr[k] == Deleted(tr[i].n)
  }

  /** A ping is made only right after the check of a stale entry, and pings that entry. */
  predicate PingsFollowStaleChecks(me: IDMap, restart: bool, timer: nat, env: FingerEnv, tr: seq<Event>)
  {
    && (|tr| > 0 ==> !tr[0].Pinged?)
    && forall h, i :: 0 <= h < |tr| && 0 <= i < |tr| && i == h + 1 && tr[i].Pinged? ==>
      StaleCheck(me, restart, timer, env, tr[h]) && tr[i].n == Current(me, env, tr[h].c)
  }

  /** The check of a fresh entry is followed directly by the next check or by the end of the loop. */
  predicate FreshChecksSkip(me: IDMap, restart: bool, timer: nat, env: FingerEnv, tr: seq<Event>)
  {
    forall i, k :: 0 <= i < |tr| && 0 <= k < |tr| && k == i + 1 && FreshCheck(me, restart, timer, env, tr[i]) ==>
      tr[k].Checked? || tr[k].MigrateRequested?
  }

  /** The check of a stale entry is followed directly by the ping of that entry, with the collaborator's answer. */
  predicate StaleChecksPing(me: IDMap, restart: bool, timer: nat, env: FingerEnv, tr: seq<Event>)
  {
    && (|tr| > 0 ==> !StaleCheck(me, restart, timer, env, tr[|tr| - 1]))
    && forall i, k :: 0 <= i < |tr| && 0 <= k < |tr| && k == i + 1 && StaleCheck(me, restart, timer, env, tr[i]) ==>
      tr[k] == Pinged(Current(me, env, tr[i].c), env.ping(tr[i].c).ok)
  }

  predicate NoProbes(tr: seq<Event>)
  {
    forall i :: 0 <= i < |tr| ==> !tr[i].Pinged? && !tr[i].Deleted?
  }

  /** How a run of fix_fingers ended. */
  datatype FixOutcome =
    | NoSuccessors          // the successor list was empty
    | Died                  // the node was found dead after a finger ping
    | Covered(finger: CHID) // the target fell between me and the last successor
    | LapsExhausted         // the laps reached zero before that

  /** The properties every fix_fingers trace keeps, given the last successor's id. */
  predicate TraceOk(me: IDMap, restart: bool, timer: nat, env: FingerEnv, last: CHID, tr: seq<Event>)
  {
    DeletesFollowFailedPings(tr) && FailedPingsDelete(tr)
    && PingsFollowStaleChecks(me, restart, timer, env, tr) && StaleChecksPing(me, restart, timer, env, tr)
    && FreshChecksSkip(me, restart, timer, env, tr)
    && (forall i :: 0 <= i < |tr| && tr[i].Checked? ==> !Between(me.id, last, tr[i].finger))
    && (restart ==> NoProbes(tr))
  }

  /** The events of one finger check: one Checked event first and none after it. */
  predicate StepOk(me: IDMap, restart: bool, timer: nat, env: FingerEnv, steps: seq<Event>)
  {
    |steps| >= 1 && steps[0].Checked?
    && (forall i :: 1 <= i < |steps| ==> !steps[i].Checked? && !steps[i].MigrateRequested?)
    && DeletesFollowFailedPings(steps) && FailedPingsDelete(steps)
    && PingsFollowStaleChecks(me, restart, timer, env, steps) && StaleChecksPing(me, restart, timer, env, steps)
    && FreshChecksSkip(me, restart, timer, env, steps)
    && (restart ==> NoProbes(steps))
  }

  predicate EndsInPing(tr: seq<Event>)
  {
    |tr| > 0 && tr[|tr| - 1].Pinged?
  }

  /**
   * What one fix_fingers run promises: no successors means no events;
   * otherwise the events are well formed, a covered target lies between me
   * and the last successor, a covered target or exhausted laps end with the
   * migrate request, a death comes right after a ping, and exhausted laps
   * mean no round at a non-zero lap left the loop.  The checks made are the
   * first targets of the enumeration (NthTarget), in order; a covered finger
   * is the next target, and exhausted laps leave the next target at the
   * start of a round of lap 0.
   */
  ghost predicate FixResult(me: IDMap, base: Base, restart: bool, timer: nat, scs: seq<IDMap>, env: FingerEnv,
                            outcome: FixOutcome, trace: seq<Event>)
  {
    && (|scs| == 0 <==> outcome == NoSuccessors)
    && (|scs| == 0 ==> trace == [])
    && (|scs| > 0 ==> TraceOk(me, restart, timer, env, scs[|scs| - 1].id, trace))
    && (outcome.Covered? ==> Between(me.id, scs[|scs| - 1].id, outcome.finger))
    && (outcome.Covered? || outcome.LapsExhausted? ==>
         |trace| >= 1 && trace[|trace| - 1] == MigrateRequested(env.migrateTo.ip))
    && (outcome == Died ==> DiedAfterPing(env, trace))
    && (outcome == LapsExhausted ==> forall i: nat :: 1 <= i && LapAt(base, i) > 0 ==>
         RoundStays(me.id, scs[|scs| - 1].id, base, LapAt(base, i), 1))
    && (|scs| > 0 ==> Checks(trace) == EnumChecks(me.id, base, |Checks(trace)|))
    && (outcome.Covered? ==>
         var t := NthTarget(me.id, base, |Checks(trace)|);
         outcome.finger == t.finger && LeavesFingerLoop(me.id, scs[|scs| - 1].id, t.lap, t.j))
    && (outcome == LapsExhausted ==>
         NthTarget(me.id, base, |Checks(trace)|).lap == 0 && NthTarget(me.id, base, |Checks(trace)|).j == base - 1)
  }

  /** The trace ends with a ping right after a check, and the node was dead after that ping. */
  predicate DiedAfterPing(env: FingerEnv, tr: seq<Event>)
  {
    |tr| >= 2 && tr[|tr| - 1].Pinged? && tr[|tr| - 2].Checked? && !env.aliveAfterPing(tr[|tr| - 2].c)
  }

  /** Appending the events of a check of an uncovered target keeps a trace's properties. */
  lemma ExtendTrace(me: IDMap, restart: bool, timer: nat, env: FingerEnv, last: CHID,
                    tr: seq<Event>, steps: seq<Event>)
    requires TraceOk(me, restart, timer, env, last, tr) && !EndsInPing(tr)
    requires StepOk(me, restart, timer, env, steps) && !Between(me.id, last, steps[0].finger)
    ensures TraceOk(me, restart, timer, env, last, tr + steps)
  {
    AppendKeepsOrder(me, restart, timer, env, tr, steps);
    AppendKeepsChecks(me, restart, last, tr, steps);
  }

  /** Appending the migration request after the loop keeps a trace's properties. */
  lemma FinishTrace(me: IDMap, restart: bool, timer: nat, env: FingerEnv, last: CHID,
                    tr: seq<Event>, ip: IPAddress)
    requires TraceOk(me, restart, timer, env, last, tr) && !EndsInPing(tr)
    ensures TraceOk(me, restart, timer, env, last, tr + [MigrateRequested(ip)])
  {
    var steps := [MigrateRequested(ip)];
    AppendKeepsOrder(me, restart, timer, env, tr, steps);
    AppendKeepsChecks(me, restart, last, tr, steps);
  }

  /**
   * The ordering properties survive appending a well-formed block that starts
   * with a check or the migration request, after a trace not ending in a ping.
   */
  lemma AppendKeepsOrder(me: IDMap, restart: bool, timer: nat, env: FingerEnv, tr: seq<Event>, steps: seq<Event>)
    requires DeletesFollowFailedPings(tr) && FailedPingsDelete(tr) && !EndsInPing(tr)
    requires PingsFollowStaleChecks(me, restart, timer, env, tr) && FreshChecksSkip(me, restart, timer, env, tr)
    requires StaleChecksPing(me, restart, timer, env, tr)
    requires DeletesFollowFailedPings(steps) && FailedPingsDelete(steps)
    requires PingsFollowStaleChecks(me, restart, timer, env, steps) && FreshChecksSkip(me, restart, timer, env, steps)
    requires StaleChecksPing(me, restart, timer, env, steps)
    requires |steps| > 0 && (steps[0].Checked? || steps[0].MigrateRequested?)
    ensures DeletesFollowFailedPings(tr + steps) && FailedPingsDelete(tr + steps)
    ensures PingsFollowStaleChecks(me, restart, timer, env, tr + steps) && FreshChecksSkip(me, restart, timer, env, tr + steps)
    ensures StaleChecksPing(me, restart, timer, env, tr + steps)
  {
    AppendKeepsPings(tr, steps);
    AppendKeepsChecksOrder(me, restart, timer, env, tr, steps);
  }

  /** Deletions and failed pings keep their order across the seam. */
  lemma AppendKeepsPings(tr: seq<Event>, steps: seq<Event>)
    requires DeletesFollowFailedPings(tr) && FailedPingsDelete(tr) && !EndsInPing(tr)
    requires DeletesFollowFailedPings(steps) && FailedPingsDelete(steps)
    requires |steps| > 0 && (steps[0].Checked? || steps[0].MigrateRequested?)
    ensures DeletesFollowFailedPings(tr + steps) && FailedPingsDelete(tr + steps)
  {
    var t := tr + steps;
    forall i | 0 <= i < |t|
      ensures t[i] == if i < |tr| then tr[i] else steps[i - |tr|]
    {
    }
  }

  /** Checks and the pings they cause keep their order across the seam. */
  lemma AppendKeepsChecksOrder(me: IDMap, restart: bool, timer: nat, env: FingerEnv, tr: seq<Event>, steps: seq<Event>)
    requires !EndsInPing(tr)
    requires PingsFollowStaleChecks(me, restart, timer, env, tr) && FreshChecksSkip(me, restart, timer, env, tr)
    requires StaleChecksPing(me, restart, timer, env, tr)
    requires PingsFollowStaleChecks(me, restart, timer, env, steps) && FreshChecksSkip(me, restart, timer, env, steps)
    requires StaleChecksPing(me, restart, timer, env, steps)
    requires |steps| > 0 && (steps[0].Checked? || steps[0].MigrateRequested?)
    ensures PingsFollowStaleChecks(me, restart, timer, env, tr + steps) && FreshChecksSkip(me, restart, timer, env, tr + steps)
    ensures StaleChecksPing(me, restart, timer, env, tr + steps)
  {
    var t := tr + steps;
    forall i | 0 <= i < |t|
      ensures t[i] == if i < |tr| then tr[i] else steps[i - |tr|]
    {
    }
  }

  /** Checked targets stay outside (me, last), and a restart still probes nothing. */
  lemma AppendKeepsChecks(me: IDMap, restart: bool, last: CHID, tr: seq<Event>, steps: seq<Event>)
    requires forall i :: 0 <= i < |tr| && tr[i].Checked? ==> !Between(me.id, last, tr[i].finger)
    requires forall i :: 0 <= i < |steps| && steps[i].Checked? ==> !Between(me.id, last, steps[i].finger)
    requires restart ==> NoProbes(tr) && NoProbes(steps)
    ensures forall i :: 0 <= i < |tr + steps| && (tr + steps)[i].Checked? ==> !Between(me.id, last, (tr + steps)[i].finger)
    ensures restart ==> NoProbes(tr + steps)
  {
    var t := tr + steps;
    forall i | 0 <= i < |t|
      ensures t[i] == if i < |tr| then tr[i] else steps[i - |tr|]
    {
    }
  }

  /** The finger base (_base); bases below 2 make the lap loops diverge or divide by zero. */
  type Base = b: nat | b >= 2 witness 2

  /** No node: the default IDMap whose ip is 0. */
  const NoNode: IDMap := IDMap(0, 0, 0, 0, false)

  class VNode {
    const me: IDMap
    const base: Base
    const fingerlets: nat
    const stabFingerTimer: nat
    var stabFingerRunning: bool
    var stabFingerOutstanding: nat
    /** What the node has done to its location table and whom it has called, oldest first. */
    var log: seq<Event>

    /** The constructor: the finger stabilizer is idle and nothing has been done yet. */
    constructor(me: IDMap, base: Base, fingerlets: nat, fingerTimer: nat)
      ensures this.me == me && this.base == base && this.fingerlets == fingerlets
      ensures stabFingerTimer == fingerTimer
      ensures !stabFingerRunning && stabFingerOutstanding == 0 && log == []
    {
      this.me := me;
      this.base := base;
      this.fingerlets := fingerlets;
      stabFingerTimer := fingerTimer;
      stabFingerRunning := false;
      stabFingerOutstanding := 0;
      log := [];
    }

    /**
     * initstate over the oracle's sorted member list ids, which must contain
     * this node: for every finger target, the entry chosen by InitChoice is
     * added to the table, in enumeration order.
     */
    method InitState(ids: seq<IDMap>)
      requires FindById(ids, me.id) < |ids|
      modifies this
      ensures log == old(log) + AddEvents(InitAdds(ids,
        Fingers(me.id, base, Distance(me.id, ids[(FindById(ids, me.id) + 1) % |ids|].id))))
      ensures stabFingerRunning == old(stabFingerRunning)
      ensures stabFingerOutstanding == old(stabFingerOutstanding)
    {
      var added := InitEntries(me, base, ids);
      log := log + AddEvents(added);
    }

    /**
     * stabilized over the sorted id list lid, which must contain this node:
     * true exactly when the base check passed and, for every finger target,
     * the table's successor of the finger is the id expected from lid.
     */
    method Stabilized(lid: seq<CHID>, baseOk: bool, tableSucc: CHID -> CHID) returns (ok: bool)
      requires IndexOf(lid, me.id) < |lid|
      ensures ok <==> baseOk && AllMatch(lid, tableSucc, Fingers(me.id, base, MinLap(lid, IndexOf(lid, me.id))))
    {
      if !baseOk {
        return false;
      }
      var sz := |lid|;
      var myPos := IndexOf(lid, me.id);
      var minLap := Distance(me.id, lid[(myPos + 1) % sz]);
      var lap: CHID := RING - 1;
      ghost var total := Schedule(me.id, base, minLap, lap);
      assert total == Fingers(me.id, base, MinLap(lid, myPos));
      while lap > minLap
        invariant AllMatch(lid, tableSucc, total) <==> AllMatch(lid, tableSucc, Schedule(me.id, base, minLap, lap))
        decreases lap
      {
        ghost var prev := lap;
        DivShrinks(lap, base);
        lap := lap / base;
        assert Schedule(me.id, base, minLap, prev)
          == RoundTargets(me.id, base, minLap, lap, 1) + Schedule(me.id, base, minLap, lap);
        AllMatchAppend(lid, tableSucc, RoundTargets(me.id, base, minLap, lap, 1), Schedule(me.id, base, minLap, lap));
        var roundOk := MatchRound(me.id, base, lid, tableSucc, minLap, lap);
        if !roundOk {
          return false;
        }
      }
      assert Schedule(me.id, base, minLap, lap) == [];
      return true;
    }

    /**
     * fix_fingers with the successor list scs and the collaborators' answers
     * env.  Targets run from the largest lap down and, within a round, from
     * j = base - 1 down to 1; the loop ends at the first target between me and
     * the last successor, after which the node asks its successor to migrate
     * keys.  The source's loop is `while (1)`; here the loop also ends when the
     * next lap would be 0 (see LeavesFingerLoop).
     */
    method FixFingers(restart: bool, scs: seq<IDMap>, env: FingerEnv) returns (outcome: FixOutcome, trace: seq<Event>)
      modifies this
      ensures log == old(log) + trace
      ensures stabFingerRunning == old(stabFingerRunning)
      ensures stabFingerOutstanding == old(stabFingerOutstanding)
      ensures FixResult(me, base, restart, stabFingerTimer, scs, env, outcome, trace)
    {
      trace := [];
      if |scs| == 0 {
        assert log == old(log) + trace;
        return NoSuccessors, trace;
      }
      var last := scs[|scs| - 1].id;
      var timer := stabFingerTimer;
      outcome, trace := FingerRounds(me, base, restart, timer, env, last);
      if outcome == Died {
        FixDied(me, base, restart, timer, scs, env, trace);
        log := log + trace;
        return;
      }
      FixMigrates(me, base, restart, timer, scs, env, outcome, trace);
      trace := trace + [MigrateRequested(env.migrateTo.ip)];
      log := log + trace;
    }

    /**
     * reschedule_finger_stabilizer: a dead node stops the stabilizer; a live
     * one marks it running, runs fix_fingers when no run is outstanding (with
     * restart exactly when the timer argument was non-null), and schedules
     * itself again after the finger timer.
     */
    method RescheduleFingerStabilizer(restart: bool, alive: bool, scs: seq<IDMap>, env: FingerEnv)
      returns (fixed: Option<FixOutcome>, ghost trace: seq<Event>)
      modifies this
      ensures !alive ==> !stabFingerRunning && fixed == None && log == old(log)
      ensures stabFingerOutstanding == old(stabFingerOutstanding)
      ensures alive ==> stabFingerRunning && log == old(log) + trace + [Rescheduled(stabFingerTimer)]
      ensures alive ==> (fixed.Some? <==> old(stabFingerOutstanding) == 0)
      ensures fixed.None? ==> trace == []
      ensures fixed.Some? ==> FixResult(me, base, restart, stabFingerTimer, scs, env, fixed.value, trace)
    {
      trace := [];
      if !alive {
        stabFingerRunning := false;
        return None, trace;
      }
      stabFingerRunning := true;
      fixed := None;
      if stabFingerOutstanding == 0 {
        stabFingerOutstanding := stabFingerOutstanding + 1;
        var outcome;
        outcome, trace := FixFingers(restart, scs, env);
        fixed := Some(outcome);
        stabFingerOutstanding := stabFingerOutstanding - 1;
        assert stabFingerOutstanding == 0;
      }
      log := log + [Rescheduled(stabFingerTimer)];
    }
  }

  /**
   * What the rounds of fix_fingers before the migration request promise,
   * given the last successor's id: the trace is well formed; the outcome is a
   * death, a covered target or exhausted laps; a death comes right after a
   * ping; the checks made are the first targets of the enumeration, in
   * order; a covered finger is the next target of the enumeration and passes
   * the exit test; exhausted laps mean no round at a non-zero lap has a
   * target passing it, and the next target would open a round of lap 0.
   */
  ghost predicate RoundsResult(me: IDMap, base: Base, restart: bool, timer: nat, env: FingerEnv, last: CHID,
                               outcome: FixOutcome, trace: seq<Event>)
  {
    && TraceOk(me, restart, timer, env, last, trace)
    && (outcome == LapsExhausted || outcome == Died || outcome.Covered?)
    && (outcome != Died ==> !EndsInPing(trace))
    && (outcome.Covered? ==> Between(me.id, last, outcome.finger))
    && (outcome == Died ==> DiedAfterPing(env, trace))
    && (outcome == LapsExhausted ==>
         forall i: nat :: 1 <= i && LapAt(base, i) > 0 ==> RoundStays(me.id, last, base, LapAt(base, i), 1))
    && Checks(trace) == EnumChecks(me.id, base, |Checks(trace)|)
    && (outcome.Covered? ==>
         var t := NthTarget(me.id, base, |Checks(trace)|);
         outcome.finger == t.finger && LeavesFingerLoop(me.id, last, t.lap, t.j))
    && (outcome == LapsExhausted ==>
         NthTarget(me.id, base, |Checks(trace)|).lap == 0 && NthTarget(me.id, base, |Checks(trace)|).j == base - 1)
  }

  /**
   * The state between rounds, after round n: the trace is well formed and
   * does not end in a ping, no target of rounds 1 .. n passed the exit test,
   * and the c checks made are the first c targets of the enumeration, which
   * are exactly the targets of rounds 1 .. n.
   */
  ghost predicate RoundsSoFar(me: IDMap, base: Base, restart: bool, timer: nat, env: FingerEnv, last: CHID,
                              n: nat, trace: seq<Event>, c: nat)
  {
    && TraceOk(me, restart, timer, env, last, trace) && !EndsInPing(trace)
    && RoundsStay(me.id, last, base, n)
    && c == RoundStart(base, n + 1) && Checks(trace) == EnumChecks(me.id, base, c)
  }

  /**
   * The state inside round n before target j: as between rounds, except that
   * of round n only the targets base - 1 .. j + 1 have been checked (and
   * stayed).
   */
  ghost predicate RoundSoFar(me: IDMap, base: Base, restart: bool, timer: nat, env: FingerEnv, last: CHID,
                             n: nat, j: nat, trace: seq<Event>, c: nat)
  {
    && n >= 1 && j < base
    && TraceOk(me, restart, timer, env, last, trace) && !EndsInPing(trace)
    && RoundsStay(me.id, last, base, n - 1) && RoundStays(me.id, last, base, LapAt(base, n), j + 1)
    && c == RoundStart(base, n) + (base - 1 - j) && Checks(trace) == EnumChecks(me.id, base, c)
  }

  /**
   * What one pass of the inner loop's body at target j of lap promises, the
   * c-th check, after the trace trace0: the trace stays well formed; the pass
   * stops with Covered exactly when the target passes the exit test, and then
   * adds nothing; otherwise it appends a block that starts with the check of
   * FingerAt(me, lap, j) and holds no other check, and it stops only for a
   * death right after a ping.
   */
  predicate StepResult(me: IDMap, restart: bool, timer: nat, env: FingerEnv, last: CHID, lap: CHID, j: nat,
                       c: nat, trace0: seq<Event>, stop: bool, outcome: FixOutcome, trace: seq<Event>)
  {
    && TraceOk(me, restart, timer, env, last, trace)
    && (!stop ==> outcome == LapsExhausted && !EndsInPing(trace))
    && (stop ==> outcome == Died || outcome.Covered?)
    && (outcome.Covered? <==> LeavesFingerLoop(me.id, last, lap, j))
    && (outcome.Covered? ==> outcome.finger == FingerAt(me.id, lap, j) && trace == trace0)
    && (!outcome.Covered? ==>
         && |trace| > |trace0| && trace[..|trace0|] == trace0
         && trace[|trace0|] == Checked(c, lap, FingerAt(me.id, lap, j))
         && Checks(trace) == Checks(trace0) + [Checked(c, lap, FingerAt(me.id, lap, j))])
    && (outcome == Died ==> DiedAfterPing(env, trace))
  }

  /**
   * The rounds of fix_fingers, from the largest lap down, before the
   * migration request: stops at the first covered finger, at the node's
   * death, or when the next lap would be 0.
   */
  method FingerRounds(me: IDMap, base: Base, restart: bool, timer: nat, env: FingerEnv, last: CHID)
    returns (outcome: FixOutcome, trace: seq<Event>)
    ensures RoundsResult(me, base, restart, timer, env, last, outcome, trace)
  {
    trace := [];
    var lap: CHID := RING - 1;
    var prevf, prevfpred := NoNode, NoNode;
    var c := 0;
    ghost var n: nat := 0;
    outcome := LapsExhausted;
    RoundsBegin(me, base, restart, timer, env, last);
    while lap / base > 0
      invariant RoundsSoFar(me, base, restart, timer, env, last, n, trace, c)
      invariant lap == LapAt(base, n) && outcome == LapsExhausted
      decreases lap
    {
      DivShrinks(lap, base);
      lap := lap / base;
      n := n + 1;
      assert lap == LapAt(base, n);
      outcome, trace, c, prevf, prevfpred := FingerRound(me, base, restart, timer, env, last, lap, trace, c, prevf, prevfpred, n);
      if outcome != LapsExhausted {
        return;
      }
    }
    assert LapAt(base, n + 1) == 0;
    RoundsEnd(me, base, restart, timer, env, last, n, trace, c);
  }

  /**
   * One round of fix_fingers' inner loop, round n at lap: j runs from
   * base - 1 down to 1; the round stops at the first finger between me and
   * last (Covered) or when a ping shows the node dead (Died); otherwise it
   * checks every finger of the round.
   */
  method FingerRound(me: IDMap, base: Base, restart: bool, timer: nat, env: FingerEnv, last: CHID, lap: CHID,
                     trace0: seq<Event>, c0: nat, prevf0: IDMap, prevfpred0: IDMap, ghost n: nat)
    returns (outcome: FixOutcome, trace: seq<Event>, c: nat, prevf: IDMap, prevfpred: IDMap)
    requires n >= 1 && lap == LapAt(base, n)
    requires RoundsSoFar(me, base, restart, timer, env, last, n - 1, trace0, c0)
    ensures outcome == LapsExhausted ==> RoundsSoFar(me, base, restart, timer, env, last, n, trace, c)
    ensures outcome != LapsExhausted ==> RoundsResult(me, base, restart, timer, env, last, outcome, trace)
  {
    trace, c, prevf, prevfpred := trace0, c0, prevf0, prevfpred0;
    outcome := LapsExhausted;
    var j: nat := base - 1;
    RoundBegin(me, base, restart, timer, env, last, n, trace, c);
    while j >= 1
      invariant RoundSoFar(me, base, restart, timer, env, last, n, j, trace, c)
      invariant outcome == LapsExhausted
      decreases j
    {
      var stop;
      stop, outcome, trace, prevf, prevfpred := RoundStep(me, base, restart, timer, env, last, lap, j, trace, c, prevf, prevfpred, n);
      if stop {
        return;
      }
      c := c + 1;
      j := j - 1;
    }
    RoundDone(me, base, restart, timer, env, last, n, trace, c);
  }

  /** The inner loop's body as a step of round n: target j is the c-th of the enumeration. */
  method RoundStep(me: IDMap, base: Base, restart: bool, timer: nat, env: FingerEnv, last: CHID, lap: CHID, j: nat,
                   trace0: seq<Event>, c: nat, prevf0: IDMap, prevfpred0: IDMap, ghost n: nat)
    returns (stop: bool, outcome: FixOutcome, trace: seq<Event>, prevf: IDMap, prevfpred: IDMap)
    requires j >= 1 && lap == LapAt(base, n)
    requires RoundSoFar(me, base, restart, timer, env, last, n, j, trace0, c)
    ensures !stop ==> outcome == LapsExhausted && RoundSoFar(me, base, restart, timer, env, last, n, j - 1, trace, c + 1)
    ensures stop ==> (outcome == Died || outcome.Covered?) && RoundsResult(me, base, restart, timer, env, last, outcome, trace)
  {
    stop, outcome, trace, prevf, prevfpred := FingerStep(me, restart, timer, env, last, lap, j, trace0, c, prevf0, prevfpred0);
    if stop {
      StepStops(me, base, restart, timer, env, last, n, j, trace0, c, outcome, trace);
    } else {
      StepContinues(me, base, restart, timer, env, last, n, j, trace0, c, outcome, trace);
    }
  }

  /**
   * The body of fix_fingers' inner loop for target j at lap: leave the loop
   * when the target lies between me and last, otherwise check the finger and
   * leave when the node is found dead.
   */
  method FingerStep(me: IDMap, restart: bool, timer: nat, env: FingerEnv, last: CHID, lap: CHID, j: nat,
                    trace0: seq<Event>, c: nat, prevf0: IDMap, prevfpred0: IDMap)
    returns (stop: bool, outcome: FixOutcome, trace: seq<Event>, prevf: IDMap, prevfpred: IDMap)
    requires TraceOk(me, restart, timer, env, last, trace0) && !EndsInPing(trace0)
    ensures StepResult(me, restart, timer, env, last, lap, j, c, trace0, stop, outcome, trace)
  {
    trace, prevf, prevfpred := trace0, prevf0, prevfpred0;
    var finger := FingerAt(me.id, lap, j);
    if LeavesFingerLoop(me.id, last, lap, j) {
      return true, Covered(finger), trace, prevf, prevfpred;
    }
    var died;
    died, trace, prevf, prevfpred := AppendCheck(me, restart, timer, env, last, trace, c, lap, finger, prevf, prevfpred);
    if died {
      return true, Died, trace, prevf, prevfpred;
    }
    return false, LapsExhausted, trace, prevf, prevfpred;
  }

  /** A death in the rounds is fix_fingers' result as it stands. */
  lemma FixDied(me: IDMap, base: Base, restart: bool, timer: nat, scs: seq<IDMap>, env: FingerEnv, trace: seq<Event>)
    requires |scs| > 0 && RoundsResult(me, base, restart, timer, env, scs[|scs| - 1].id, Died, trace)
    ensures FixResult(me, base, restart, timer, scs, env, Died, trace)
  {
  }

  /** Any other outcome of the rounds is followed by the migration request. */
  lemma FixMigrates(me: IDMap, base: Base, restart: bool, timer: nat, scs: seq<IDMap>, env: FingerEnv,
                    outcome: FixOutcome, trace: seq<Event>)
    requires |scs| > 0 && outcome != Died
    requires RoundsResult(me, base, restart, timer, env, scs[|scs| - 1].id, outcome, trace)
    ensures FixResult(me, base, restart, timer, scs, env, outcome, trace + [MigrateRequested(env.migrateTo.ip)])
  {
    FinishTrace(me, restart, timer, env, scs[|scs| - 1].id, trace, env.migrateTo.ip);
    assert Checks([MigrateRequested(env.migrateTo.ip)]) == [];
    ChecksAppend(trace, [MigrateRequested(env.migrateTo.ip)]);
  }

  /**
   * No target fix_fingers checked passes the exit test; with FixResult's
   * clause on Covered, the covered finger is the first target of the
   * enumeration that passes it.
   */
  lemma FixChecksStay(me: IDMap, base: Base, restart: bool, timer: nat, scs: seq<IDMap>, env: FingerEnv,
                      outcome: FixOutcome, trace: seq<Event>, k: nat)
    requires |scs| > 0 && FixResult(me, base, restart, timer, scs, env, outcome, trace)
    requires k < |Checks(trace)|
    ensures !LeavesFingerLoop(me.id, scs[|scs| - 1].id, NthTarget(me.id, base, k).lap, NthTarget(me.id, base, k).j)
  {
    var e := Checks(trace)[k];
    EnumChecksAt(me.id, base, |Checks(trace)|, k);
    ChecksIn(trace);
    assert e in Checks(trace);
    var i :| 0 <= i < |trace| && trace[i] == e;
    assert trace[i].Checked?;
  }

  /** Before the first round nothing has been checked. */
  lemma RoundsBegin(me: IDMap, base: Base, restart: bool, timer: nat, env: FingerEnv, last: CHID)
    ensures RoundsSoFar(me, base, restart, timer, env, last, 0, [], 0)
  {
    assert Checks([]) == [];
  }

  /** Round n begins where round n - 1 ended, at target base - 1. */
  lemma RoundBegin(me: IDMap, base: Base, restart: bool, timer: nat, env: FingerEnv, last: CHID,
                   n: nat, trace: seq<Event>, c: nat)
    requires n >= 1 && RoundsSoFar(me, base, restart, timer, env, last, n - 1, trace, c)
    ensures RoundSoFar(me, base, restart, timer, env, last, n, base - 1, trace, c)
  {
  }

  /** A pass that does not stop has checked target j, and the round goes on with j - 1. */
  lemma StepContinues(me: IDMap, base: Base, restart: bool, timer: nat, env: FingerEnv, last: CHID,
                      n: nat, j: nat, trace0: seq<Event>, c: nat, outcome: FixOutcome, trace: seq<Event>)
    requires j >= 1 && RoundSoFar(me, base, restart, timer, env, last, n, j, trace0, c)
    requires StepResult(me, restart, timer, env, last, LapAt(base, n), j, c, trace0, false, outcome, trace)
    ensures outcome == LapsExhausted && RoundSoFar(me, base, restart, timer, env, last, n, j - 1, trace, c + 1)
  {
    RoundCheckAt(me.id, base, n, j, RoundStart(base, n), c);
    assert Checks(trace) == EnumChecks(me.id, base, c + 1);
  }

  /** A pass that stops ends the rounds: with Covered at target j, or with a death after its check. */
  lemma StepStops(me: IDMap, base: Base, restart: bool, timer: nat, env: FingerEnv, last: CHID,
                  n: nat, j: nat, trace0: seq<Event>, c: nat, outcome: FixOutcome, trace: seq<Event>)
    requires j >= 1 && RoundSoFar(me, base, restart, timer, env, last, n, j, trace0, c)
    requires StepResult(me, restart, timer, env, last, LapAt(base, n), j, c, trace0, true, outcome, trace)
    ensures RoundsResult(me, base, restart, timer, env, last, outcome, trace)
  {
    if outcome.Covered? {
      StepCovers(me, base, restart, timer, env, last, n, j, c, outcome.finger, trace);
    } else {
      StepDies(me, base, restart, timer, env, last, n, j, trace0, c, trace);
    }
  }

  lemma StepCovers(me: IDMap, base: Base, restart: bool, timer: nat, env: FingerEnv, last: CHID,
                   n: nat, j: nat, c: nat, finger: CHID, trace: seq<Event>)
    requires j >= 1 && RoundSoFar(me, base, restart, timer, env, last, n, j, trace, c)
    requires LeavesFingerLoop(me.id, last, LapAt(base, n), j) && finger == FingerAt(me.id, LapAt(base, n), j)
    ensures RoundsResult(me, base, restart, timer, env, last, Covered(finger), trace)
  {
    NthTargetAt(me.id, base, n, j);
    assert |Checks(trace)| == c;
    assert NthTarget(me.id, base, c) == Target(LapAt(base, n), j, finger);
  }

  lemma StepDies(me: IDMap, base: Base, restart: bool, timer: nat, env: FingerEnv, last: CHID,
                 n: nat, j: nat, trace0: seq<Event>, c: nat, trace: seq<Event>)
    requires j >= 1 && RoundSoFar(me, base, restart, timer, env, last, n, j, trace0, c)
    requires TraceOk(me, restart, timer, env, last, trace) && DiedAfterPing(env, trace)
    requires Checks(trace) == Checks(trace0) + [Checked(c, LapAt(base, n), FingerAt(me.id, LapAt(base, n), j))]
    ensures RoundsResult(me, base, restart, timer, env, last, Died, trace)
  {
    RoundCheckAt(me.id, base, n, j, RoundStart(base, n), c);
    assert Checks(trace) == EnumChecks(me.id, base, c + 1);
  }

  /** A round that checked all its targets leaves the state after round n. */
  lemma RoundDone(me: IDMap, base: Base, restart: bool, timer: nat, env: FingerEnv, last: CHID,
                  n: nat, trace: seq<Event>, c: nat)
    requires RoundSoFar(me, base, restart, timer, env, last, n, 0, trace, c)
    ensures RoundsSoFar(me, base, restart, timer, env, last, n, trace, c)
  {
  }

  /** When the next lap would be 0, the rounds end with LapsExhausted. */
  lemma RoundsEnd(me: IDMap, base: Base, restart: bool, timer: nat, env: FingerEnv, last: CHID,
                  n: nat, trace: seq<Event>, c: nat)
    requires RoundsSoFar(me, base, restart, timer, env, last, n, trace, c) && LapAt(base, n + 1) == 0
    ensures RoundsResult(me, base, restart, timer, env, last, LapsExhausted, trace)
  {
    RoundsExhausted(me.id, last, base, n);
    NthTargetAt(me.id, base, n + 1, base - 1);
  }

  /** One finger check of a target outside (me, last), appended to the trace so far. */
  method AppendCheck(me: IDMap, restart: bool, timer: nat, env: FingerEnv, last: CHID, trace0: seq<Event>,
                     c: nat, lap: CHID, finger: CHID, prevf0: IDMap, prevfpred0: IDMap)
    returns (died: bool, trace: seq<Event>, prevf: IDMap, prevfpred: IDMap)
    requires TraceOk(me, restart, timer, env, last, trace0) && !EndsInPing(trace0)
    requires !Between(me.id, last, finger)
    ensures TraceOk(me, restart, timer, env, last, trace)
    ensures !died ==> !EndsInPing(trace)
    ensures died ==>
      |trace| >= 2 && trace[|trace| - 1].Pinged? && trace[|trace| - 2] == Checked(c, lap, finger)
      && !env.aliveAfterPing(c)
    ensures |trace| > |trace0| && trace[..|trace0|] == trace0 && trace[|trace0|] == Checked(c, lap, finger)
    ensures Checks(trace) == Checks(trace0) + [Checked(c, lap, finger)]
  {
    var steps;
    died, steps, prevf, prevfpred := CheckFinger(me, restart, timer, env, c, lap, finger, prevf0, prevfpred0);
    ExtendTrace(me, restart, timer, env, last, trace0, steps);
    trace := trace0 + steps;
    StepChecks(steps);
    ChecksAppend(trace0, steps);
    if died {
      assert trace[|trace| - 1] == steps[1] && trace[|trace| - 2] == steps[0];
    } else {
      assert trace[|trace| - 1] == steps[|steps| - 1];
    }
  }


  /** The loops of initstate: the entries it hands to loctable->add_node, in order. */
  method InitEntries(me: IDMap, base: Base, ids: seq<IDMap>) returns (added: seq<IDMap>)
    requires FindById(ids, me.id) < |ids|
    ensures added == InitAdds(ids,
      Fingers(me.id, base, Distance(me.id, ids[(FindById(ids, me.id) + 1) % |ids|].id)))
  {
    var sz := |ids|;
    var myPos := FindById(ids, me.id);
    var minLap := Distance(me.id, ids[(myPos + 1) % sz].id);
    var lap: CHID := RING - 1;
    ghost var total := InitAdds(ids, Schedule(me.id, base, minLap, lap));
    added := [];
    while lap > minLap
      invariant added + InitAdds(ids, Schedule(me.id, base, minLap, lap)) == total
      decreases lap
    {
      var round;
      lap, round := InitLap(me.id, base, ids, minLap, lap);
      added := added + round;
    }
  }

  /** One pass of initstate's outer loop: lap /= base, then the round at the new lap. */
  method InitLap(me: CHID, base: Base, ids: seq<IDMap>, minLap: CHID, lap: CHID) returns (lap': CHID, round: seq<IDMap>)
    requires |ids| > 0 && lap > minLap
    ensures lap' < lap
    ensures InitAdds(ids, Schedule(me, base, minLap, lap)) == round + InitAdds(ids, Schedule(me, base, minLap, lap'))
  {
    DivShrinks(lap, base);
    lap' := lap / base;
    assert Schedule(me, base, minLap, lap) == RoundTargets(me, base, minLap, lap', 1) + Schedule(me, base, minLap, lap');
    InitAddsAppend(ids, RoundTargets(me, base, minLap, lap', 1), Schedule(me, base, minLap, lap'));
    round := InitRound(me, base, ids, minLap, lap');
  }

  /** One round of stabilized's inner loop: false at the first finger whose table successor is not the expected one. */
  method MatchRound(me: CHID, base: Base, lid: seq<CHID>, tableSucc: CHID -> CHID, minLap: CHID, lap: CHID)
    returns (ok: bool)
    requires |lid| > 0
    ensures ok <==> AllMatch(lid, tableSucc, RoundTargets(me, base, minLap, lap, 1))
  {
    for j := 1 to base
      invariant AllMatch(lid, tableSucc, RoundTargets(me, base, minLap, lap, 1))
        <==> AllMatch(lid, tableSucc, RoundTargets(me, base, minLap, lap, j))
    {
      ghost var rest := RoundTargets(me, base, minLap, lap, j + 1);
      if lap * j < minLap {
        assert RoundTargets(me, base, minLap, lap, j) == rest;
        continue;
      }
      var finger := FingerAt(me, lap, j);
      ghost var t := Target(lap, j, finger);
      assert RoundTargets(me, base, minLap, lap, j) == [t] + rest;
      AllMatchAppend(lid, tableSucc, [t], rest);
      var matches := SuccMatches(lid, tableSucc, finger);
      if !matches {
        assert [t][0] == t;
        assert !AllMatch(lid, tableSucc, [t]);
        return false;
      }
      assert AllMatch(lid, tableSucc, [t]);
    }
    return true;
  }

  /**
   * stabilized's test of one finger: the id list's successor of the finger
   * (the first id above it, wrapping to the first id) is the table's.
   */
  method SuccMatches(lid: seq<CHID>, tableSucc: CHID -> CHID, finger: CHID) returns (ok: bool)
    requires |lid| > 0
    ensures ok <==> ExpectedSucc(lid, finger) == tableSucc(finger)
  {
    var pos := FirstAbove(lid, finger);
    if pos >= |lid| {
      pos := 0;
    }
    return lid[pos] == tableSucc(finger);
  }

  /** One round of initstate's inner loop: j = 1 .. base - 1 for the given lap. */
  method InitRound(me: CHID, base: Base, ids: seq<IDMap>, minLap: CHID, lap: CHID) returns (added: seq<IDMap>)
    requires |ids| > 0
    ensures added == InitAdds(ids, RoundTargets(me, base, minLap, lap, 1))
  {
    added := [];
    for j := 1 to base
      invariant added + InitAdds(ids, RoundTargets(me, base, minLap, lap, j))
        == InitAdds(ids, RoundTargets(me, base, minLap, lap, 1))
    {
      ghost var rest := RoundTargets(me, base, minLap, lap, j + 1);
      if lap * j < minLap {
        assert RoundTargets(me, base, minLap, lap, j) == rest;
        continue;
      }
      var finger := FingerAt(me, lap, j);
      ghost var t := Target(lap, j, finger);
      assert RoundTargets(me, base, minLap, lap, j) == [t] + rest;
      InitAddsCons(ids, t, rest);
      var sPos := UpperBoundCmp(ids, finger) % |ids|;
      if Between(finger, Add(finger, lap), ids[sPos].id) {
        assert InitChoice(ids, t) == Some(ids[sPos]);
        assert InitAdds(ids, [t] + rest) == [ids[sPos]] + InitAdds(ids, rest);
        assert added + ([ids[sPos]] + InitAdds(ids, rest)) == (added + [ids[sPos]]) + InitAdds(ids, rest);
        added := added + [ids[sPos]];
      } else {
        assert InitChoice(ids, t) == None;
        assert InitAdds(ids, [t] + rest) == [] + InitAdds(ids, rest) == InitAdds(ids, rest);
      }
    }
  }

  lemma {:induction false} AddEventsAppend(a: seq<IDMap>, b: seq<IDMap>)
    ensures AddEvents(a + b) == AddEvents(a) + AddEvents(b)
  {
  }

  /** The add_node loops over a reply: one Added event per entry, in order. */
  method AddAll(steps: seq<Event>, ns: seq<IDMap>) returns (r: seq<Event>)
    ensures r == steps + AddEvents(ns)
  {
    r := steps;
    for k := 0 to |ns|
      invariant r == steps + AddEvents(ns[..k])
    {
      assert ns[..k + 1] == ns[..k] + [ns[k]];
      AddEventsAppend(ns[..k], [ns[k]]);
      r := r + [Added(ns[k])];
    }
    assert ns[..|ns|] == ns;
  }

  /** Events that neither check, probe nor end the loop: table additions and lookups. */
  predicate Plain(tr: seq<Event>)
  {
    forall i :: 0 <= i < |tr| ==> tr[i].Added? || tr[i].LookedUp?
  }

  lemma PlainAddEvents(pre: seq<Event>, ns: seq<IDMap>)
    requires Plain(pre)
    ensures Plain(pre + AddEvents(ns))
  {
    var t := pre + AddEvents(ns);
    forall i | 0 <= i < |t|
      ensures t[i].Added? || t[i].LookedUp?
    {
      if i >= |pre| {
        assert t[i] == AddEvents(ns)[i - |pre|];
      }
    }
  }

  /** A check followed only by plain events is a well-formed step, unless the check was fresh. */
  lemma PlainStep(me: IDMap, restart: bool, timer: nat, env: FingerEnv, chk: Event, tail: seq<Event>)
    requires chk.Checked? && Plain(tail) && !StaleCheck(me, restart, timer, env, chk)
    requires tail != [] ==> !FreshCheck(me, restart, timer, env, chk)
    ensures StepOk(me, restart, timer, env, [chk] + tail) && NoProbes([chk] + tail)
    ensures tail != [] ==> !EndsInPing([chk] + tail)
  {
    var t := [chk] + tail;
    assert forall i :: 1 <= i < |t| ==> t[i] == tail[i - 1];
  }

  /**
   * The check of a stale entry followed by its ping, then (after a failed
   * ping) its deletion, then plain events, is a well-formed step.
   */
  lemma PingStep(me: IDMap, restart: bool, timer: nat, env: FingerEnv, chk: Event, ok: bool,
                 tail: seq<Event>)
    requires StaleCheck(me, restart, timer, env, chk) && ok == env.ping(chk.c).ok
    requires !ok && tail != [] ==> tail[0] == Deleted(Current(me, env, chk.c)) && Plain(tail[1..])
    requires ok ==> Plain(tail)
    ensures StepOk(me, restart, timer, env, [chk, Pinged(Current(me, env, chk.c), ok)] + tail)
    ensures tail != [] ==> !EndsInPing([chk, Pinged(Current(me, env, chk.c), ok)] + tail)
  {
    var cur := Current(me, env, chk.c);
    var t := [chk, Pinged(cur, ok)] + tail;
    forall i | 2 <= i < |t|
      ensures t[i].Added? || t[i].LookedUp? || (i == 2 && !ok && t[i] == Deleted(cur))
    {
      assert t[i] == tail[i - 2];
      if !ok && i > 2 {
        assert tail[i - 2] == tail[1..][i - 3];
      }
    }
    assert !FreshCheck(me, restart, timer, env, chk);
    assert DeletesFollowFailedPings(t);
    assert FailedPingsDelete(t);
    assert PingsFollowStaleChecks(me, restart, timer, env, t);
    assert FreshChecksSkip(me, restart, timer, env, t);
    assert StaleChecksPing(me, restart, timer, env, t);
  }

  /**
   * One pass of fix_fingers' inner loop body for a target that is not
   * between me and the last successor: the c-th finger check.  A fresh table
   * entry inside (finger, finger + lap) is skipped; a stale one is pinged, and
   * on success its reply is added, on failure it is deleted and looked up
   * again; a missing finger may be covered by the predecessor learned from the
   * previous ping; anything else is looked up.
   */
  method CheckFinger(me: IDMap, restart: bool, timer: nat, env: FingerEnv, c: nat,
                     lap: CHID, finger: CHID, prevf: IDMap, prevfpred: IDMap)
    returns (died: bool, steps: seq<Event>, prevf': IDMap, prevfpred': IDMap)
    ensures StepOk(me, restart, timer, env, steps) && steps[0] == Checked(c, lap, finger)
    ensures Fresh(me, restart, timer, env, c, lap, finger) ==> !died && steps == [Checked(c, lap, finger)]
    ensures Stale(me, restart, timer, env, c, lap, finger) ==>
      |steps| >= 2 && steps[1] == Pinged(Current(me, env, c), env.ping(c).ok)
      && (died <==> !env.aliveAfterPing(c))
    ensures !Stale(me, restart, timer, env, c, lap, finger) ==> !died && NoProbes(steps)
    ensures died ==> |steps| == 2 && steps[1].Pinged?
    ensures !died ==> !EndsInPing(steps)
    ensures restart ==> steps == [Checked(c, lap, finger), LookedUp(finger)] + AddEvents(env.lookup(c))
    ensures Stale(me, restart, timer, env, c, lap, finger) && !died ==>
      steps == [Checked(c, lap, finger), Pinged(Current(me, env, c), env.ping(c).ok)] + PingTail(me, env, c, lap, finger)
    ensures Stale(me, restart, timer, env, c, lap, finger) ==>
      prevf' == Current(me, env, c) && (!died ==> prevfpred' == PredAfterPing(env, c, prevfpred))
    ensures !Stale(me, restart, timer, env, c, lap, finger) ==> prevf' == prevf && prevfpred' == prevfpred
    ensures PredInRange(me, restart, env, c, lap, finger, prevf, prevfpred) ==>
      steps == [Checked(c, lap, finger), Added(prevfpred)]
    ensures PredSkips(me, restart, env, c, lap, finger, prevf, prevfpred) ==> steps == [Checked(c, lap, finger)]
    ensures !Probes(me, restart, env, c, lap, finger)
            && !PredInRange(me, restart, env, c, lap, finger, prevf, prevfpred)
            && !PredSkips(me, restart, env, c, lap, finger, prevf, prevfpred) ==>
      steps == [Checked(c, lap, finger), LookedUp(finger)] + AddEvents(env.lookup(c))
  {
    var chk := Checked(c, lap, finger);
    steps := [chk];
    died := false;
    prevf', prevfpred' := prevf, prevfpred;
    var currf := Current(me, env, c);
    if !restart && currf.ip != 0 && Between(finger, Add(finger, lap), currf.id) {
      if Age(env, c) < timer {
        PlainStep(me, restart, timer, env, chk, []);
        assert steps == [chk] + [];
        return;
      }
      died, steps, prevf', prevfpred' := PingFinger(me, restart, timer, env, c, lap, finger, prevfpred);
      return;
    }
    var tail: seq<Event> := [];
    var lookup := true;
    if !restart && currf.ip != 0 && prevf.ip == currf.ip && prevfpred.ip != 0 {
      if Between(finger, Add(finger, lap), prevfpred.id) {
        tail := [Added(prevfpred)];
        lookup := false;
      } else if prevfpred.ip != 0 && Between(prevfpred.id, prevf.id, finger) {
        lookup := false;
      }
    }
    if lookup {
      tail := AddAll([LookedUp(finger)], env.lookup(c));
      PlainAddEvents([LookedUp(finger)], env.lookup(c));
    }
    PlainStep(me, restart, timer, env, chk, tail);
    steps := [chk] + tail;
  }

  /**
   * What a ping of a stale entry leads to when the node is still alive: on a
   * reply, the answering node, its predecessor when that lies in
   * (finger, finger + lap), then its successors are added; without one, the
   * entry is deleted and the finger is looked up, adding the lookup's result.
   */
  function PingTail(me: IDMap, env: FingerEnv, c: nat, lap: CHID, finger: CHID): seq<Event>
  {
    var reply := env.ping(c);
    if reply.ok then
      [Added(reply.dst)]
      + (if Between(finger, Add(finger, lap), reply.pred.id) then [Added(reply.pred)] else [])
      + AddEvents(reply.succs)
    else
      [Deleted(Current(me, env, c)), LookedUp(finger)] + AddEvents(env.lookup(c))
  }

  /** prevfpred after a ping: the reply's predecessor, or an entry with ip 0 when there was no reply. */
  function PredAfterPing(env: FingerEnv, c: nat, prevfpred: IDMap): IDMap
  {
    if env.ping(c).ok then env.ping(c).pred else prevfpred.(ip := 0)
  }

  /**
   * The table entry for check c is live-looking but outside (finger, finger + lap),
   * it is the entry pinged last, and that ping reported a predecessor.
   */
  predicate PrevPredKnown(me: IDMap, restart: bool, env: FingerEnv, c: nat, lap: CHID, finger: CHID,
                          prevf: IDMap, prevfpred: IDMap)
  {
    && !restart && Current(me, env, c).ip != 0
    && !Between(finger, Add(finger, lap), Current(me, env, c).id)
    && prevf.ip == Current(me, env, c).ip && prevfpred.ip != 0
  }

  /** ... and that predecessor lies in (finger, finger + lap), so it is added instead of a lookup. */
  predicate PredInRange(me: IDMap, restart: bool, env: FingerEnv, c: nat, lap: CHID, finger: CHID,
                        prevf: IDMap, prevfpred: IDMap)
  {
    PrevPredKnown(me, restart, env, c, lap, finger, prevf, prevfpred)
    && Between(finger, Add(finger, lap), prevfpred.id)
  }

  /** ... or it does not, but the finger lies in (prevfpred, prevf), so the check is skipped. */
  predicate PredSkips(me: IDMap, restart: bool, env: FingerEnv, c: nat, lap: CHID, finger: CHID,
                      prevf: IDMap, prevfpred: IDMap)
  {
    PrevPredKnown(me, restart, env, c, lap, finger, prevf, prevfpred)
    && !Between(finger, Add(finger, lap), prevfpred.id)
    && Between(prevfpred.id, prevf.id, finger)
  }

  /**
   * The check of a stale table entry: it is pinged; a node dead after the
   * ping stops, a reply adds the answering node, its predecessor when that is
   * inside the target's range, and its successors, and no reply deletes the
   * entry and looks the finger up again.
   */
  method PingFinger(me: IDMap, restart: bool, timer: nat, env: FingerEnv, c: nat,
                    lap: CHID, finger: CHID, prevfpred: IDMap)
    returns (died: bool, steps: seq<Event>, prevf': IDMap, prevfpred': IDMap)
    requires Stale(me, restart, timer, env, c, lap, finger)
    ensures StepOk(me, restart, timer, env, steps) && steps[0] == Checked(c, lap, finger)
    ensures |steps| >= 2 && steps[1] == Pinged(Current(me, env, c), env.ping(c).ok)
    ensures died <==> !env.aliveAfterPing(c)
    ensures died ==> |steps| == 2
    ensures !died ==> !EndsInPing(steps)
    ensures !died ==>
      steps == [Checked(c, lap, finger), Pinged(Current(me, env, c), env.ping(c).ok)] + PingTail(me, env, c, lap, finger)
    ensures prevf' == Current(me, env, c) && (!died ==> prevfpred' == PredAfterPing(env, c, prevfpred))
  {
    var chk := Checked(c, lap, finger);
    var currf := Current(me, env, c);
    died := false;
    prevf' := currf;
    prevfpred' := prevfpred.(ip := 0);
    var reply := env.ping(c);
    var tail: seq<Event> := [];
    if !env.aliveAfterPing(c) {
      died := true;
    } else if reply.ok {
      tail := AddReply(me, env, c, lap, finger);
      prevfpred' := reply.pred;
    } else {
      tail := LoseFinger(me, env, c, lap, finger);
    }
    PingStep(me, restart, timer, env, chk, reply.ok, tail);
    steps := [chk, Pinged(currf, reply.ok)] + tail;
  }

  /** After a ping reply: the answering node, its predecessor when in range, and its successors are added. */
  method AddReply(me: IDMap, env: FingerEnv, c: nat, lap: CHID, finger: CHID) returns (tail: seq<Event>)
    requires env.ping(c).ok
    ensures tail == PingTail(me, env, c, lap, finger) && Plain(tail)
  {
    var reply := env.ping(c);
    tail := [Added(reply.dst)];
    if Between(finger, Add(finger, lap), reply.pred.id) {
      tail := tail + [Added(reply.pred)];
    }
    PlainAddEvents(tail, reply.succs);
    tail := AddAll(tail, reply.succs);
  }

  /** After a failed ping: the entry is deleted, and the finger is looked up with the result added. */
  method LoseFinger(me: IDMap, env: FingerEnv, c: nat, lap: CHID, finger: CHID) returns (tail: seq<Event>)
    requires !env.ping(c).ok
    ensures tail == PingTail(me, env, c, lap, finger)
    ensures tail[0] == Deleted(Current(me, env, c)) && Plain(tail[1..])
  {
    var plain := AddAll([LookedUp(finger)], env.lookup(c));
    PlainAddEvents([LookedUp(finger)], env.lookup(c));
    tail := [Deleted(Current(me, env, c))] + plain;
    assert tail[1..] == plain;
  }

  // ------------------------------------------------ the finger loop's exit

  /**
   * As written, fix_fingers' finger loop is `while (1)`: besides a death after
   * a ping, it is left only when this test holds for the current target.
   */
  predicate LeavesFingerLoop(me: CHID, last: CHID, lap: CHID, j: nat)
  {
    Between(me, last, FingerAt(me, lap, j))
  }

  /** fix_fingers' target for multiplier j at lap: me + lap*j, wrapping. */
  function FingerAt(me: CHID, lap: CHID, j: nat): CHID
  {
    Add(me, lap * j)
  }

  /**
   * fix_fingers' k-th target (counting from 0) in the order its loops visit
   * them: round RoundOf(base, k), whose lap is LapAt of that round, and
   * multiplier SlotOf(base, k), which runs from base - 1 down to 1 in each
   * round.
   */
  function NthTarget(me: CHID, base: Base, k: nat): Target
  {
    var r, j := RoundOf(base, k), SlotOf(base, k);
    Target(LapAt(base, r), j, FingerAt(me, LapAt(base, r), j))
  }

  /** The round of the k-th target; rounds count from 1 and hold base - 1 targets each. */
  function RoundOf(base: Base, k: nat): nat
    decreases k
  {
    if k < base - 1 then 1 else RoundOf(base, k - (base - 1)) + 1
  }

  /** The multiplier j of the k-th target. */
  function SlotOf(base: Base, k: nat): nat
    decreases k
  {
    if k < base - 1 then base - 1 - k else SlotOf(base, k - (base - 1))
  }

  /** The position in the enumeration of the first target of round n. */
  function RoundStart(base: Base, n: nat): nat
  {
    if n <= 1 then 0 else RoundStart(base, n - 1) + (base - 1)
  }

  /**
   * The enumeration in closed form: the k-th target is in round
   * k / (base - 1) + 1 with multiplier base - 1 - k % (base - 1).
   */
  lemma {:induction false} TargetOrderClosedForm(base: Base, k: nat)
    ensures RoundOf(base, k) == k / (base - 1) + 1 && SlotOf(base, k) == base - 1 - k % (base - 1)
    decreases k
  {
    if k < base - 1 {
      DivModUnique(k, base - 1, 0, k);
    } else {
      var k' := k - (base - 1);
      TargetOrderClosedForm(base, k');
      var q, r := k' / (base - 1), k' % (base - 1);
      assert k == (q + 1) * (base - 1) + r;
      DivModUnique(k, base - 1, q + 1, r);
    }
  }

  /** Round n starts at position (n - 1)(base - 1). */
  lemma {:induction false} RoundStartClosedForm(base: Base, n: nat)
    requires n >= 1
    ensures RoundStart(base, n) == (n - 1) * (base - 1)
  {
    if n > 1 {
      RoundStartClosedForm(base, n - 1);
      assert (n - 1) * (base - 1) == (n - 2) * (base - 1) + (base - 1);
    }
  }

  /** The check event of the k-th target: the k-th check, of that target's lap and finger. */
  function CheckOf(me: CHID, base: Base, k: nat): Event
  {
    Checked(k, NthTarget(me, base, k).lap, NthTarget(me, base, k).finger)
  }

  /** The check events of the first n targets, in order. */
  function EnumChecks(me: CHID, base: Base, n: nat): (r: seq<Event>)
    ensures |r| == n
  {
    if n == 0 then [] else EnumChecks(me, base, n - 1) + [CheckOf(me, base, n - 1)]
  }

  /** Element k of EnumChecks is the check of the k-th target. */
  lemma {:induction false} EnumChecksAt(me: CHID, base: Base, n: nat, k: nat)
    requires k < n
    ensures EnumChecks(me, base, n)[k] == CheckOf(me, base, k)
    decreases n
  {
    if k < n - 1 {
      EnumChecksAt(me, base, n - 1, k);
    }
  }

  /** The Checked events of a trace, in order. */
  function Checks(tr: seq<Event>): seq<Event>
  {
    if tr == [] then [] else (if tr[0].Checked? then [tr[0]] else []) + Checks(tr[1..])
  }

  lemma {:induction false} ChecksAppend(a: seq<Event>, b: seq<Event>)
    ensures Checks(a + b) == Checks(a) + Checks(b)
  {
    if a != [] {
      assert (a + b)[0] == a[0] && (a + b)[1..] == a[1..] + b;
      ChecksAppend(a[1..], b);
    } else {
      assert a + b == b;
    }
  }

  lemma {:induction false} NoChecks(tr: seq<Event>)
    requires forall i :: 0 <= i < |tr| ==> !tr[i].Checked?
    ensures Checks(tr) == []
  {
    if tr != [] {
      NoChecks(tr[1..]);
    }
  }

  /** A block whose only check is its first event contributes exactly that check. */
  lemma StepChecks(steps: seq<Event>)
    requires |steps| >= 1 && steps[0].Checked? && forall i :: 1 <= i < |steps| ==> !steps[i].Checked?
    ensures Checks(steps) == [steps[0]]
  {
    assert forall i :: 0 <= i < |steps[1..]| ==> steps[1..][i] == steps[i + 1];
    NoChecks(steps[1..]);
  }

  /** Every element of Checks(tr) is a Checked event of tr. */
  lemma {:induction false} ChecksIn(tr: seq<Event>)
    ensures forall e :: e in Checks(tr) ==> e.Checked? && e in tr
  {
    if tr != [] {
      ChecksIn(tr[1..]);
      assert forall e :: e in tr[1..] ==> e in tr;
    }
  }

  /** Target j of round n sits at position RoundStart(base, n) + (base - 1 - j) of the enumeration. */
  lemma NthTargetAt(me: CHID, base: Base, n: nat, j: nat)
    requires n >= 1 && 1 <= j < base
    ensures NthTarget(me, base, RoundStart(base, n) + (base - 1 - j))
      == Target(LapAt(base, n), j, FingerAt(me, LapAt(base, n), j))
  {
    RoundOfAt(base, n, base - 1 - j);
    var k := RoundStart(base, n) + (base - 1 - j);
    assert RoundOf(base, k) == n && SlotOf(base, k) == j;
  }

  lemma {:induction false} RoundOfAt(base: Base, n: nat, s: nat)
    requires n >= 1 && s < base - 1
    ensures RoundOf(base, RoundStart(base, n) + s) == n && SlotOf(base, RoundStart(base, n) + s) == base - 1 - s
  {
    if n > 1 {
      RoundOfAt(base, n - 1, s);
    }
  }

  /** The check made at step j of round n, when the round started at check c0, is the c-th of the enumeration. */
  lemma RoundCheckAt(me: CHID, base: Base, n: nat, j: nat, c0: nat, c: nat)
    requires n >= 1 && 1 <= j < base && c0 == RoundStart(base, n) && c == c0 + (base - 1 - j)
    ensures CheckOf(me, base, c) == Checked(c, LapAt(base, n), FingerAt(me, LapAt(base, n), j))
  {
    NthTargetAt(me, base, n, j);
  }

  lemma DivModUnique(k: nat, b: nat, q: nat, r: nat)
    requires b > 0 && k == q * b + r && r < b
    ensures k / b == q && k % b == r
  {
    DivUnique(k, b, q, r);
  }

  /** No target j = from, ..., base - 1 of the round at lap passes the exit test. */
  predicate RoundStays(me: CHID, last: CHID, base: nat, lap: CHID, from: nat)
    decreases base - from
  {
    from >= base || (!LeavesFingerLoop(me, last, lap, from) && RoundStays(me, last, base, lap, from + 1))
  }

  /** The lap of round i of fix_fingers: RING - 1 divided by base i times. */
  function LapAt(base: Base, i: nat): (r: CHID)
    ensures i > 0 ==> r < RING - 1
  {
    if i == 0 then RING - 1
    else
      var p := LapAt(base, i - 1);
      if p == 0 then 0 else DivShrinks(p, base); p / base
  }

  /** Rounds 1 .. n have no target passing the exit test. */
  ghost predicate RoundsStay(me: CHID, last: CHID, base: Base, n: nat)
  {
    n == 0 || (RoundStays(me, last, base, LapAt(base, n), 1) && RoundsStay(me, last, base, n - 1))
  }

  /**
   * If rounds 1 .. n had no target passing the test and round n + 1 has lap
   * 0, then no round with a non-zero lap has one.
   */
  lemma {:induction false} RoundsExhausted(me: CHID, last: CHID, base: Base, n: nat)
    requires RoundsStay(me, last, base, n) && LapAt(base, n + 1) == 0
    ensures forall i: nat :: 1 <= i && LapAt(base, i) > 0 ==> RoundStays(me, last, base, LapAt(base, i), 1)
  {
    forall i: nat | 1 <= i && LapAt(base, i) > 0
      ensures RoundStays(me, last, base, LapAt(base, i), 1)
    {
      if i > n {
        LapAtStaysZero(base, n + 1, i);
      } else {
        RoundsStayBelow(me, last, base, n, i);
      }
    }
  }

  lemma {:induction false} RoundsStayBelow(me: CHID, last: CHID, base: Base, n: nat, i: nat)
    requires RoundsStay(me, last, base, n) && 1 <= i <= n
    ensures RoundStays(me, last, base, LapAt(base, i), 1)
    decreases n
  {
    if i < n {
      RoundsStayBelow(me, last, base, n - 1, i);
    }
  }

  /** The round-i lap is 2^64 - 1 divided by base^i: repeated division is one division. */
  lemma {:induction false} LapAtClosedForm(base: Base, i: nat)
    ensures LapAt(base, i) == (RING - 1) / Pow(base, i)
  {
    if i > 0 {
      LapAtClosedForm(base, i - 1);
      DivDiv(RING - 1, Pow(base, i - 1), base);
      assert Pow(base, i) == Pow(base, i - 1) * base;
    }
  }

  /** Once a lap is 0 every later one is 0 too. */
  lemma {:induction false} LapAtStaysZero(base: Base, m: nat, i: nat)
    requires m <= i && LapAt(base, m) == 0
    ensures LapAt(base, i) == 0
    decreases i - m
  {
    if m < i {
      assert LapAt(base, m + 1) == 0;
      LapAtStaysZero(base, m + 1, i);
    }
  }

  /** The arc (me, me + 1) is empty, so no round ever passes the test. */
  lemma {:induction false} AdjacentRoundStays(me: CHID, base: nat, lap: CHID, from: nat)
    ensures RoundStays(me, Add(me, 1), base, lap, from)
    decreases base - from
  {
    if from < base {
      assert !LeavesFingerLoop(me, Add(me, 1), lap, from);
      AdjacentRoundStays(me, base, lap, from + 1);
    }
  }

  /**
   * When the last successor is me + 1 the test never holds, for any lap and
   * any j: the arc (me, me + 1) is empty.  Once the lap has reached 0 it
   * stays 0 and every target is me itself, which is never between me and any
   * last successor.  The as-written loop then never ends unless the node dies.
   */
  lemma AdjacentSuccessorNeverLeaves(me: CHID, base: Base, i: nat)
    ensures forall l: CHID, j: nat :: !LeavesFingerLoop(me, Add(me, 1), l, j)
    ensures RoundStays(me, Add(me, 1), base, LapAt(base, i), 1)
    ensures forall last: CHID, j: nat :: !LeavesFingerLoop(me, last, 0, j)
    ensures LapAt(base, i) == 0 ==> forall k: nat :: i <= k ==> LapAt(base, k) == 0
  {
    AdjacentRoundStays(me, base, LapAt(base, i), 1);
    if LapAt(base, i) == 0 {
      forall k: nat | i <= k ensures LapAt(base, k) == 0 {
        LapAtStaysZero(base, i, k);
      }
    }
  }
}
