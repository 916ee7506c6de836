/**
 * The in-memory Chord ring of protocols/chord_overlay.h: iNode objects linked
 * by predecessor pointers and finger tables (entry 0 is the successor), over a
 * 256-id key space, each storing key/value strings.
 *
 * The source's lookup walk and successor-chain walk are unbounded loops; here
 * they are bounded by HOP_BUDGET steps and report failure when it runs out.
 * A ghost set `ring` names the nodes a call may reach.
 */
module InnerChord {
  import opened Wrappers

  const U64: int := 0x1_0000_0000_0000_0000

  type Uint64 = x: int | 0 <= x < 0x1_0000_0000_0000_0000

  /** Bound on the hops of one lookup walk and on one walk along the successors. */
  const HOP_BUDGET: nat := 1024

  // ---------------------------------------------------------------- stoi

  /** The characters strtol skips before a number (isspace in the C locale). */
  predicate IsSpace(c: char)
  {
    c == ' ' || c == '\t' || c == '\n' || c == '\r' || c as int == 11 || c as int == 12
  }

  predicate IsDigit(c: char)
  {
    '0' <= c <= '9'
  }

  function DigitValue(c: char): nat
    requires IsDigit(c)
  {
    c as int - '0' as int
  }

  function SkipSpaces(s: string, i: nat): (r: nat)
    requires i <= |s|
    ensures i <= r <= |s| && (r < |s| ==> !IsSpace(s[r]))
    decreases |s| - i
  {
    if i < |s| && IsSpace(s[i]) then SkipSpaces(s, i + 1) else i
  }

  function DigitsEnd(s: string, i: nat): (r: nat)
    requires i <= |s|
    ensures i <= r <= |s| && (r < |s| ==> !IsDigit(s[r]))
    ensures forall k :: i <= k < r ==> IsDigit(s[k])
    decreases |s| - i
  {
    if i < |s| && IsDigit(s[i]) then DigitsEnd(s, i + 1) else i
  }

  /** Decimal value of a string of digits. */
  function DigitsValue(ds: string): nat
    requires forall k :: 0 <= k < |ds| ==> IsDigit(ds[k])
  {
    if ds == [] then 0 else DigitsValue(ds[..|ds| - 1]) * 10 + DigitValue(ds[|ds| - 1])
  }

  /**
   * std::stoi: skips leading white space, reads an optional sign and the longest
   * run of decimal digits, and ignores what follows.  No digits (invalid_argument)
   * or a value outside the 32-bit int range (out_of_range) is None, standing for
   * the exception.
   */
  function Stoi(s: string): Option<int>
  {
    var i := SkipSpaces(s, 0);
    var neg := i < |s| && s[i] == '-';
    var j := if i < |s| && (s[i] == '-' || s[i] == '+') then i + 1 else i;
    var e := DigitsEnd(s, j);
    if e == j then None
    else
      var mag: int := DigitsValue(s[j..e]);
      var v := if neg then -mag else mag;
      if -0x8000_0000 <= v < 0x8000_0000 then Some(v) else None
  }

  function DigitChar(d: nat): (c: char)
    requires d < 10
    ensures IsDigit(c) && DigitValue(c) == d
  {
    ('0' as int + d) as char
  }

  /** Decimal rendering of a natural number, without leading zeros. */
  function Decimal(n: nat): (r: string)
    ensures |r| > 0 && forall k :: 0 <= k < |r| ==> IsDigit(r[k])
  {
    if n < 10 then [DigitChar(n)] else Decimal(n / 10) + [DigitChar(n % 10)]
  }

  lemma {:induction false} DecimalValue(n: nat)
    ensures DigitsValue(Decimal(n)) == n
  {
    if n >= 10 {
      DecimalValue(n / 10);
      var d := Decimal(n);
      assert d[..|d| - 1] == Decimal(n / 10);
    }
  }

  /** stoi reads back the decimal rendering of every number in the int range. */
  lemma StoiDecimal(n: nat)
    requires n < 0x8000_0000
    ensures Stoi(Decimal(n)) == Some(n)
    ensures Stoi("-" + Decimal(n)) == Some(-(n as int))
  {
    var d := Decimal(n);
    DecimalValue(n);
    assert DigitsEnd(d, 0) == |d| by { DigitsEndAll(d, 0); }
    assert d[0..|d|] == d;
    StoiNegatedDecimal(n);
  }

  lemma StoiNegatedDecimal(n: nat)
    requires n < 0x8000_0000
    ensures Stoi("-" + Decimal(n)) == Some(-(n as int))
  {
    var d := Decimal(n);
    DecimalValue(n);
    var m := "-" + d;
    assert SkipSpaces(m, 0) == 0;
    assert DigitsEnd(m, 1) == |m| by { DigitsEndAll(m, 1); }
    assert m[1..|m|] == d;
  }

  lemma {:induction false} DigitsEndAll(s: string, i: nat)
    requires i <= |s| && forall k :: i <= k < |s| ==> IsDigit(s[k])
    ensures DigitsEnd(s, i) == |s|
    decreases |s| - i
  {
    if i < |s| {
      DigitsEndAll(s, i + 1);
    }
  }

  // ---------------------------------------------------------------- hash, distance

  /** C++ int % on a possibly negative left operand: the remainder takes its sign. */
  function TruncRem(v: int, m: nat): (r: int)
    requires m > 0
    ensures -(m as int) < r < m
    ensures v >= 0 ==> r == v % m
  {
    if v >= 0 then v % m else -((-v) % m)
  }

  /**
   * iNode::hash: the integer value of the key modulo 256, stored in a uint64 (a
   * negative remainder wraps around).  None when stoi throws.
   */
  function Hash(key: string): (h: Option<Uint64>)
    ensures h.Some? <==> Stoi(key).Some?
  {
    match Stoi(key)
    case None => None
    case Some(v) => Some(TruncRem(v, 256) % U64)
  }

  /** A key with a non-negative value hashes to that value mod 256, in [0, 256). */
  lemma HashRange(key: string)
    requires Stoi(key).Some?
    ensures Stoi(key).value >= 0 ==> Hash(key) == Some(Stoi(key).value % 256) && Hash(key).value < 256
    ensures Stoi(key).value < 0 ==> Hash(key).value == 0 || Hash(key).value > U64 - 256
  {
  }

  lemma HashOfDecimal(n: nat)
    requires n < 0x8000_0000
    ensures Hash(Decimal(n)) == Some(n % 256)
  {
    StoiDecimal(n);
    assert TruncRem(n, 256) % U64 == n % 256;
  }

  /** iNode::distance over the 256-id ring, in uint64 arithmetic. */
  function Distance256(a: Uint64, b: Uint64): Uint64
  {
    if a <= b then b - a else (256 - a + b) % U64
  }

  /** For ids below 256 the distance is the clockwise gap (b - a) mod 256. */
  lemma Distance256Range(a: Uint64, b: Uint64)
    requires a < 256 && b < 256
    ensures Distance256(a, b) == (b - a) % 256 < 256
    ensures Distance256(a, a) == 0
  {
  }

  /**
   * The stop test of find_successor, distance(c, id) <= distance(s, id) for a
   * node c with successor s, holds exactly when s == c or id lies in the
   * clockwise arc [c, s).
   */
  lemma StopTestIsArc(c: Uint64, s: Uint64, id: Uint64)
    requires c < 256 && s < 256 && id < 256
    ensures Distance256(c, id) <= Distance256(s, id) <==> c == s || Distance256(c, id) < Distance256(c, s)
  {
    Distance256Range(c, id);
    Distance256Range(s, id);
    Distance256Range(c, s);
  }

  // ---------------------------------------------------------------- greedy next hop

  predicate Drop(ids: seq<Uint64>, id: Uint64, i: nat)
    requires i + 1 < |ids|
  {
    Distance256(ids[i], id) < Distance256(ids[i + 1], id)
  }

  /** The last i < j where the distance drops from finger i+1 to finger i; the last finger if none. */
  function LastDrop(ids: seq<Uint64>, id: Uint64, j: nat): (r: nat)
    requires 0 < |ids| && j <= |ids| - 1
    ensures r < |ids|
    ensures r == |ids| - 1 ==> forall i :: 0 <= i < j ==> !Drop(ids, id, i)
    ensures r < |ids| - 1 ==> r < j && Drop(ids, id, r) && forall i :: r < i < j ==> !Drop(ids, id, i)
    decreases j
  {
    if j == 0 then |ids| - 1
    else if Drop(ids, id, j - 1) then j - 1
    else LastDrop(ids, id, j - 1)
  }

  /** The finger find_successor hops to next. */
  function NextHopIndex(ids: seq<Uint64>, id: Uint64): nat
    requires 0 < |ids|
  {
    LastDrop(ids, id, |ids| - 1)
  }

  /** Result of FingerTargets when the greedy hop is taken: the last finger closer to id than the one after it. */
  lemma NextHopIndexSpec(ids: seq<Uint64>, id: Uint64)
    requires 0 < |ids|
    ensures var r := NextHopIndex(ids, id);
      && r < |ids|
      && (r < |ids| - 1 ==> Drop(ids, id, r))
      && (forall i :: r < i < |ids| - 1 ==> !Drop(ids, id, i))
      && (r == |ids| - 1 ==> forall i :: 0 <= i < |ids| - 1 ==> !Drop(ids, id, i))
  {
  }

  /** updateFingerTable's target for entry i: (id_ + 2^i) % 8, as written. */
  function FingerTarget(id: Uint64, i: nat): Uint64
  {
    ((id + Pow2(i)) % U64) % 8
  }

  function Pow2(i: nat): (r: nat)
    ensures r >= 1
  {
    if i == 0 then 1 else 2 * Pow2(i - 1)
  }

  /**
   * Because of the % 8, every finger target lies in [0, 8), and the targets of
   * entries 3..7 coincide (all are id_ mod 8).
   */
  lemma FingerTargetsCollapse(id: Uint64, i: nat)
    requires 1 <= i < 8
    ensures FingerTarget(id, i) < 8
    ensures i >= 3 ==> FingerTarget(id, i) == id % 8
  {
    var p := Pow2(i);
    if i >= 3 {
      var q := Pow2(i - 3);
      assert p == 8 * q by {
        assert Pow2(i) == 2 * Pow2(i - 1);
        assert Pow2(i - 1) == 2 * Pow2(i - 2);
        assert Pow2(i - 2) == 2 * Pow2(i - 3);
      }
      // U64 and p are multiples of 8, so reducing mod U64 keeps the residue mod 8.
      var s := id + p;
      var w := s / U64;
      assert s == w * U64 + s % U64;
      assert U64 == 8 * 0x2000_0000_0000_0000;
      assert s % U64 == 8 * (q - w * 0x2000_0000_0000_0000) + id;
      ModShift(id, q - w * 0x2000_0000_0000_0000);
    }
  }

  lemma ModShift(a: int, k: int)
    ensures (8 * k + a) % 8 == a % 8
  {
  }

  // ---------------------------------------------------------------- nodes

  class INode {
    const id: Uint64
    var predecessor: INode
    var data: map<string, string>
    var fingerTable: seq<INode>

    /** iNode(id): a ring of one, its own successor and predecessor, with no data. */
    constructor (id: Uint64)
      ensures this.id == id && fingerTable == [this] && predecessor == this && data == map[]
    {
      this.id := id;
      predecessor := this;
      data := map[];
      new;
      fingerTable := [this];
    }

    /** The greedy hop of find_successor over one finger table (the inner for loop). */
    static method ClosestFinger(fingers: seq<INode>, target: Uint64) returns (k: nat)
      requires |fingers| >= 1
      ensures k < |fingers| && k == NextHopIndex(FingerIds(fingers), target)
    {
      ghost var ids := FingerIds(fingers);
      k := |fingers| - 1;
      for i := 0 to |fingers| - 1
        invariant k == LastDrop(ids, target, i)
      {
        if Distance256(fingers[i].id, target) < Distance256(fingers[i + 1].id, target) {
          k := i;
        }
      }
    }

    /**
     * find_successor: walks from this node; stops at a node whose id is the
     * target (returning it) or at a node c whose successor s satisfies
     * distance(c, id) <= distance(s, id) (returning s); otherwise hops to the
     * finger NextHopIndex picks.  None when the walk uses up HOP_BUDGET hops,
     * and then `path` is that exhausted walk.
     */
    method FindSuccessor(target: Uint64, ghost ring: set<INode>)
      returns (r: Option<INode>, last: INode, ghost path: seq<INode>)
      requires this in ring && Closed(ring)
      ensures GreedyWalk(this, target, path, ring) && path[|path| - 1] == last && last in ring
      ensures r.Some? ==> |path| <= HOP_BUDGET && |last.fingerTable| >= 1 && Answers(last, last.fingerTable[0], r.value, target)
      ensures r.None? ==> Exhausted(this, target, path, ring)
    {
      var current := this;
      path := [this];
      var hops := 0;
      while hops < HOP_BUDGET
        invariant hops <= HOP_BUDGET && |path| == hops + 1
        invariant GreedyWalk(this, target, path, ring) && path[|path| - 1] == current && current in ring
      {
        if current.id == target {
          return Some(current), current, path;
        }
        if Distance256(current.id, target) <= Distance256(current.fingerTable[0].id, target) {
          return Some(current.fingerTable[0]), current, path;
        }
        var k := ClosestFinger(current.fingerTable, target);
        var nextNode := current.fingerTable[k];
        WalkExtends(this, target, path, nextNode, ring);
        path := path + [nextNode];
        current := nextNode;
        hops := hops + 1;
      }
      return None, current, path;
    }

    /**
     * updateFingerTable: drops every entry but the successor, then appends, for
     * i = 1..7, the node find_successor returns for FingerTarget(id_, i), each
     * lookup running on the table built so far.  False when a lookup runs out
     * of hops (the table is then left partly built, up to the entry whose
     * lookup ran out).
     */
    method UpdateFingerTable(ghost ring: set<INode>, ghost succ: map<INode, INode>)
      returns (ok: bool, ghost lasts: seq<INode>, ghost walk: seq<INode>)
      requires this in ring && SuccessorsAre(ring, succ)
      modifies this
      ensures SuccessorsAre(ring, succ) && data == old(data) && predecessor == old(predecessor)
      ensures 1 <= |fingerTable| <= 8 && fingerTable[0] == old(fingerTable[0])
      ensures ok ==> |fingerTable| == 8 && TableAnswers(id, fingerTable, succ)
      ensures !ok ==> RebuildExhausted(this, walk, ring)
      ensures |lasts| == |fingerTable| - 1
      ensures forall k :: 0 <= k < |lasts| ==>
        lasts[k] in succ && Answers(lasts[k], succ[lasts[k]], fingerTable[k + 1], FingerTarget(id, k + 1))
    {
      DropFingers(ring, succ);
      lasts := [];
      for i := 1 to 8
        invariant |fingerTable| == i && fingerTable[0] == old(fingerTable[0])
        invariant SuccessorsAre(ring, succ) && data == old(data) && predecessor == old(predecessor)
        invariant |lasts| == i - 1
        invariant forall k :: 0 <= k < |lasts| ==>
          lasts[k] in succ && Answers(lasts[k], succ[lasts[k]], fingerTable[k + 1], FingerTarget(id, k + 1))
      {
        var r, last, path := FindSuccessor(FingerTarget(id, i), ring);
        if r.None? {
          return false, lasts, path;
        }
        fingerTable := fingerTable + [r.value];
        lasts := lasts + [last];
      }
      ok, walk := true, [];
      LastsAnswer(id, fingerTable, lasts, succ);
    }

    /** updateFingerTable's first loop: pops entries until only the successor is left. */
    method DropFingers(ghost ring: set<INode>, ghost succ: map<INode, INode>)
      requires this in ring && SuccessorsAre(ring, succ)
      modifies this
      ensures SuccessorsAre(ring, succ) && data == old(data) && predecessor == old(predecessor)
      ensures fingerTable == [old(fingerTable[0])]
    {
      while |fingerTable| > 1
        invariant 1 <= |fingerTable| && fingerTable[0] == old(fingerTable[0])
        invariant data == old(data) && predecessor == old(predecessor)
        invariant 1 <= |old(fingerTable)| && fingerTable == old(fingerTable)[..|fingerTable|]
        invariant SuccessorsAre(ring, succ)
        decreases |fingerTable|
      {
        fingerTable := fingerTable[..|fingerTable| - 1];
      }
    }

    /**
     * refreshFingerTables: rebuilds this node's table, then walks the successor
     * chain from fingerTable_[0] back to this node, rebuilding each table on the
     * way.  `visited` lists the nodes whose rebuild succeeded, in chain order,
     * and `next` is the node the walk reached after them.  True when every
     * rebuild succeeded and the walk came back to this node within HOP_BUDGET
     * steps.  False when the rebuild of `next` ran out of hops along `walk`, or
     * when HOP_BUDGET steps did not lead back.  Only the tables of the visited
     * nodes and of `next` change.
     */
    method RefreshFingerTables(ghost ring: set<INode>, ghost succ: map<INode, INode>)
      returns (ok: bool, ghost visited: seq<INode>, ghost next: INode, ghost walk: seq<INode>)
      requires this in ring && SuccessorsAre(ring, succ)
      modifies ring
      ensures RefreshResult(this, ok, visited, next, walk, ring, succ)
      ensures forall n {:trigger n.data} :: n in ring ==> n.data == old(n.data)
      ensures forall n {:trigger n.predecessor} :: n in ring ==> n.predecessor == old(n.predecessor)
      ensures forall n {:trigger n.fingerTable} :: n in ring && n !in visited && n != next ==> n.fingerTable == old(n.fingerTable)
    {
      visited, next := [], this;
      ok, walk := RefreshNode(this, this, visited, ring, succ);
      if !ok {
        BrokeResult(this, visited, this, walk, ring, succ);
        return;
      }
      visited := [this];
      var s := fingerTable[0];
      next := s;
      var steps := 0;
      while s != this && steps < HOP_BUDGET
        invariant steps <= HOP_BUDGET && |visited| == steps + 1 && next == s
        invariant RefreshSoFar(this, visited, s, ring, succ)
        invariant forall n {:trigger n.data} :: n in ring ==> n.data == old(n.data)
        invariant forall n {:trigger n.predecessor} :: n in ring ==> n.predecessor == old(n.predecessor)
        invariant forall n {:trigger n.fingerTable} :: n in ring && n !in visited && n != s ==> n.fingerTable == old(n.fingerTable)
        decreases HOP_BUDGET - steps
      {
        ok, walk := RefreshNode(s, this, visited, ring, succ);
        if !ok {
          BrokeResult(this, visited, s, walk, ring, succ);
          return;
        }
        visited := visited + [s];
        s := s.fingerTable[0];
        next := s;
        steps := steps + 1;
      }
      ok := s == this;
      ReachedResult(this, ok, visited, s, walk, ring, succ);
    }

    /**
     * One rebuild of refreshFingerTables: s, the node after the visited ones,
     * rebuilds its table; on success it joins the visited nodes and the walk
     * moves on to its successor.
     */
    static method RefreshNode(s: INode, start: INode, ghost visited: seq<INode>, ghost ring: set<INode>,
                              ghost succ: map<INode, INode>)
      returns (ok: bool, ghost walk: seq<INode>)
      requires RefreshSoFar(start, visited, s, ring, succ)
      requires visited == [] || s != start
      modifies s
      ensures s.data == old(s.data) && s.predecessor == old(s.predecessor)
      ensures ok ==> RefreshSoFar(start, visited + [s], succ[s], ring, succ)
      ensures !ok ==> RefreshBroke(start, visited, s, walk, ring, succ)
    {
      ghost var lasts;
      ok, lasts, walk := s.UpdateFingerTable(ring, succ);
    }

    /**
     * join: looks up the successor of newNode's id from this node.  An equal id
     * is a conflict and changes nothing.  Otherwise every pair of the successor
     * whose key hash reaches newNode before the successor (going clockwise) is
     * copied to newNode and erased from the successor, newNode is spliced in
     * between the successor and its predecessor, newNode's table is rebuilt and
     * the tables along the ring are refreshed.
     */
    method Join(newNode: INode, ghost ring: set<INode>, ghost succ: map<INode, INode>)
      returns (res: JoinOutcome, successor: INode, ghost last: INode, ghost path: seq<INode>, ghost succ1: map<INode, INode>,
               ghost refreshOk: bool, ghost visited: seq<INode>, ghost next: INode, ghost walk: seq<INode>)
      requires this in ring && newNode in ring && SuccessorsAre(ring, succ) && KeysParse(ring)
      modifies ring
      ensures SuccessorsAre(ring, succ1) && KeysParse(ring) && successor in ring && last in ring
      ensures !res.Spliced? ==> succ1 == succ
      ensures res.LookupBudgetExhausted? ==> exists p :: Exhausted(this, newNode.id, p, ring)
      ensures res.Spliced? ==> RefreshResult(this, refreshOk, visited, next, walk, ring, succ1)
      ensures res == Spliced(true) ==> refreshOk && TableAnswers(newNode.id, newNode.fingerTable, succ1)
      ensures !res.LookupBudgetExhausted? ==>
        |old(last.fingerTable)| >= 1 && Answers(last, old(last.fingerTable[0]), successor, newNode.id)
      ensures !res.LookupBudgetExhausted? ==>
        && (forall k :: 0 <= k < |path| ==> path[k] in ring)
        && old(GreedyWalk(this, newNode.id, path, ring)) && |path| <= HOP_BUDGET && path[|path| - 1] == last
      ensures !res.Spliced? ==> unchanged(ring)
      ensures res.IdConflict? ==> successor.id == newNode.id
      ensures res.Spliced? ==> successor.id != newNode.id
      ensures res.Spliced? ==>
        && newNode.data == old(newNode.data) + Moved(old(successor.data), newNode.id, successor.id)
        && successor.data == old(successor.data) - Moved(old(successor.data), newNode.id, successor.id).Keys
        && forall n {:trigger n.data} :: n in ring && n != newNode && n != successor ==> n.data == old(n.data)
      ensures res.Spliced? ==>
        var p := old(successor.predecessor);
        && successor.predecessor == newNode && newNode.predecessor == p && p.fingerTable[0] == newNode
        && newNode.fingerTable[0] == (if p == newNode then newNode else successor)
        && (forall n {:trigger n.predecessor} :: n in ring && n != newNode && n != successor ==> n.predecessor == old(n.predecessor))
        && (forall n {:trigger n.fingerTable} :: n in ring && n != newNode && n != p ==> n.fingerTable[0] == old(n.fingerTable[0]))
    {
      succ1, refreshOk, visited, next, walk := succ, false, [], this, [];
      var r;
      r, last, path := FindSuccessor(newNode.id, ring);
      assert old(GreedyWalk(this, newNode.id, path, ring));
      if r.None? {
        res, successor := JoinOutcome.LookupBudgetExhausted, this;
        return;
      }
      successor := r.value;
      if newNode.id == successor.id {
        res := IdConflict;
        return;
      }
      succ1 := Link(newNode, successor, ring, succ);
      var ok;
      ok, refreshOk, visited, next, walk := Rebuild(newNode, ring, succ1);
      res := Spliced(ok);
    }

    /** join's last two calls: newNode rebuilds its table, then this node refreshes the ring. */
    method Rebuild(newNode: INode, ghost ring: set<INode>, ghost succ: map<INode, INode>)
      returns (ok: bool, refreshOk: bool, ghost visited: seq<INode>, ghost next: INode, ghost walk: seq<INode>)
      requires this in ring && newNode in ring && SuccessorsAre(ring, succ)
      modifies ring
      ensures forall n {:trigger n.data} :: n in ring ==> n.data == old(n.data)
      ensures forall n {:trigger n.predecessor} :: n in ring ==> n.predecessor == old(n.predecessor)
      ensures RefreshResult(this, refreshOk, visited, next, walk, ring, succ)
      ensures ok ==> refreshOk && TableAnswers(newNode.id, newNode.fingerTable, succ)
    {
      var ok1, _, _ := newNode.UpdateFingerTable(ring, succ);
      refreshOk, visited, next, walk := RefreshFingerTables(ring, succ);
      ok := ok1 && refreshOk;
    }

    /** join between the lookup and the refresh: the key migration, then the splice. */
    static method Link(newNode: INode, successor: INode, ghost ring: set<INode>, ghost succ: map<INode, INode>)
      returns (ghost succ1: map<INode, INode>)
      requires newNode in ring && successor in ring && newNode != successor
      requires SuccessorsAre(ring, succ) && KeysParse(ring)
      modifies ring
      ensures SuccessorsAre(ring, succ1) && KeysParse(ring)
      ensures succ1 == succ[old(successor.predecessor) := newNode][newNode := newNode.fingerTable[0]]
      ensures && newNode.data == old(newNode.data) + Moved(old(successor.data), newNode.id, successor.id)
        && successor.data == old(successor.data) - Moved(old(successor.data), newNode.id, successor.id).Keys
        && forall n {:trigger n.data} :: n in ring && n != newNode && n != successor ==> n.data == old(n.data)
      ensures var p := old(successor.predecessor);
        && successor.predecessor == newNode && newNode.predecessor == p && p.fingerTable[0] == newNode
        && newNode.fingerTable[0] == (if p == newNode then newNode else successor)
        && (forall n {:trigger n.predecessor} :: n in ring && n != newNode && n != successor ==> n.predecessor == old(n.predecessor))
    {
      Migrate(newNode, successor);
      ghost var p := successor.predecessor;
      Splice(newNode, successor, ring);
      succ1 := succ[p := newNode][newNode := newNode.fingerTable[0]];
    }

    /** join's key migration: the pairs that move to newNode, and their erasure from the successor. */
    static method Migrate(newNode: INode, successor: INode)
      requires newNode != successor && forall k :: k in successor.data ==> Hash(k).Some?
      modifies newNode, successor
      ensures newNode.fingerTable == old(newNode.fingerTable) && newNode.predecessor == old(newNode.predecessor)
      ensures successor.fingerTable == old(successor.fingerTable) && successor.predecessor == old(successor.predecessor)
      ensures newNode.data == old(newNode.data) + Moved(old(successor.data), newNode.id, successor.id)
      ensures successor.data == old(successor.data) - Moved(old(successor.data), newNode.id, successor.id).Keys
    {
      var keyVector := CopyCloser(newNode, successor.data, successor.id);
      EraseKeys(successor, keyVector);
      assert (set k | k in keyVector) == Moved(old(successor.data), newNode.id, successor.id).Keys;
    }

    /**
     * join's pointer updates, in the source's order: newNode's successor becomes
     * `successor`, its predecessor the successor's old predecessor p, p's
     * successor becomes newNode and the successor's predecessor newNode.
     */
    static method Splice(newNode: INode, successor: INode, ghost ring: set<INode>)
      requires newNode in ring && successor in ring && newNode != successor && Closed(ring)
      modifies newNode, successor, successor.predecessor
      ensures Closed(ring)
      ensures newNode.data == old(newNode.data) && successor.data == old(successor.data)
      ensures old(successor.predecessor).data == old(successor.predecessor.data)
      ensures var p := old(successor.predecessor);
        && successor.predecessor == newNode && newNode.predecessor == p && p.fingerTable[0] == newNode
        && newNode.fingerTable[0] == (if p == newNode then newNode else successor)
        && |p.fingerTable| == |old(p.fingerTable)|
        && (p != successor && p != newNode ==> p.predecessor == old(p.predecessor))
        && (successor != newNode && successor != p ==> successor.fingerTable == old(successor.fingerTable))
    {
      newNode.fingerTable := newNode.fingerTable[0 := successor];
      newNode.predecessor := successor.predecessor;
      successor.predecessor.fingerTable := successor.predecessor.fingerTable[0 := newNode];
      successor.predecessor := newNode;
    }

    /**
     * Copies into dst every pair of src whose key hash is closer to dst's id
     * than to srcId, and returns the copied keys (join's first loop).
     */
    static method CopyCloser(dst: INode, src: map<string, string>, srcId: Uint64) returns (keyVector: seq<string>)
      requires forall k :: k in src ==> Hash(k).Some?
      modifies dst
      ensures dst.fingerTable == old(dst.fingerTable) && dst.predecessor == old(dst.predecessor)
      ensures dst.data == old(dst.data) + Moved(src, dst.id, srcId)
      ensures forall k :: k in keyVector <==> k in Moved(src, dst.id, srcId)
    {
      var keys := src.Keys;
      ghost var seen: set<string> := {};
      keyVector := [];
      while keys != {}
        invariant keys !! seen && keys + seen == src.Keys
        invariant dst.fingerTable == old(dst.fingerTable) && dst.predecessor == old(dst.predecessor)
        invariant dst.data == old(dst.data) + MovedAmong(src, seen, dst.id, srcId)
        invariant forall k :: k in keyVector <==> k in MovedAmong(src, seen, dst.id, srcId)
        decreases keys
      {
        var k :| k in keys;
        MovedAmongStep(src, seen, k, dst.id, srcId);
        var h := Hash(k).value;
        if Distance256(h, dst.id) < Distance256(h, srcId) {
          UpdateAfterUnion(old(dst.data), MovedAmong(src, seen, dst.id, srcId), k, src[k]);
          dst.data := dst.data[k := src[k]];
          keyVector := keyVector + [k];
        }
        keys := keys - {k};
        seen := seen + {k};
      }
      assert seen == src.Keys;
    }

    /** Erases each listed key from node's data (join's second loop). */
    static method EraseKeys(node: INode, keys: seq<string>)
      modifies node
      ensures node.fingerTable == old(node.fingerTable) && node.predecessor == old(node.predecessor)
      ensures node.data == old(node.data) - (set k | k in keys)
    {
      for i := 0 to |keys|
        invariant node.fingerTable == old(node.fingerTable) && node.predecessor == old(node.predecessor)
        invariant node.data == old(node.data) - (set k | k in keys[..i])
      {
        assert keys[..i + 1] == keys[..i] + [keys[i]];
        node.data := node.data - {keys[i]};
      }
      assert keys[..|keys|] == keys;
    }

    /** Copies every pair of src into dst, overwriting (leave's loop). */
    static method CopyAll(dst: INode, src: map<string, string>)
      modifies dst
      ensures dst.fingerTable == old(dst.fingerTable) && dst.predecessor == old(dst.predecessor)
      ensures dst.data == old(dst.data) + src
    {
      var keys := src.Keys;
      ghost var seen: set<string> := {};
      while keys != {}
        invariant keys !! seen && keys + seen == src.Keys
        invariant dst.fingerTable == old(dst.fingerTable) && dst.predecessor == old(dst.predecessor)
        invariant dst.data == old(dst.data) + Restrict(src, seen)
        decreases keys
      {
        var k :| k in keys;
        assert Restrict(src, seen + {k}) == Restrict(src, seen)[k := src[k]];
        UpdateAfterUnion(old(dst.data), Restrict(src, seen), k, src[k]);
        dst.data := dst.data[k := src[k]];
        keys := keys - {k};
        seen := seen + {k};
      }
      assert Restrict(src, seen) == src;
    }

    /**
     * insert: stores the pair at the node find_successor returns for the key's
     * hash.  A key stoi rejects throws (BadKey) before anything changes.
     */
    method Insert(key: string, value: string, ghost ring: set<INode>)
      returns (res: Placement, ghost last: INode, ghost path: seq<INode>)
      requires this in ring && Closed(ring) && KeysParse(ring)
      modifies ring
      ensures Closed(ring) && KeysParse(ring)
      ensures res.BadKey? <==> Hash(key).None?
      ensures res.LookupBudgetExhausted? ==> exists p :: Exhausted(this, Hash(key).value, p, ring)
      ensures !res.At? ==> unchanged(ring)
      ensures res.At? ==> res.node in ring && res.node.data == old(res.node.data)[key := value]
      ensures res.At? ==>
        && last in ring && |last.fingerTable| >= 1
        && Answers(last, last.fingerTable[0], res.node, Hash(key).value)
      ensures res.At? ==>
        && (forall k :: 0 <= k < |path| ==> path[k] in ring)
        && old(GreedyWalk(this, Hash(key).value, path, ring)) && |path| <= HOP_BUDGET && path[|path| - 1] == last
      ensures res.At? ==> forall n {:trigger n.data} :: n in ring && n != res.node ==> n.data == old(n.data)
      ensures forall n {:trigger n.fingerTable} :: n in ring ==> n.fingerTable == old(n.fingerTable)
      ensures forall n {:trigger n.predecessor} :: n in ring ==> n.predecessor == old(n.predecessor)
    {
      last, path := this, [this];
      var h := Hash(key);
      if h.None? {
        return BadKey, last, path;
      }
      var r;
      r, last, path := FindSuccessor(h.value, ring);
      if r.None? {
        return Placement.LookupBudgetExhausted, last, path;
      }
      var node := r.value;
      node.data := node.data[key := value];
      res := At(node);
    }

    /**
     * lookup: the node find_successor returns for the key's hash, found by the
     * stop rule at node `last`.  Changes nothing.
     */
    method Lookup(key: string, ghost ring: set<INode>) returns (res: Placement, ghost last: INode, ghost path: seq<INode>)
      requires this in ring && Closed(ring)
      ensures res.BadKey? <==> Hash(key).None?
      ensures res.LookupBudgetExhausted? ==> exists p :: Exhausted(this, Hash(key).value, p, ring)
      ensures res.At? ==>
        && res.node in ring && last in ring && |last.fingerTable| >= 1
        && Answers(last, last.fingerTable[0], res.node, Hash(key).value)
      ensures res.At? ==> GreedyWalk(this, Hash(key).value, path, ring) && |path| <= HOP_BUDGET && path[|path| - 1] == last
    {
      last, path := this, [this];
      var h := Hash(key);
      if h.None? {
        return BadKey, last, path;
      }
      var r;
      r, last, path := FindSuccessor(h.value, ring);
      if r.None? {
        return Placement.LookupBudgetExhausted, last, path;
      }
      res := At(r.value);
    }

    /**
     * leave: copies the target's pairs to its successor, points the target's
     * predecessor at that successor and refreshes the tables from this node.
     * The successor's predecessor pointer is not updated, as in the source.
     */
    method Leave(target: INode, ghost ring: set<INode>, ghost succ: map<INode, INode>)
      returns (refreshed: bool, ghost succ1: map<INode, INode>, ghost visited: seq<INode>, ghost next: INode,
               ghost walk: seq<INode>)
      requires this in ring && target in ring && SuccessorsAre(ring, succ) && KeysParse(ring)
      modifies ring
      ensures SuccessorsAre(ring, succ1) && KeysParse(ring)
      ensures succ1 == succ[old(target.predecessor) := old(target.fingerTable[0])]
      ensures RefreshResult(this, refreshed, visited, next, walk, ring, succ1)
      ensures var s := old(target.fingerTable[0]);
        && s.data == old(s.data) + old(target.data)
        && (forall n {:trigger n.data} :: n in ring && n != s ==> n.data == old(n.data))
        && old(target.predecessor).fingerTable[0] == s
        && (forall n {:trigger n.predecessor} :: n in ring ==> n.predecessor == old(n.predecessor))
        && (forall n {:trigger n.fingerTable} :: n in ring && n != old(target.predecessor) ==> n.fingerTable[0] == old(n.fingerTable[0]))
    {
      succ1 := Unlink(target, ring, succ);
      refreshed, visited, next, walk := RefreshFingerTables(ring, succ1);
    }

    /** leave before the refresh: the target's pairs go to its successor, and its predecessor skips it. */
    static method Unlink(target: INode, ghost ring: set<INode>, ghost succ: map<INode, INode>)
      returns (ghost succ1: map<INode, INode>)
      requires target in ring && SuccessorsAre(ring, succ) && KeysParse(ring)
      modifies ring
      ensures SuccessorsAre(ring, succ1) && KeysParse(ring)
      ensures succ1 == succ[old(target.predecessor) := old(target.fingerTable[0])]
      ensures var s := old(target.fingerTable[0]);
        && s.data == old(s.data) + old(target.data)
        && (forall n {:trigger n.data} :: n in ring && n != s ==> n.data == old(n.data))
        && (forall n {:trigger n.predecessor} :: n in ring ==> n.predecessor == old(n.predecessor))
    {
      var successor := target.fingerTable[0];
      CopyAll(successor, target.data);
      target.predecessor.fingerTable := target.predecessor.fingerTable[0 := successor];
      succ1 := succ[target.predecessor := successor];
    }
  }

  datatype JoinOutcome = IdConflict | LookupBudgetExhausted | Spliced(refreshed: bool)

  /** Where an insert stored, or a lookup found, a key. */
  datatype Placement = BadKey | LookupBudgetExhausted | At(node: INode)

  /** The pairs of src whose key is in ks and whose hash reaches newId before srcId going clockwise. */
  function MovedAmong(src: map<string, string>, ks: set<string>, newId: Uint64, srcId: Uint64): map<string, string>
  {
    map k | k in ks && k in src && MovesTo(k, newId, srcId) :: src[k]
  }

  function Moved(src: map<string, string>, newId: Uint64, srcId: Uint64): map<string, string>
  {
    MovedAmong(src, src.Keys, newId, srcId)
  }

  predicate MovesTo(key: string, newId: Uint64, srcId: Uint64)
  {
    Hash(key).Some? && Distance256(Hash(key).value, newId) < Distance256(Hash(key).value, srcId)
  }

  function Restrict(m: map<string, string>, ks: set<string>): map<string, string>
  {
    map k | k in ks && k in m :: m[k]
  }

  /**
   * join's migration splits the successor's pairs: the moved pairs and the kept
   * ones are disjoint and together give back the original map.
   */
  lemma MovedPartition(src: map<string, string>, newId: Uint64, srcId: Uint64)
    ensures Moved(src, newId, srcId).Keys <= src.Keys
    ensures forall k :: k in Moved(src, newId, srcId) ==> Moved(src, newId, srcId)[k] == src[k] && MovesTo(k, newId, srcId)
    ensures forall k :: k in src && MovesTo(k, newId, srcId) ==> k in Moved(src, newId, srcId)
    ensures (src - Moved(src, newId, srcId).Keys) + Moved(src, newId, srcId) == src
  {
    var m := Moved(src, newId, srcId);
    assert forall k :: k in (src - m.Keys) + m <==> k in src;
  }

  lemma MovedAmongStep(src: map<string, string>, seen: set<string>, k: string, newId: Uint64, srcId: Uint64)
    requires k in src
    ensures MovedAmong(src, seen + {k}, newId, srcId) ==
      if MovesTo(k, newId, srcId) then MovedAmong(src, seen, newId, srcId)[k := src[k]]
      else MovedAmong(src, seen, newId, srcId)
  {
  }

  lemma UpdateAfterUnion(a: map<string, string>, b: map<string, string>, k: string, v: string)
    ensures a + b[k := v] == (a + b)[k := v]
  {
  }

  /** Every stored key parses, so hashing it during a migration cannot throw. */
  ghost predicate KeysParse(ring: set<INode>)
    reads ring
  {
    forall n, k :: n in ring && k in n.data ==> Hash(k).Some?
  }

  function FingerIds(fs: seq<INode>): (r: seq<Uint64>)
    reads fs
    ensures |r| == |fs| && forall i :: 0 <= i < |fs| ==> r[i] == fs[i].id
  {
    if fs == [] then [] else [fs[0].id] + FingerIds(fs[1..])
  }

  /** Every node of the set has a successor, and its predecessor and fingers are in the set. */
  ghost predicate Closed(ring: set<INode>)
    reads ring
  {
    && (forall n {:trigger n.predecessor} :: n in ring ==> n.predecessor in ring)
    && (forall n {:trigger n.fingerTable} :: n in ring ==> |n.fingerTable| >= 1)
    && (forall n, i {:trigger n.fingerTable[i]} :: n in ring && 0 <= i < |n.fingerTable| ==> n.fingerTable[i] in ring)
  }

  /**
   * Node c, whose successor is succ, hands the walk to s for target: c itself
   * on an id match, or succ when the stop test holds.
   */
  predicate Answers(c: INode, succ: INode, s: INode, target: Uint64)
  {
    (s == c && c.id == target) ||
    (c.id != target && s == succ && Distance256(c.id, target) <= Distance256(succ.id, target))
  }

  /** A walk of find_successor for target: from start, within the ring, every hop a greedy one. */
  ghost predicate GreedyWalk(start: INode, target: Uint64, path: seq<INode>, ring: set<INode>)
    reads ring
  {
    && Closed(ring)
    && |path| > 0 && path[0] == start
    && (forall k :: 0 <= k < |path| ==> path[k] in ring)
    && (forall k, m :: 0 <= k < |path| && 0 <= m < |path| && m == k + 1 ==> GreedyStep(path[k], path[m], target))
  }

  lemma WalkExtends(start: INode, target: Uint64, path: seq<INode>, n: INode, ring: set<INode>)
    requires GreedyWalk(start, target, path, ring) && n in ring && GreedyStep(path[|path| - 1], n, target)
    ensures GreedyWalk(start, target, path + [n], ring)
  {
  }

  /**
   * A walk of find_successor for target that used up its HOP_BUDGET hops, so
   * none of the first HOP_BUDGET nodes answered.
   */
  ghost predicate Exhausted(start: INode, target: Uint64, path: seq<INode>, ring: set<INode>)
    reads ring
  {
    GreedyWalk(start, target, path, ring) && |path| == HOP_BUDGET + 1
  }

  /**
   * The walk is deterministic: a walk of greedy hops from start that is no
   * longer than HOP_BUDGET nodes is a prefix of an exhausted walk from start,
   * and its last node does not answer.  So find_successor cannot both answer
   * and run out of hops for the same start and target.
   */
  lemma {:induction false} WalkPrefixOfExhausted(start: INode, target: Uint64, p: seq<INode>, q: seq<INode>,
                                                 ring: set<INode>)
    requires Exhausted(start, target, q, ring)
    requires 0 < |p| <= HOP_BUDGET && p[0] == start
    requires forall k, m :: 0 <= k < |p| && 0 <= m < |p| && m == k + 1 ==> GreedyStep(p[k], p[m], target)
    ensures p == q[..|p|]
    ensures var c := p[|p| - 1];
      |c.fingerTable| >= 1 && !Answers(c, c.fingerTable[0], c, target) && !Answers(c, c.fingerTable[0], c.fingerTable[0], target)
  {
    if |p| > 1 {
      var p' := p[..|p| - 1];
      WalkPrefixOfExhausted(start, target, p', q, ring);
      assert GreedyStep(p[|p| - 2], p[|p| - 1], target);
      assert GreedyStep(q[|p| - 2], q[|p| - 1], target);
      assert p == p' + [p[|p| - 1]];
    }
    assert GreedyStep(q[|p| - 1], q[|p|], target);
  }

  /** succ records each node's successor, entry 0 of its table. */
  ghost predicate SuccessorsAre(ring: set<INode>, succ: map<INode, INode>)
    reads ring
  {
    && Closed(ring) && succ.Keys == ring
    && forall n {:trigger n.fingerTable} :: n in ring ==> n.fingerTable[0] == succ[n]
  }

  /**
   * The table of a node with this id answers every finger lookup: entry i,
   * for i = 1..7, is the answer of find_successor's stop rule for
   * FingerTarget(id, i) at some node l whose successor is succ[l].
   */
  ghost predicate TableAnswers(id: Uint64, table: seq<INode>, succ: map<INode, INode>)
  {
    |table| == 8 && forall i: nat :: 1 <= i < 8 ==> EntryAnswers(id, table[i], i, succ)
  }

  /** Entry i holds s: some node l, whose successor is succ[l], answers FingerTarget(id, i) with s. */
  ghost predicate EntryAnswers(id: Uint64, s: INode, i: nat, succ: map<INode, INode>)
  {
    exists l :: l in succ && Answers(l, succ[l], s, FingerTarget(id, i))
  }

  /** n's table rebuild stopped at entry |n.fingerTable|, whose lookup ran out of hops along walk. */
  ghost predicate RebuildExhausted(n: INode, walk: seq<INode>, ring: set<INode>)
    reads ring
  {
    && Closed(ring) && n in ring && |n.fingerTable| < 8
    && Exhausted(n, FingerTarget(n.id, |n.fingerTable|), walk, ring)
  }

  /**
   * visited is the successor chain from start back to start, and every node
   * on it has a table that answers its finger lookups.
   */
  ghost predicate RefreshedCycle(start: INode, visited: seq<INode>, ring: set<INode>, succ: map<INode, INode>)
    reads ring
  {
    && SuccessorsAre(ring, succ)
    && |visited| > 0 && visited[0] == start
    && (forall k :: 0 <= k < |visited| ==> visited[k] in ring)
    && (forall k :: 0 <= k < |visited| - 1 ==> visited[k + 1] == visited[k].fingerTable[0])
    && visited[|visited| - 1].fingerTable[0] == start
    && (forall k :: 0 <= k < |visited| ==> TableAnswers(visited[k].id, visited[k].fingerTable, succ))
  }

  /** The node reached from n after k successor steps along succ. */
  ghost function Orbit(succ: map<INode, INode>, n: INode, k: nat): INode
  {
    if k == 0 then n
    else
      var m := Orbit(succ, n, k - 1);
      if m in succ then succ[m] else m
  }

  /**
   * After a successful refresh, every node reached from start by any number
   * of successor steps lies on the visited cycle, and so its table answers
   * every finger lookup.
   */
  lemma {:induction false} OrbitRefreshed(start: INode, visited: seq<INode>, ring: set<INode>,
                                          succ: map<INode, INode>, k: nat)
    requires RefreshedCycle(start, visited, ring, succ)
    ensures exists i :: 0 <= i < |visited| && Orbit(succ, start, k) == visited[i]
    ensures TableAnswers(Orbit(succ, start, k).id, Orbit(succ, start, k).fingerTable, succ)
  {
    if k == 0 {
      assert Orbit(succ, start, k) == visited[0];
    } else {
      OrbitRefreshed(start, visited, ring, succ, k - 1);
      var i :| 0 <= i < |visited| && Orbit(succ, start, k - 1) == visited[i];
      assert visited[i] in succ && succ[visited[i]] == visited[i].fingerTable[0];
      if i < |visited| - 1 {
        assert Orbit(succ, start, k) == visited[i + 1];
      } else {
        assert Orbit(succ, start, k) == visited[0];
      }
    }
  }

  lemma LastsAnswer(id: Uint64, table: seq<INode>, lasts: seq<INode>, succ: map<INode, INode>)
    requires |table| == 8 && |lasts| == 7
    requires forall k :: 0 <= k < |lasts| ==>
      lasts[k] in succ && Answers(lasts[k], succ[lasts[k]], table[k + 1], FingerTarget(id, k + 1))
    ensures TableAnswers(id, table, succ)
  {
    forall i: nat | 1 <= i < 8
      ensures EntryAnswers(id, table[i], i, succ)
    {
      var l := lasts[i - 1];
      assert Answers(l, succ[l], table[i], FingerTarget(id, i));
    }
  }

  /**
   * The walk of refreshFingerTables from start: visited follows the recorded
   * successors from start, never comes back to start, and s is the node after
   * it.
   */
  ghost predicate RefreshChain(start: INode, visited: seq<INode>, s: INode, ring: set<INode>,
                               succ: map<INode, INode>)
    reads ring
  {
    && SuccessorsAre(ring, succ)
    && s in ring && start in ring
    && (visited == [] ==> s == start)
    && (forall k :: 0 <= k < |visited| ==> visited[k] in ring)
    && (|visited| > 0 ==> visited[0] == start && succ[visited[|visited| - 1]] == s)
    && (forall k, m :: 0 <= k < |visited| && 0 <= m < |visited| && m == k + 1 ==> visited[m] == succ[visited[k]])
    && (forall k :: 1 <= k < |visited| ==> visited[k] != start)
  }

  /** The walk so far, with every visited table rebuilt. */
  ghost predicate RefreshSoFar(start: INode, visited: seq<INode>, s: INode, ring: set<INode>,
                               succ: map<INode, INode>)
    reads ring
  {
    && RefreshChain(start, visited, s, ring, succ)
    && (forall k {:trigger visited[k].fingerTable} :: 0 <= k < |visited| ==>
          TableAnswers(visited[k].id, visited[k].fingerTable, succ))
  }

  /**
   * What refreshFingerTables leaves, with succ the unchanged successors:
   * visited, the nodes whose rebuild succeeded, follows the successor chain
   * from start without coming back to it, and next is the node after it.
   * Every visited table answers its finger lookups (except the table of next
   * when the walk failed at a node it had already visited).  On success the
   * chain closes at start; on failure the rebuild of next ran out of hops
   * along walk, or HOP_BUDGET steps did not lead back to start.
   */
  ghost predicate RefreshResult(start: INode, ok: bool, visited: seq<INode>, next: INode, walk: seq<INode>,
                                ring: set<INode>, succ: map<INode, INode>)
    reads ring
  {
    && RefreshChain(start, visited, next, ring, succ)
    && (forall k {:trigger visited[k].fingerTable} :: 0 <= k < |visited| && (ok || visited[k] != next) ==>
          TableAnswers(visited[k].id, visited[k].fingerTable, succ))
    && (ok ==> RefreshedCycle(start, visited, ring, succ))
    && (!ok ==> RebuildExhausted(next, walk, ring) || (|visited| == HOP_BUDGET + 1 && next != start))
  }

  lemma BrokeResult(start: INode, visited: seq<INode>, s: INode, walk: seq<INode>, ring: set<INode>,
                    succ: map<INode, INode>)
    requires RefreshBroke(start, visited, s, walk, ring, succ)
    ensures RefreshResult(start, false, visited, s, walk, ring, succ)
  {
  }

  lemma ReachedResult(start: INode, ok: bool, visited: seq<INode>, s: INode, walk: seq<INode>, ring: set<INode>,
                      succ: map<INode, INode>)
    requires RefreshSoFar(start, visited, s, ring, succ)
    requires |visited| > 0 && ok == (s == start) && (ok || |visited| == HOP_BUDGET + 1)
    ensures RefreshResult(start, ok, visited, s, walk, ring, succ)
  {
    if ok {
      forall k | 0 <= k < |visited| - 1
        ensures visited[k + 1] == visited[k].fingerTable[0]
      {
        assert visited[k + 1] == succ[visited[k]];
      }
    }
  }

  /** The walk stopped because the rebuild of s ran out of hops along walk. */
  ghost predicate RefreshBroke(start: INode, visited: seq<INode>, s: INode, walk: seq<INode>, ring: set<INode>,
                               succ: map<INode, INode>)
    reads ring
  {
    && RefreshChain(start, visited, s, ring, succ)
    && (forall k {:trigger visited[k].fingerTable} :: 0 <= k < |visited| && visited[k] != s ==>
          TableAnswers(visited[k].id, visited[k].fingerTable, succ))
    && RebuildExhausted(s, walk, ring)
  }

  /** One hop of the walk: c does not answer, and the walk moves to the finger NextHopIndex picks. */
  ghost predicate GreedyStep(c: INode, n: INode, target: Uint64)
    reads c, c.fingerTable
  {
    && |c.fingerTable| >= 1
    && c.id != target
    && Distance256(c.id, target) > Distance256(c.fingerTable[0].id, target)
    && n == c.fingerTable[NextHopIndex(FingerIds(c.fingerTable), target)]
  }
}
