# A Dafny model of the LEAD Chord simulator core

LEAD extends the p2psim Chord simulator with learned virtual-node routing. This
project models its sequential core in Dafny and proves properties of that model.
The core is:

- **The in-memory Chord ring `iNode`** (`inode_ring.dfy`, module `InnerChord`).
  - It covers the key hash `stoi(key) % 256` and the 256-id ring distance.
  - Greedy `find_successor` and `updateFingerTable`.
  - `join`, with its id-conflict check, its key migration from the successor and its pointer splicing.
  - `insert`, `lookup`, `leave` and `refreshFingerTables`.
  - Nodes form a heap of objects. A ghost set `ring` names the nodes a call may reach.
  - A ghost map `succ` records each node's successor, `fingerTable_[0]`. The contracts state finger contents against it and say how join and leave change it.
- **Boundary key migration `migrate_data`** (`key_migration.dfy`, module `KeyMigration`).
  - It covers both `Chord_vnodes::migrate_data` and `Chord_overlay::migrate_data`, which are the same code.
  - The skip list `key_pairs` is a collaborator whose body is not shown. It is modelled as a list kept strictly ascending by hash id.
- **Value types of the two Chord headers** (`chord_types.dfy`, module `ChordTypes`):
  `IDMap` with its `cmp` and `==`, `idmapcompare`, `TIMEOUT` and the `idmapwrap` constructor.
- **The 64-bit id space** (`consistent_hash.dfy`, module `ConsistentHash`).
  - `ConsistentHash::distance` and `ConsistentHash::between` are collaborators whose bodies are not shown.
  - They get their assumed meaning only: `distance(a,b) = (b-a) mod 2^64`, and `between(lo,hi,x)` holds when x is strictly inside the clockwise arc (lo,hi).
  - The same module has lower and upper bound searches on sorted id lists.
- **The virtual-node finger logic of `VNode`** (`learned_dht.dfy`, module `LearnedDht`).
  - It covers the finger-target enumeration shared by `initstate` and `stabilized`. The lap starts at 2^64-1 and is divided by `_base` each round; a target is `lap*j + me.id`, and one closer than `min_lap` is skipped.
  - `initstate`, `stabilized`, the control skeleton of `fix_fingers` and `reschedule_finger_stabilizer`.
  - Location-table queries, pings, lookups and the clock are inputs. What the node does to its table is recorded, in order, in the node's event log.
- **The oracle's sorted membership list** (`oracle_observer.dfy`, module `OracleObserver`).
  - `addnode`, `delnode`, the constructor, `get_sorted_nodes` and the `ids` maintenance in `kick`.
  - The LearnedDHT and Marques observers are the same code over two `IDMap` types, so one class models both.
- **The chained hash table `HashMap<K,V>`** (`hashmap.dfy`, module `BigHashMap`).
  - The bucket array is a Dafny `array` of chains. Each chain is a sequence in list order from the bucket head.
  - A ghost map `contents` is what the table stores.

Behaviour that depends on something the model does not see is a parameter:
- the topology latency in `Timeout`;
- the hash function and the header constants of `HashMap`;
- the results of `loctable->succ`, of `now()`, of `failure_detect` and of `alive()` in `fix_fingers`;
- liveness in `reschedule_finger_stabilizer`;
- the network's node list in the observer constructor.

## Model

| member | source | states |
|---|---|---|
| ConsistentHash.Distance | protocols/chordv.h:258 | the clockwise distance is 0 exactly on equal ids, b-a when a <= b, and 2^64-a+b otherwise |
| ConsistentHash.Add | protocols/learned_dht.C:55 | 64-bit wrapping addition: the result lies b mod 2^64 clockwise from a |
| ConsistentHash.BetweenCases | protocols/learned_dht.C:90 | between on the open clockwise arc, in plain integer terms: lo < x < hi without wrap, x > lo or x < hi with wrap, empty when lo = hi |
| ConsistentHash.DistanceRoundTrip | protocols/chordv.h:258 | distances a to b and b to a add up to the ring size for a != b |
| ConsistentHash.FirstAtLeast | protocols/learned_dht.C:56 | the first position whose id is >= t: every earlier id is below t |
| ConsistentHash.FirstAbove | protocols/learned_dht.C:227 | std::upper_bound with <: every earlier id is <= t and the id found is > t |
| ConsistentHash.FirstAtLeastIsRingSuccessor | protocols/learned_dht.C:56-57 | on a sorted list the first id >= t, wrapping to index 0, is the clockwise-closest id to t |
| ConsistentHash.FirstAboveIsStrictRingSuccessor | protocols/learned_dht.C:227-231 | on a sorted list the first id > t, wrapping to index 0, is the clockwise-closest id different from t |
| ChordTypes.CmpIsTotalButNotStrict | protocols/chordv.h:73-74 | IDMap::cmp (a.id <= b.id) is reflexive and total, and holds both ways exactly when operator== holds |
| ChordTypes.SameIgnoresOtherFields | protocols/chord_overlay.h:306-307 | equality compares ids only: entries with other ip or timestamp are equal by id yet different records |
| ChordTypes.IdCompare | protocols/chordv.h:166-176 | idmapcompare is 0 iff a == b, negative iff a < b, positive iff a > b |
| ChordTypes.IdCompareAntisymmetric | protocols/chordv.h:393-403 | the comparator is antisymmetric and only returns -1, 0 or 1 |
| ChordTypes.UpperBoundCmpIsFirstAtLeast | observers/learneddhtobserver.h:42-43 | upper_bound with the <= comparator finds the first entry whose id is >= n.id, a lower bound |
| ChordTypes.FindById | observers/learneddhtobserver.h:50-51 | find by operator==: the first entry with the id, and no earlier entry has it |
| ChordTypes.TimeoutShape | protocols/chordv.h:41 | up to latency 1000 the timeout grows with the latency and doubles with the multiplier; past 1000 it is the same flat value for every latency and multiplier, so it drops from latency 1000 to 1001 |
| ChordTypes.NewIdMapWrapOrder | protocols/chordv.h:383-403 | new entries compare equal under idmapcompare exactly when their nodes are equal by id, they are ordered as their nodes' ids, the node is kept, and a new entry is neither healthy nor a successor |
| KeyMigration.SortedInsertContents | protocols/chordv.h:259-260 | skip-list insert adds the pair exactly when its hash id is absent and otherwise keeps the list |
| KeyMigration.SortedInsertSpec | protocols/chordv.h:259-260 | skip-list insert keeps the list strictly sorted, loses nothing and holds the hash id afterwards |
| KeyMigration.RemoveFirstHash | protocols/chordv.h:268-270 | on a strictly sorted list, removing the first pair's hash id drops exactly that pair |
| KeyMigration.RunFrom | protocols/chordv.h:255-266 | the walk's stop point: every pair before it is closer to the new node, and the pair at it is not |
| KeyMigration.InsertAllSpec | protocols/chordv.h:259-261 | inserting the moved pairs one by one keeps the new node's list sorted, keeps its old pairs and holds every moved hash id |
| KeyMigration.KeyList.Insert | protocols/chordv.h:260 | the list afterwards is the sorted insertion of the pair and stays strictly sorted |
| KeyMigration.KeyList.Remove | protocols/chordv.h:269 | the list afterwards lacks the pair with the hash id |
| KeyMigration.ChordNode.MigrateData | protocols/chordv.h:248-272 | returns this node's own list; this list loses exactly the maximal leading run of closer pairs, and the new list gains that run inserted in order (the same code is at protocols/chord_overlay.h:481-505) |
| KeyMigration.ChordNode.CopyRun | protocols/chordv.h:253-266 | the walk copies exactly the maximal leading run of closer pairs into the new list, in sorted position, and returns their hash ids in list order |
| KeyMigration.ChordNode.RemoveRun | protocols/chordv.h:267-271 | removing the copied hash ids one at a time leaves exactly the pairs after the copied run, in order |
| KeyMigration.MigrationConserves | protocols/chordv.h:253-271 | when the new node holds none of the moved hash ids, this node's rest and the new node's list together hold exactly the pairs both held before |
| KeyMigration.CloserSplitSpec | protocols/chordv.h:258 | the corrected split hands over exactly the closer pairs and keeps exactly the others, losing and creating nothing |
| KeyMigration.RunIsCloserWithoutWrap | protocols/chordv.h:255-266 | when no hash id passes this node's id and the new node precedes it, the leading run is exactly the set of closer pairs |
| KeyMigration.MigrateDataMissesWrappedKey | protocols/chordv.h:262-264 | an input on which the walk stops at once although a later pair is closer to the new node |
| KeyMigration.ChordNode.MigrateCloser | protocols/chordv.h:254-271 | the corrected method: this list keeps exactly the non-closer pairs, and the new list gains every closer pair, both lists staying sorted |
| InnerChord.Hash | protocols/chord_overlay.h:84-92 | the hash is defined exactly when stoi accepts the key |
| InnerChord.HashRange | protocols/chord_overlay.h:88-89 | for a non-negative key the hash is its value mod 256 and below 256; a negative value wraps near 2^64 |
| InnerChord.StoiDecimal | protocols/chord_overlay.h:88 | stoi reads back a decimal numeral and its negation within the int range |
| InnerChord.HashOfDecimal | protocols/chord_overlay.h:84-92 | the hash of the decimal numeral of n is n mod 256 |
| InnerChord.TruncRem | protocols/chord_overlay.h:89 | C++ % truncates: the remainder lies strictly between -m and m and is the Euclidean one for v >= 0 |
| InnerChord.Distance256Range | protocols/chord_overlay.h:107-113 | distance on 256 ids is (b-a) mod 256, below 256, and 0 from an id to itself |
| InnerChord.StopTestIsArc | protocols/chord_overlay.h:132 | find_successor's stop test holds exactly when the successor is the node itself or the target lies in the node's arc up to its successor |
| InnerChord.NextHopIndexSpec | protocols/chord_overlay.h:141-146 | the next hop is the last finger i with finger i strictly closer than finger i+1, or the last finger when there is none |
| InnerChord.FingerTargetsCollapse | protocols/chord_overlay.h:163-165 | with the % 8 as written, for every 64-bit id, every finger target is below 8 and targets from i = 3 on all equal id mod 8 |
| InnerChord.INode.constructor | protocols/chord_overlay.h:77-81 | a new node is its own successor and predecessor and stores nothing |
| InnerChord.INode.ClosestFinger | protocols/chord_overlay.h:141-146 | the inner loop returns the index NextHopIndex specifies |
| InnerChord.INode.FindSuccessor | protocols/chord_overlay.h:116-154 | the walk is a path of greedy hops within the ring ending at `last`; an answer, found within HOP_BUDGET hops, is the node on an id match or the successor when the stop test holds; no answer only when the walk has made HOP_BUDGET hops without stopping |
| InnerChord.INode.UpdateFingerTable | protocols/chord_overlay.h:157-167 | entry 0, the data and the predecessor stay; entry i answers find_successor(FingerTarget(id, i)) by the stop rule at a ghost last node, for every entry built; the table has exactly 8 entries each answering its target on success, and failure only when one lookup made HOP_BUDGET hops |
| InnerChord.INode.DropFingers | protocols/chord_overlay.h:158-160 | the pop loop leaves exactly the old entry 0, with data and predecessor unchanged |
| InnerChord.INode.RefreshFingerTables | protocols/chord_overlay.h:250-257 | no data or predecessor changes, and only the tables of the nodes walked change; the visited nodes are this node and its successors in order, each with 8 entries answering their targets; success means the successor chain came back to this node, failure means a rebuild made a lookup of HOP_BUDGET hops or HOP_BUDGET steps did not lead back |
| InnerChord.INode.RefreshNode | protocols/chord_overlay.h:253-255 | one rebuild on the chain: success extends the visited chain by this node, every visited table answering its targets, and moves on to its successor; failure is a lookup of HOP_BUDGET hops |
| InnerChord.OrbitRefreshed | protocols/chord_overlay.h:250-257 | after a successful refresh, the node k successor steps from the start is one of the visited nodes, for every k, and its table answers all its finger targets |
| InnerChord.WalkPrefixOfExhausted | protocols/chord_overlay.h:116-154 | the greedy walk is determined by its start and target: when some walk from start makes HOP_BUDGET hops, every greedy path from start of at most HOP_BUDGET nodes is its prefix and its last node meets neither stop test, so find_successor cannot answer for that start and target |
| InnerChord.LastsAnswer | protocols/chord_overlay.h:161-166 | the per-entry stop-rule answers of the rebuilt table make the whole table answer its targets |
| InnerChord.ReachedResult | protocols/chord_overlay.h:252-256 | a refresh walk that stopped on coming back to the start, or on its step budget, meets RefreshFingerTables' result and, on coming back, closes the successor cycle |
| InnerChord.INode.Join | protocols/chord_overlay.h:170-207 | the successor is find_successor's answer for the new id, by the stop rule at the last node of the greedy walk from this node (a walk of at most HOP_BUDGET hops, returned as a ghost path); a failed lookup (a walk of HOP_BUDGET hops) or an id conflict changes nothing; otherwise exactly the closer keys move from the successor to the new node, the new node is spliced between the successor and its old predecessor, the refresh meets RefreshFingerTables' result on the new successor map, and Spliced(true) means the new node's table and the refresh both succeeded |
| InnerChord.INode.Link | protocols/chord_overlay.h:186-203 | key migration and splice: exactly the closer keys move, and the successor map changes only at the old predecessor and the new node |
| InnerChord.INode.Rebuild | protocols/chord_overlay.h:205-206 | the new node's rebuild then the refresh: no data or predecessor changes, the refresh meets its result, and success means the new node's table answers its targets |
| InnerChord.INode.Migrate | protocols/chord_overlay.h:186-199 | the new node gains exactly the successor's pairs that move, and the successor loses exactly their keys |
| InnerChord.INode.Splice | protocols/chord_overlay.h:200-203 | new.succ = successor, new.pred = old pred, old pred's succ = new, successor.pred = new |
| InnerChord.INode.CopyCloser | protocols/chord_overlay.h:188-194 | copies exactly the pairs whose hash is closer to the new node and returns their keys |
| InnerChord.INode.EraseKeys | protocols/chord_overlay.h:195-199 | erases exactly the listed keys |
| InnerChord.INode.Insert | protocols/chord_overlay.h:209-215 | a key stoi rejects changes nothing; a failed lookup is a walk of HOP_BUDGET hops and changes nothing; otherwise the pair is stored at find_successor's answer for the key's hash, by the stop rule at the last node of the greedy walk from this node (at most HOP_BUDGET hops, returned as a ghost path), and no other node's data changes |
| InnerChord.INode.Lookup | protocols/chord_overlay.h:217-225 | lookup changes nothing; BadKey exactly when stoi rejects the key; a budget failure only after a walk of HOP_BUDGET hops; otherwise the answer is the node the stop rule picks for the key's hash at the last node of the greedy walk from this node, a walk of at most HOP_BUDGET hops returned as a ghost path |
| InnerChord.INode.CopyAll | protocols/chord_overlay.h:229-231 | the successor's data becomes its old data overwritten by all of the target's pairs |
| InnerChord.INode.Leave | protocols/chord_overlay.h:227-235 | the successor gains the target's pairs, no other data changes, the target's predecessor now points at the successor so the successor map skips the target, and the refresh meets RefreshFingerTables' result on that map, `refreshed` meaning the whole cycle was rebuilt |
| InnerChord.INode.Unlink | protocols/chord_overlay.h:229-232 | the successor gains the target's pairs, the successor map changes only at the target's predecessor, and no other data or predecessor changes |
| InnerChord.MovedPartition | protocols/chord_overlay.h:188-199 | the moved pairs are exactly the closer ones, with their values, and moved plus remaining is the successor's old map |
| LearnedDht.RoundTargetsMembers | protocols/learned_dht.C:53-55 | a target is in a round exactly when 1 <= j < base, lap*j >= min_lap and finger = me + lap*j |
| LearnedDht.ScheduleMembers | protocols/learned_dht.C:49-55 | closed form of the enumeration: a target is produced exactly when it lies in a round k whose lap is 2^64-1 divided by base^k and whose previous lap exceeds min_lap |
| LearnedDht.DivDiv | protocols/learned_dht.C:52 | dividing the lap twice is dividing by the product of the divisors |
| LearnedDht.ScheduleSound | protocols/learned_dht.C:51-55 | every target has 1 <= j < base and min_lap <= lap*j < 2^64, so lap*j never overflows and is the distance from me to the finger |
| LearnedDht.MinLapIsSuccessorGap | protocols/learned_dht.C:48 | min_lap is the clockwise gap to the ring successor: positive with two or more ids, no other id closer, 0 alone |
| LearnedDht.FingersAvoidSuccessorArc | protocols/learned_dht.C:48-55 | no finger target lies strictly between me and its ring successor, and with two or more members none is me |
| LearnedDht.InitCandidateClosest | protocols/learned_dht.C:56-57 | initstate's candidate is the member clockwise closest to the target |
| LearnedDht.InitChoiceSpec | protocols/learned_dht.C:56-59 | initstate adds an entry exactly when no id equals the target and some id lies within (0, lap) clockwise of it, and the entry is the closest member |
| LearnedDht.UpperBoundsAgreeOffIds | protocols/learned_dht.C:56 | initstate's upper_bound with <= and stabilized's with < agree exactly when the target is not an id |
| LearnedDht.ExpectedSucc | protocols/learned_dht.C:227-231 | the expected successor is a member of the id list |
| LearnedDht.AllMatchAppend | protocols/learned_dht.C:222-239 | all fingers of a concatenation match exactly when those of both parts match |
| LearnedDht.VNode.constructor | protocols/learned_dht.C:40 | the stabilizer is idle, no run is outstanding and nothing has been done |
| LearnedDht.VNode.InitState | protocols/learned_dht.C:43-63 | the log gains one add_node per target that InitChoice accepts, in enumeration order, and the counters stay |
| LearnedDht.InitEntries | protocols/learned_dht.C:45-61 | the loops return the InitChoice entries of all targets in order |
| LearnedDht.InitLap | protocols/learned_dht.C:51-60 | one pass of the outer loop shrinks the lap and adds exactly the round of the new lap, the rest of the schedule still to come |
| LearnedDht.InitRound | protocols/learned_dht.C:53-60 | one round returns the InitChoice entries of its targets in order |
| LearnedDht.VNode.Stabilized | protocols/learned_dht.C:205-241 | true exactly when the base check passed and every target's table successor is the expected id |
| LearnedDht.MatchRound | protocols/learned_dht.C:224-238 | one round is true exactly when all its targets match |
| LearnedDht.SuccMatches | protocols/learned_dht.C:226-233 | true exactly when the table successor of the finger is the expected id |
| LearnedDht.VNode.FixFingers | protocols/learned_dht.C:65-172 | an empty successor list does nothing; on the log, deletes follow failed pings, stale checks are followed by their ping, fresh entries are skipped and a restart probes nothing; the checks are exactly the first targets of the lap/j enumeration in order, none passing the exit test; a covered finger is the next target and passes it, exhausted laps leave the next target at lap 0; covered or exhausted ends with the migrate request, a death right after a ping |
| LearnedDht.FingerStep | protocols/learned_dht.C:89-157 | one target of the finger loop: Covered exactly when the target FingerAt(me, lap, j) lies between me and the last successor, with that finger and the log unchanged; otherwise the check of that target is appended as the only new check, and the loop stops only for a death right after a ping |
| LearnedDht.PingFinger | protocols/learned_dht.C:104-132 | a stale entry is pinged; the check stops if and only if the node is dead after the ping; otherwise a reply adds the answering node, its predecessor exactly when that lies in (finger, finger + lap), then its successors, and no reply deletes the entry, looks the finger up and adds the lookup's result; prevf becomes the pinged entry and prevfpred the reply's predecessor, or an entry with ip 0 |
| LearnedDht.FingerRounds | protocols/learned_dht.C:84-159 | the rounds keep every trace property; their checks are exactly the first targets of the enumeration, in order, and they end covered at the next target, dead after a ping, or with no non-zero lap passing the exit test |
| LearnedDht.FingerRound | protocols/learned_dht.C:86-158 | round n from j = base-1 down to 1 either checks every target of the round, none passing the exit test, and continues, or ends the rounds covered at its first target passing it or at a death after a ping |
| LearnedDht.RoundStep | protocols/learned_dht.C:89-157 | one pass of round n's inner loop: going on means target j was checked as the next check of the enumeration; stopping means the rounds' result holds |
| LearnedDht.StepContinues | protocols/learned_dht.C:93-157 | a pass that goes on checked the target at its place in the enumeration, and the round continues with j - 1 |
| LearnedDht.StepCovers | protocols/learned_dht.C:89-91 | a target passing the exit test, reached after the earlier checks, is the first one of the enumeration to pass it |
| LearnedDht.StepDies | protocols/learned_dht.C:104-132 | a death after the check of target j ends the rounds with Died and the checks still the enumeration's prefix |
| LearnedDht.RoundsEnd | protocols/learned_dht.C:84-86 | when the next lap is 0, the rounds end with LapsExhausted and the next target opens a round of lap 0 |
| LearnedDht.FixChecksStay | protocols/learned_dht.C:89-91 | no target fix_fingers checked passes the exit test |
| LearnedDht.FixMigrates | protocols/learned_dht.C:159-166 | a covered or exhausted end of the rounds, followed by the migrate request, is fix_fingers' promised result |
| LearnedDht.NthTargetAt | protocols/learned_dht.C:84-91 | target j of round n is the enumeration's target at position RoundStart(n) + (base-1-j), with lap LapAt(base, n) and finger me + lap*j |
| LearnedDht.TargetOrderClosedForm | protocols/learned_dht.C:84-91 | the k-th target lies in round k / (base-1) + 1 with multiplier base-1 - k mod (base-1) |
| LearnedDht.RoundStartClosedForm | protocols/learned_dht.C:84-88 | round n starts at position (n-1)(base-1) of the enumeration |
| LearnedDht.AppendCheck | protocols/learned_dht.C:93-157 | appending one check of an uncovered target keeps the trace properties, and a death ends with a ping made right after this check |
| LearnedDht.CheckFinger | protocols/learned_dht.C:93-157 | one check, with its exact events per branch: a fresh entry is skipped with no call; a stale one is pinged, with PingFinger's additions or deletion and lookup after it; an entry outside the range that was the last one pinged is covered by adding its reported predecessor when that is in range, or skipped when the finger lies between that predecessor and it; every other case, a restart included, looks the finger up and adds the result; a death follows only a ping, and prevf/prevfpred change only after a ping |
| LearnedDht.AddAll | protocols/learned_dht.C:125-127 | the add_node loop logs one addition per entry, in order |
| LearnedDht.PingStep | protocols/learned_dht.C:97-132 | a stale check, its ping, the deletion after a failed ping and then additions form a well-formed step |
| LearnedDht.VNode.RescheduleFingerStabilizer | protocols/learned_dht.C:187-203 | a dead node stops the stabilizer and does nothing; a live one runs fix_fingers exactly when no run is outstanding, logs that run's events, whose outcome and trace meet everything fix_fingers promises, then reschedules itself last; the outstanding count is as it was |
| LearnedDht.LapAtClosedForm | protocols/learned_dht.C:79-86 | the lap of round i is (2^64-1) divided by base^i: repeated integer division equals one division |
| LearnedDht.RoundsExhausted | protocols/learned_dht.C:84-91 | if rounds 1..n never pass the exit test and round n+1 has lap 0, then no round with a non-zero lap passes it |
| LearnedDht.AdjacentSuccessorNeverLeaves | protocols/learned_dht.C:84-91 | with the last successor at me+1 the exit test never holds, for any lap and any j; once the lap is 0 it stays 0 and no target at lap 0 leaves the loop, whatever the last successor |
| OracleObserver.InsertAt | observers/learneddhtobserver.h:45 | vector::insert places n at p, shifts the rest up by one and adds n to the multiset |
| OracleObserver.RemoveAt | observers/learneddhtobserver.h:52 | vector::erase drops the entry at p, keeps the others in order and removes just that entry from the multiset |
| OracleObserver.Entries | observers/learneddhtobserver.C:64-69 | one entry per network node, with its id and ip and timestamp 0 |
| OracleObserver.InsertAtLowerBoundSorted | observers/learneddhtobserver.h:42-45 | inserting at upper_bound with the <= comparator keeps the list sorted |
| OracleObserver.LowerBoundFindsId | observers/learneddhtobserver.h:42-44 | on a sorted list the entry at the insertion point has n's id exactly when some entry has it |
| OracleObserver.AddKeepsSorted | observers/learneddhtobserver.h:40-48 | addnode keeps ids sorted |
| OracleObserver.AddKeepsStrict | observers/learneddhtobserver.h:44-45 | addnode keeps ids unique |
| OracleObserver.AddIds | observers/learneddhtobserver.h:42-46 | after addnode the listed ids are the old ones plus n's id |
| OracleObserver.AddContents | observers/learneddhtobserver.h:44-45 | a present id leaves the list unchanged, an absent one adds exactly n, and adding twice is adding once |
| OracleObserver.DelUndoesAdd | observers/learneddhtobserver.h:40-54 | on a list without n's id, delnode undoes addnode |
| OracleObserver.DelKeepsOrder | observers/learneddhtobserver.h:49-54 | delnode keeps ids sorted, and unique if they were |
| OracleObserver.DelContents | observers/learneddhtobserver.h:50-52 | delnode removes exactly the first entry with n's id, and with unique ids the listed ids lose just n's id |
| OracleObserver.JoinKeepsOrder | observers/learneddhtobserver.C:141-144 | join keeps the list sorted; it adds exactly n or changes nothing, adds n when its ip is absent, keeps ids unique for a new id, and changes nothing when n is already listed |
| OracleObserver.CrashUndoesJoin | observers/learneddhtobserver.C:159-162 | for a node whose id and ip are absent, join is addnode and crash undoes it |
| OracleObserver.SortById | observers/learneddhtobserver.C:73 | sort yields a list sorted by id holding the same entries |
| OracleObserver.Observer.constructor | observers/learneddhtobserver.C:49-78 | the list is sorted by id and holds one entry per network node, and the count starts at 0 |
| OracleObserver.Observer.GetSortedNodes | observers/learneddhtobserver.C:80-85 | returns the non-empty list unchanged, sorted by id |
| OracleObserver.Observer.AddNode | observers/learneddhtobserver.h:40-48 | with an oracle nothing changes; otherwise the list is addnode's and the count goes up by one mod 2^32, even for a duplicate (the same code is at observers/marquesobserver.h:40-48) |
| OracleObserver.Observer.DelNode | observers/learneddhtobserver.h:49-54 | the list is delnode's and the count goes down by one mod 2^32 |
| OracleObserver.Observer.Kick | observers/learneddhtobserver.C:120-171 | a null info changes nothing, "join" inserts sorted unless the entry there has the same ip, "crash" erases the id-equal entry, and the count never changes (the same code is at observers/marquesobserver.C:120-171) |
| BigHashMap.Slot | p2psim/bighashmap.cc:139-144 | bucket() is the hash code cast to unsigned, mod the bucket count, and so a valid bucket |
| BigHashMap.IndexOfKey | p2psim/bighashmap.cc:153-154 | the first element with the key, or the chain's length exactly when the key is absent |
| BigHashMap.LookupAgrees | p2psim/bighashmap.cc:147-170 | a key is stored exactly when its bucket's chain holds it, with the stored value |
| BigHashMap.MoveToFront | p2psim/bighashmap.cc:155-160 | moving element i to the front keeps the chain's length and multiset and puts it first |
| BigHashMap.MoveToFrontKeeps | p2psim/bighashmap.cc:155-160 | move-to-front changes no stored pair |
| BigHashMap.PrependKeeps | p2psim/bighashmap.cc:228-233 | prepending a new key to its bucket stores that pair and nothing else |
| BigHashMap.UnlinkKeeps | p2psim/bighashmap.cc:249-257 | unlinking element i removes exactly its key |
| BigHashMap.GrowSpec | p2psim/bighashmap.cc:204-206 | resize's loop picks a 2^k-1 count that is >= want or the cap, and is the smallest such |
| BigHashMap.CapacityReportsFlag | p2psim/bighashmap.cc:118-126 | dynamic resizing reads back as on exactly when it was set on |
| BigHashMap.HashMap.constructor | p2psim/bighashmap.cc:27-40 | an empty table with the given bucket count, dynamic resizing on, and count 0 |
| BigHashMap.HashMap.SetDynamicResizing | p2psim/bighashmap.cc:116-126 | the capacity is 0x7FFFFFFF when off, 0x7FFFFFFE at the maximum size, otherwise threshold*nbuckets; the contents stay |
| BigHashMap.HashMap.FindInChain | p2psim/bighashmap.cc:217-218 | the chain walk stops at the first element with the key |
| BigHashMap.HashMap.FindPair | p2psim/bighashmap.cc:146-170 | returns the stored pair or None; contents and count stay, only the key's bucket is reordered: on a hit it is the old chain with the key's first element moved to the front, on a miss it is unchanged |
| BigHashMap.HashMap.MoveUp | p2psim/bighashmap.cc:155-160 | moving the found element to the front of its chain changes only that bucket, and keeps the map valid with the same contents and count |
| BigHashMap.HashMap.Insert | p2psim/bighashmap.cc:212-236 | true exactly for a new key; the contents get the pair; a stored key keeps the array, bucket count, capacity and count and has its value replaced in place; a new key goes where NewKeyPlaced says and the count goes up by one |
| BigHashMap.HashMap.Overwrite | p2psim/bighashmap.cc:216-221 | the stored key's element gets the new value in place; only that bucket changes and the count, sizes and capacity stay |
| BigHashMap.HashMap.AddNew | p2psim/bighashmap.cc:223-234 | a full table first grows to resize's count for one more bucket; otherwise the sizes stay and the pair is prepended to its bucket; the pair heads its bucket and the count goes up by one |
| BigHashMap.HashMap.GrowAndPrepend | p2psim/bighashmap.cc:223-234 | on a full table: the bucket count becomes resize's pick for one more bucket, the capacity follows it when dynamic resizing was on, and the new pair heads its bucket with the count up by one |
| BigHashMap.HashMap.PrependNew | p2psim/bighashmap.cc:228-234 | the new pair becomes the head of its bucket's old chain; the array, sizes and capacity stay and the count goes up by one |
| BigHashMap.HashMap.Remove | p2psim/bighashmap.cc:238-261 | true exactly when the key was stored; the contents lose just that key and the count drops by one then |
| BigHashMap.HashMap.FindPairForce | p2psim/bighashmap.cc:263-284 | a stored key leaves the whole table unchanged and its pair is returned; otherwise the key is stored with the default as insert stores a new key, and the count goes up by one |
| BigHashMap.HashMap.ResizeTarget | p2psim/bighashmap.cc:204-206 | the loop computes the count Grow specifies |
| BigHashMap.HashMap.Resize | p2psim/bighashmap.cc:200-210 | the count becomes GrowSpec's choice; nothing changes when it equals the current one, and otherwise the capacity follows the new count when dynamic resizing was on |
| BigHashMap.HashMap.Resize0 | p2psim/bighashmap.cc:173-198 | every pair is kept in a fresh array of the new size, and the threshold is reset when dynamic resizing was on |
| BigHashMap.HashMap.Rehash | p2psim/bighashmap.cc:188-195 | after moving every old chain the new array represents the same map |
| BigHashMap.HashMap.MoveChain | p2psim/bighashmap.cc:189-195 | moving one chain adds exactly its pairs to the new array |
| BigHashMap.HashMap.Prepend | p2psim/bighashmap.cc:190-194 | one element goes to the front of its bucket in the new array, which then holds the moved pairs plus that element |
| BigHashMap.HashMap.Clear | p2psim/bighashmap.cc:286-301 | every bucket is empty and the count is 0; the bucket count and capacity stay |

## Left out

- Euclidean_RTT and the `rtts` accumulation in `iNode`: floating-point `hypot` over unsigned differences. The walk's hop choice does not depend on them.
- `display`, `display_all`, `dump`, `static_simulation` and all printed statistics: output only.
- `iNode::group_leader`, `set_Euclidean`, `num_of_pairs`: unused by the modelled operations.
- InnerChord.INode.FindSuccessor: the source's walk is unbounded. The model stops after HOP_BUDGET hops and reports failure (stated: the failing walk has made exactly HOP_BUDGET greedy hops), so an endless walk is not modelled. Insert, Lookup and Join report such a failure as LookupBudgetExhausted, which the source has no counterpart for.
- InnerChord.INode.RefreshFingerTables: the walk along the successors is bounded by HOP_BUDGET in the same way. When a rebuild fails, the tables of the visited nodes are stated to answer their targets except for `next`, the node whose rebuild failed, since a successor chain that loops short of the start may revisit a node.
- InnerChord.INode.Join: Spliced(false) after a failed rebuild of the new node's own table is not tied to that node's exhausted lookup, because the later refresh may rebuild the table again; only the refresh's own result is stated.
- InnerChord.KeysParse: join and leave assume every stored key parses with stoi. The source throws from `hash` otherwise, and that exception path is not modelled inside join.
- `HashMap::swap`: line 317 assigns `_n = o._capacity`, so swap is not claimed to be correct; it is not modelled.
- HashMap iterators, `copy_from`, `operator=`, the destructor and the arena. Allocation is assumed to succeed. MAX_NBUCKETS, DEFAULT_RESIZE_THRESHOLD and the initial bucket count are header constants that are not shown, so they are constructor parameters.
- BigHashMap.HashMap.FindPair: the function returns the pair by value, not the element's address.
- The `data_address` pointer of `IDMap` and the skip-list link of `idmapwrap`: pointers with no behaviour in the core.
- The skip list itself: only the meaning assumed above is modelled.
- `VNode::join` and `VNode::dump`: scheduling glue and output around the modelled operations.
- `Chord_vnodes::initstate` and `Chord_vnodes::stabilized`, the base-class calls: `stabilized`'s result is the parameter `baseOk`, and `initstate`'s own effects are not part of this model.
- LearnedDht.VNode.FixFingers: the `_recurs` choice between recursive and iterative lookups is one input, the lookup result. The `_fingerlets` argument and the statistics counters are dropped. The collaborators' assertions (`naked` non-null, `currf.ip != prevf.ip`, `gpr.dst.ip == currf.ip`) are not checked. The run's events are appended to the log at the end, not one at a time.
- LearnedDht.VNode.FixFingers: its own contract ties the checks to the lap/j enumeration and fixes how each check's events begin. The events that follow each check (the reply's additions, the deletion and lookup after a failed ping, the predecessor-based cover of a missing finger) are stated per check by LearnedDht.CheckFinger and LearnedDht.PingFinger but are not carried up into FixFingers' own ensures.
- LearnedDht.VNode.FixFingers: the source's `while(1)` also runs rounds with lap 0 forever. The model ends the rounds once the lap reaches 0 (see Findings).
- `_base` below 2: the lap loops divide by zero or never end, so the base is of type `Base` (>= 2).
- `failure_detect`, `doRPC`, `delaycb` and the scheduler: their results are inputs, and rescheduling is one logged event.
- The observers' `Instance` singleton, argument parsing (the oracle number is a parameter), `registerObserver`, the `oracle_node_joined`/`oracle_node_died` notifications and `n->initstate()` in `kick`: calls into other nodes.
- OracleObserver.Observer.constructor: `std::sort` is realised as sorted insertion. The result is stated as sorted and a permutation, not as a particular order among equal ids. The source passes `IDMap::cmp`, which is `a.id <= b.id` and so reflexive (ChordTypes.CmpIsTotalButNotStrict), not the strict weak ordering `std::sort` requires; the source's sort is therefore undefined behaviour, concretely when two nodes share an id, where its unguarded partition may run past the vector. The model sorts every input anyway, and OracleObserver.SortById states that model sort, not the source's. The constructor takes the network's nodes as (id, ip) pairs in iteration order.
- OracleObserver.Entries: `alivetime` and `IS_VNODE` of the constructor's entries are left as 0 and false, since the source leaves them uninitialised or at their default.
- OracleObserver.AddToList and OracleObserver.JoinList: `p->id` / `p->ip` when p is `end()` is undefined behaviour in the source. The model then appends n.
- OracleObserver.DelList: `erase(end())` is undefined behaviour in the source. The model leaves the list unchanged.
- OracleObserver.Observer.Kick: the asserted ip match of "crash" and the asserted oracle are preconditions.
- The event generator, the learned position estimators, the topology loader, the condition variable and the failure model: outside the modelled core.
- InnerChord.FingerTarget: updateFingerTable computes `id_ + pow(2, i)` in double and converts it back to uint64_t. The model adds exactly, which agrees only for ids below 2^53; above that the double sum rounds (id 2^53+1 with i = 3 gives (2^53+8) % 8 = 0, not 1), and past 2^64 the conversion is undefined.
- InnerChord.FingerTargetsCollapse: stated for the exact integer sum of FingerTarget, so for ids of 2^53 and above it does not describe the source's rounded targets.
- InnerChord.INode.UpdateFingerTable: each entry i is stated to be the stop rule's answer at some node `lasts[i-1]`, but that node is not tied to the greedy walk from this node, because each lookup runs while this node's own table is half rebuilt and the model keeps no snapshot of that intermediate table. The same gap is inherited by InnerChord.TableAnswers, which RefreshFingerTables, Rebuild, Join and Leave use for the rebuilt tables.
- InnerChord.INode.UpdateFingerTable: each entry i answers find_successor for FingerTarget's exact-sum target, so for ids of 2^53 and above the targets are not the source's rounded ones.
- ConsistentHash.BetweenCases: `between` is a collaborator whose body is not shown. The model assumes the strict open clockwise arc, with (lo, lo) empty. That choice decides fix_fingers' exit when the last successor is me itself, and the second finding depends on it.
- KeyMigration.SortedInsertContents: the skip list's insert is assumed to do nothing when the hash id is already present. Under that assumption migrate_data silently drops a moved pair whose hash id the new node already holds; MigrationConserves is stated only for new lists without the moved hash ids.
- BigHashMap.CapacityReportsFlag: `dynamic_resizing()` is not shown. The model assumes it reports on exactly when the capacity is below 0x7FFFFFFF, the value set_dynamic_resizing(false) stores, and Resize0's threshold reset depends on that.

## Findings

| source | as written | input that shows it | evidently intended | confidence | as-written member | corrected member |
|---|---|---|---|---|---|---|
| protocols/chordv.h:255-266 | migrate_data walks key_pairs in ascending hash order and stops at the first pair that is not closer to the new node (the same code is at protocols/chord_overlay.h:488-499) | this node has id 5 and holds hash ids 1 and 2^64-2; the new node has id 2^64-1. The pair at 2^64-2 is closer to the new node, but the walk stops at hash id 1 and moves nothing | every pair closer to the new node is handed over, including those past the top of the id space | not executed | KeyMigration.MigrateDataMissesWrappedKey | KeyMigration.ChordNode.MigrateCloser |
| protocols/learned_dht.C:84-91 | the finger loop is `while (1)`; apart from a death after a ping, it is left only when a target lies between me and the last successor | the last successor's id is me.id+1. With between as the strict open arc, no target lies in (me, me+1). Once the lap divides down to 0, every target is me itself, so the loop never ends | the rounds end when the lap is exhausted, and the migrate request follows | not executed | LearnedDht.AdjacentSuccessorNeverLeaves | LearnedDht.VNode.FixFingers |
