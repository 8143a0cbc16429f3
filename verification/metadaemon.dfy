/**
 * The metadata pipeline daemon: it takes a snapshot of the record store
 * (the most recent record of every (network, station) whose status still
 * needs work), pops records off that work list one at a time, sends each to
 * the conversion, merge or catalog-check stage its status calls for, and
 * writes the stage's outcome back to the store. When the list runs dry it
 * sleeps and takes a fresh snapshot.
 *
 * Subprocesses, the catalog web service, XML parsing and the SHA-256 digest
 * are collaborators: what they return enters as a `Reply`, and the digest as
 * an uninterpreted function `hash`.
 */
module MetaDaemon {
  import opened Wrappers
  import opened Strings

  // ---------------------------------------------------------------------
  // Data model
  // ---------------------------------------------------------------------

  /**
   * Metadata status. `Unchanged` is the stages' "no write" signal and never
   * stored; `Other` stands for any stored status value this daemon does not
   * work on.
   */
  datatype Status = Unchanged | Rejected | Pending | Converted | Merged | Completed | Other(code: int)

  /** The fields of a stored record that the snapshot's grouping projects. */
  datatype Record = Record(
    id: nat,
    network: string,
    station: string,
    created: int,
    status: Status,
    filepath: string,
    sha256: string)

  /** The grouping key of a record. */
  function Key(r: Record): (string, string)
  {
    (r.network, r.station)
  }

  /** The statuses the snapshot's `$match` keeps: the ones with work left. */
  predicate Active(s: Status)
  {
    s == Pending || s == Converted || s == Merged
  }

  /** No two stored records share an id (the store's primary key). */
  ghost predicate UniqueIds(store: seq<Record>)
  {
    forall i, j :: 0 <= i < j < |store| ==> store[i].id != store[j].id
  }

  // ---------------------------------------------------------------------
  // Snapshot: `$group` by (network, station) with `$last`, then `$match`
  // ---------------------------------------------------------------------

  /** `store[i]` is the last record of its key in store order. */
  ghost predicate IsLast(store: seq<Record>, i: int)
    requires 0 <= i < |store|
  {
    forall j :: i < j < |store| ==> Key(store[j]) != Key(store[i])
  }

  /** Some record of `store` has key `k`. */
  predicate HasKey(store: seq<Record>, k: (string, string))
  {
    exists j :: 0 <= j < |store| && Key(store[j]) == k
  }

  /**
   * The work list: for every key, the last record of that key in store order,
   * kept only when its status is active. The grouping happens first, so an
   * older active record behind a newer inactive one is not selected.
   * The list follows store order.
   */
  function Snapshot(store: seq<Record>): (q: seq<Record>)
    ensures |q| <= |store|
    ensures forall x :: x in q ==> x in store && Active(x.status)
    decreases |store|
  {
    if store == [] then []
    else
      (if !HasKey(store[1..], Key(store[0])) && Active(store[0].status) then [store[0]] else [])
      + Snapshot(store[1..])
  }

  /** Every snapshot record is the last record of its key and is active. */
  lemma {:induction false} SnapshotSound(store: seq<Record>)
    ensures forall x :: x in Snapshot(store) ==>
      Active(x.status) && exists i :: 0 <= i < |store| && store[i] == x && IsLast(store, i)
    decreases |store|
  {
    if store != [] {
      SnapshotSound(store[1..]);
      forall x | x in Snapshot(store)
        ensures Active(x.status) && exists i :: 0 <= i < |store| && store[i] == x && IsLast(store, i)
      {
        if x in Snapshot(store[1..]) {
          var i :| 0 <= i < |store[1..]| && store[1..][i] == x && IsLast(store[1..], i);
          assert store[i + 1] == x;
          assert IsLast(store, i + 1) by {
            forall j | i + 1 < j < |store| ensures Key(store[j]) != Key(store[i + 1]) {
              assert store[1..][j - 1] == store[j];
            }
          }
        } else {
          assert x == store[0];
          assert IsLast(store, 0) by {
            forall j | 0 < j < |store| ensures Key(store[j]) != Key(store[0]) {
              assert store[1..][j - 1] == store[j];
            }
          }
        }
      }
    }
  }

  /** Every active last-of-key record is in the snapshot. */
  lemma {:induction false} SnapshotComplete(store: seq<Record>, i: int)
    requires 0 <= i < |store| && IsLast(store, i) && Active(store[i].status)
    ensures store[i] in Snapshot(store)
    decreases |store|
  {
    if i == 0 {
      assert !HasKey(store[1..], Key(store[0])) by {
        forall j | 0 <= j < |store[1..]| ensures Key(store[1..][j]) != Key(store[0]) {
          assert store[1..][j] == store[j + 1];
        }
      }
    } else {
      assert IsLast(store[1..], i - 1) by {
        forall j | i - 1 < j < |store[1..]| ensures Key(store[1..][j]) != Key(store[1..][i - 1]) {
          assert store[1..][j] == store[j + 1];
        }
      }
      SnapshotComplete(store[1..], i - 1);
    }
  }

  /** Two last-of-key records with the same key are the same record. */
  lemma LastOfKeyUnique(store: seq<Record>, i: int, m: int)
    requires 0 <= i < |store| && 0 <= m < |store|
    requires IsLast(store, i) && IsLast(store, m) && Key(store[i]) == Key(store[m])
    ensures i == m
  {
  }

  /** The snapshot holds at most one record per (network, station). */
  lemma {:induction false} SnapshotOnePerKey(store: seq<Record>)
    ensures forall a, b :: 0 <= a < b < |Snapshot(store)| ==>
      Key(Snapshot(store)[a]) != Key(Snapshot(store)[b])
    decreases |store|
  {
    if store != [] {
      SnapshotOnePerKey(store[1..]);
      var tail := Snapshot(store[1..]);
      if !HasKey(store[1..], Key(store[0])) && Active(store[0].status) {
        SnapshotSound(store[1..]);
        forall b | 0 <= b < |tail| ensures Key(tail[b]) != Key(store[0]) {
          var x := tail[b];
          assert x in tail;
          var i :| 0 <= i < |store[1..]| && store[1..][i] == x && IsLast(store[1..], i);
        }
        assert Snapshot(store) == [store[0]] + tail;
      } else {
        assert Snapshot(store) == tail;
      }
    }
  }

  /**
   * Grouping runs before the status filter: when the last record of a key is
   * not active, no record of that key is in the snapshot, whatever the status
   * of the key's older records.
   */
  lemma InactiveLastHidesKey(store: seq<Record>, m: int)
    requires 0 <= m < |store| && IsLast(store, m) && !Active(store[m].status)
    ensures forall x :: x in Snapshot(store) ==> Key(x) != Key(store[m])
  {
    SnapshotSound(store);
    forall x | x in Snapshot(store) ensures Key(x) != Key(store[m]) {
      var i :| 0 <= i < |store| && store[i] == x && IsLast(store, i);
      if Key(x) == Key(store[m]) {
        LastOfKeyUnique(store, i, m);
        assert false;
      }
    }
  }

  /** With unique ids, the snapshot's records have pairwise distinct ids. */
  lemma SnapshotDistinctIds(store: seq<Record>)
    requires UniqueIds(store)
    ensures forall a, b :: 0 <= a < b < |Snapshot(store)| ==> Snapshot(store)[a].id != Snapshot(store)[b].id
  {
    var q := Snapshot(store);
    SnapshotSound(store);
    SnapshotOnePerKey(store);
    forall a, b | 0 <= a < b < |q| ensures q[a].id != q[b].id {
      assert q[a] in q && q[b] in q;
      var i :| 0 <= i < |store| && store[i] == q[a] && IsLast(store, i);
      var j :| 0 <= j < |store| && store[j] == q[b] && IsLast(store, j);
      assert i != j;
    }
  }

  // ---------------------------------------------------------------------
  // Dispatch and stage outcomes
  // ---------------------------------------------------------------------

  datatype Stage = Convert | Merge | Check

  /** The status a stage works on. */
  function Input(stage: Stage): Status
  {
    match stage
    case Convert => Pending
    case Merge => Converted
    case Check => Merged
  }

  /**
   * The dispatch switch. It has no default branch; its callers only hand it
   * snapshot records, whose status is active.
   */
  function Dispatch(s: Status): (stage: Stage)
    requires Active(s)
    ensures Input(stage) == s
  {
    match s
    case Pending => Convert
    case Converted => Merge
    case Merged => Check
  }

  /** The subprocess failure sentinel. */
  const E_CHILD_PROCESS := 1

  /**
   * Outcome of the conversion subprocess. `code` is the value passed to the
   * `close` event: an exit code, or `None` when the process ended on a signal.
   */
  function ConvertOutcome(code: Option<int>): (s: Status)
    ensures s == Rejected <==> code == Some(E_CHILD_PROCESS)
    ensures s != Rejected ==> s == Converted
  {
    if code == Some(E_CHILD_PROCESS) then Rejected else Converted
  }

  /** Outcome of the merge subprocess, with the same exit-code rule. */
  function MergeOutcome(code: Option<int>): (s: Status)
    ensures s == Rejected <==> code == Some(E_CHILD_PROCESS)
    ensures s != Rejected ==> s == Merged
  {
    if code == Some(E_CHILD_PROCESS) then Rejected else Merged
  }

  /**
   * Outcome of the catalog check. `element` is the serialised Network element
   * of the catalog's answer, `None` when the request returned no data;
   * `stored` is the record's fingerprint.
   */
  function CheckOutcome(element: Option<string>, stored: string, hash: string -> string): (s: Status)
    ensures s == Completed <==> element.Some? && hash(element.value) == stored
    ensures s != Completed ==> s == Unchanged
  {
    match element
    case None => Unchanged
    case Some(e) => if hash(e) == stored then Completed else Unchanged
  }

  /**
   * The check stage as written: the daemon binds `SHA256` to the whole crypto
   * module object, so calling it on any returned document throws a TypeError
   * and no outcome is delivered (`None`).
   */
  function CheckOutcomeAsWritten(element: Option<string>): (s: Option<Status>)
    ensures s.Some? <==> element.None?
    ensures s.Some? ==> s.value == Unchanged
  {
    match element
    case None => Some(Unchanged)
    case Some(_) => None
  }

  /** As written, no check ever completes a record; corrected, a match does. */
  lemma CheckAsWrittenNeverCompletes(element: Option<string>, stored: string, hash: string -> string)
    requires element.Some? && hash(element.value) == stored
    ensures CheckOutcomeAsWritten(element) != Some(Completed)
    ensures CheckOutcome(element, stored, hash) == Completed
  {
  }

  /**
   * The forward moves of the status machine: Pending to Converted, Converted
   * to Merged, Merged to Completed, and the two tool stages to Rejected.
   */
  predicate Transition(from: Status, to: Status)
  {
    || (from == Pending && (to == Converted || to == Rejected))
    || (from == Converted && (to == Merged || to == Rejected))
    || (from == Merged && to == Completed)
  }

  /** What the collaborators answered in one turn of the loop. */
  datatype Reply = Reply(
    exitCode: Option<int>,     // the subprocess' `close` code (convert, merge)
    element: Option<string>,   // the catalog's Network element (check)
    writeOk: bool,             // whether the store accepted the status write
    readOk: bool)              // whether the aggregation of a re-snapshot succeeded

  /**
   * The outcome a record's stage produces for a reply: either "no write" or
   * a forward move of the status machine. A check never rejects.
   */
  function Outcome(r: Record, reply: Reply, hash: string -> string): (o: Status)
    requires Active(r.status)
    ensures o == Unchanged || Transition(r.status, o)
    ensures r.status == Merged ==> o != Rejected
  {
    match Dispatch(r.status)
    case Convert => ConvertOutcome(reply.exitCode)
    case Merge => MergeOutcome(reply.exitCode)
    case Check => CheckOutcome(reply.element, r.sha256, hash)
  }

  // ---------------------------------------------------------------------
  // The status write
  // ---------------------------------------------------------------------

  /** `store[i]` is the first record whose id is `id`. */
  ghost predicate FirstWithId(store: seq<Record>, i: int, id: nat)
    requires 0 <= i < |store|
  {
    store[i].id == id && forall j :: 0 <= j < i ==> store[j].id != id
  }

  /**
   * `updateOne({_id: id}, {$set: {status: s}})`: the status of the first
   * record with that id becomes `s`; every other record, and every other
   * field, is left as it was. No matching record: nothing changes.
   */
  function SetStatus(store: seq<Record>, id: nat, s: Status): (r: seq<Record>)
    ensures |r| == |store|
    ensures forall i :: 0 <= i < |store| ==>
      r[i] == if FirstWithId(store, i, id) then store[i].(status := s) else store[i]
    decreases |store|
  {
    if store == [] then []
    else if store[0].id == id then [store[0].(status := s)] + store[1..]
    else [store[0]] + SetStatus(store[1..], id, s)
  }

  /** `metaDaemonCallback`: `Unchanged` and failed writes leave the store alone. */
  function Apply(store: seq<Record>, r: Record, outcome: Status, writeOk: bool): (s: seq<Record>)
    ensures SameButStatus(store, s)
    ensures forall i :: 0 <= i < |store| && s[i] != store[i] ==>
      s[i].id == r.id && s[i].status == outcome && outcome != Unchanged && writeOk
  {
    if outcome == Unchanged || !writeOk then store else SetStatus(store, r.id, outcome)
  }

  /** With unique ids, a write to a stored record's id touches that record only. */
  lemma SetStatusAt(store: seq<Record>, m: int, s: Status)
    requires UniqueIds(store) && 0 <= m < |store|
    ensures forall i :: 0 <= i < |store| ==>
      SetStatus(store, store[m].id, s)[i] == if i == m then store[m].(status := s) else store[i]
  {
    forall i | 0 <= i < |store|
      ensures FirstWithId(store, i, store[m].id) <==> i == m
    {
    }
  }

  /** The writes only ever change statuses: ids, keys and the rest stay put. */
  ghost predicate SameButStatus(a: seq<Record>, b: seq<Record>)
  {
    |a| == |b| && forall i :: 0 <= i < |a| ==> b[i] == a[i].(status := b[i].status)
  }

  /** After a terminal write, the record's key drops out of the next snapshot. */
  lemma TerminalLeavesSnapshot(store: seq<Record>, m: int, t: Status)
    requires UniqueIds(store) && 0 <= m < |store| && IsLast(store, m)
    requires t == Rejected || t == Completed
    ensures forall x :: x in Snapshot(SetStatus(store, store[m].id, t)) ==> Key(x) != Key(store[m])
  {
    var after := SetStatus(store, store[m].id, t);
    SetStatusAt(store, m, t);
    assert IsLast(after, m) by {
      forall j | m < j < |after| ensures Key(after[j]) != Key(after[m]) {
        assert Key(after[j]) == Key(store[j]);
      }
    }
    InactiveLastHidesKey(after, m);
  }

  /** An `Unchanged` outcome writes nothing, so the record stays in the next snapshot. */
  lemma UnchangedStaysQueued(store: seq<Record>, r: Record, writeOk: bool, i: int)
    requires 0 <= i < |store| && store[i] == r && IsLast(store, i) && Active(r.status)
    ensures Apply(store, r, Unchanged, writeOk) == store
    ensures r in Snapshot(Apply(store, r, Unchanged, writeOk))
  {
    SnapshotComplete(store, i);
  }

  // ---------------------------------------------------------------------
  // One pass over the work list
  // ---------------------------------------------------------------------

  /** All queued records have a status the dispatch switch handles. */
  ghost predicate AllActive(queue: seq<Record>)
  {
    forall k :: 0 <= k < |queue| ==> Active(queue[k].status)
  }

  /**
   * The store after working off `queue` from its end, the `k`-th popped
   * record getting reply `replies[k]`.
   */
  function Drain(store: seq<Record>, queue: seq<Record>, replies: seq<Reply>, hash: string -> string): (after: seq<Record>)
    requires AllActive(queue) && |replies| >= |queue|
    ensures |after| == |store|
    decreases |queue|
  {
    if queue == [] then store
    else
      var r := queue[|queue| - 1];
      Drain(Apply(store, r, Outcome(r, replies[0], hash), replies[0].writeOk),
            queue[..|queue| - 1], replies[1..], hash)
  }

  /** A pass changes statuses only. */
  lemma {:induction false} DrainSameButStatus(store: seq<Record>, queue: seq<Record>, replies: seq<Reply>, hash: string -> string)
    requires AllActive(queue) && |replies| >= |queue|
    ensures SameButStatus(store, Drain(store, queue, replies, hash))
    decreases |queue|
  {
    if queue != [] {
      var r := queue[|queue| - 1];
      var next := Apply(store, r, Outcome(r, replies[0], hash), replies[0].writeOk);
      DrainSameButStatus(next, queue[..|queue| - 1], replies[1..], hash);
    }
  }

  /** With unique ids, applying an outcome to a stored record touches that record only. */
  lemma ApplyLandsOn(store: seq<Record>, m: int, o: Status, writeOk: bool)
    requires UniqueIds(store) && 0 <= m < |store|
    ensures var next := Apply(store, store[m], o, writeOk);
      && |next| == |store| && UniqueIds(next)
      && forall i :: 0 <= i < |store| ==>
           next[i] == if i == m && o != Unchanged && writeOk then store[m].(status := o) else store[i]
  {
    if o != Unchanged && writeOk {
      SetStatusAt(store, m, o);
    }
  }

  /**
   * In one pass over a queue of stored records with distinct ids, every stored
   * record either keeps its status or takes one forward step of the status
   * machine, and only queued records move.
   */
  lemma {:induction false} DrainAdvances(store: seq<Record>, queue: seq<Record>, replies: seq<Reply>, hash: string -> string)
    requires AllActive(queue) && |replies| >= |queue|
    requires UniqueIds(store)
    requires forall a, b :: 0 <= a < b < |queue| ==> queue[a].id != queue[b].id
    requires forall k :: 0 <= k < |queue| ==> queue[k] in store
    ensures forall i :: 0 <= i < |store| ==>
      var after := Drain(store, queue, replies, hash)[i];
      after == store[i] || (store[i] in queue && Transition(store[i].status, after.status))
    decreases |queue|
  {
    if queue != [] {
      var n := |queue| - 1;
      var r := queue[n];
      var o := Outcome(r, replies[0], hash);
      var next := Apply(store, r, o, replies[0].writeOk);
      var rest := queue[..n];
      assert r in store;
      var m :| 0 <= m < |store| && store[m] == r;
      ApplyLandsOn(store, m, o, replies[0].writeOk);
      var written := o != Unchanged && replies[0].writeOk;
      forall k | 0 <= k < |rest| ensures rest[k] in next && rest[k].id != r.id {
        assert rest[k] == queue[k] && queue[k] in store;
        assert queue[k].id != queue[n].id;
        var j :| 0 <= j < |store| && store[j] == rest[k];
        assert next[j] == store[j];
      }
      DrainAdvances(next, rest, replies[1..], hash);
      StepAdvances(store, queue, m, o, written, next, Drain(next, rest, replies[1..], hash));
    }
  }

  /**
   * One step of the pass: the popped record `store[m]` moves to `o` when the
   * write happens, and the rest of the pass only advances records still queued.
   */
  lemma StepAdvances(store: seq<Record>, queue: seq<Record>, m: int, o: Status, written: bool,
                     next: seq<Record>, final: seq<Record>)
    requires queue != [] && 0 <= m < |store| && store[m] == queue[|queue| - 1]
    requires written ==> Transition(store[m].status, o)
    requires |next| == |store| == |final|
    requires forall i :: 0 <= i < |store| ==>
      next[i] == if i == m && written then store[m].(status := o) else store[i]
    requires forall k :: 0 <= k < |queue| - 1 ==> queue[k].id != store[m].id
    requires forall i :: 0 <= i < |next| ==>
      final[i] == next[i] || (next[i] in queue[..|queue| - 1] && Transition(next[i].status, final[i].status))
    ensures forall i :: 0 <= i < |store| ==>
      final[i] == store[i] || (store[i] in queue && Transition(store[i].status, final[i].status))
  {
    var rest := queue[..|queue| - 1];
    forall i | 0 <= i < |store|
      ensures final[i] == store[i] || (store[i] in queue && Transition(store[i].status, final[i].status))
    {
      if i == m && written {
        assert next[m] !in rest;
        assert store[m] in queue;
      } else if final[i] != store[i] {
        var k :| 0 <= k < |rest| && rest[k] == store[i];
        assert queue[k] == store[i];
      }
    }
  }

  /**
   * Working off a whole snapshot moves every stored record at most one step
   * forward: statuses never go back, and terminal statuses are never left.
   */
  lemma CycleAdvances(store: seq<Record>, replies: seq<Reply>, hash: string -> string)
    requires UniqueIds(store) && |replies| >= |Snapshot(store)|
    ensures AllActive(Snapshot(store))
    ensures SameButStatus(store, Drain(store, Snapshot(store), replies, hash))
    ensures forall i :: 0 <= i < |store| ==>
      var after := Drain(store, Snapshot(store), replies, hash)[i];
      after == store[i] || Transition(store[i].status, after.status)
  {
    var q := Snapshot(store);
    SnapshotSound(store);
    SnapshotAllActive(store);
    SnapshotDistinctIds(store);
    forall k | 0 <= k < |q| ensures q[k] in store {
      assert q[k] in q;
    }
    DrainSameButStatus(store, q, replies, hash);
    DrainAdvances(store, q, replies, hash);
  }

  // ---------------------------------------------------------------------
  // Starting a cycle
  // ---------------------------------------------------------------------

  /** Every snapshot record has a status the dispatch switch handles. */
  lemma SnapshotAllActive(store: seq<Record>)
    ensures AllActive(Snapshot(store))
  {
    var q := Snapshot(store);
    SnapshotSound(store);
    forall k | 0 <= k < |q| ensures Active(q[k].status) { assert q[k] in q; }
  }

  /**
   * The work list `metaDaemonInit` hands the loop when the aggregation
   * succeeds or fails. As written, a failed read leaves `results` undefined
   * and logging its length throws before the `error ||` test is reached: the
   * loop never starts again (`None`).
   */
  function WorkListAsWritten(store: seq<Record>, readOk: bool): (q: Option<seq<Record>>)
    ensures q.Some? <==> readOk
    ensures q.Some? ==> q.value == Snapshot(store)
  {
    if readOk then Some(Snapshot(store)) else None
  }

  /**
   * The intended work list: the snapshot, or nothing when the read fails,
   * so that the next turn takes the sleep branch and retries.
   */
  function WorkList(store: seq<Record>, readOk: bool): (q: seq<Record>)
    ensures AllActive(q)
    ensures readOk ==> q == Snapshot(store)
    ensures !readOk ==> q == []
  {
    SnapshotAllActive(store);
    if readOk then Snapshot(store) else []
  }

  /** A failed read stops the daemon as written; intended, it sleeps and retries. */
  lemma ReadErrorStopsAsWritten(store: seq<Record>)
    ensures WorkListAsWritten(store, false).None?
    ensures WorkList(store, false) == []
    ensures WorkListAsWritten(store, true) == Some(WorkList(store, true))
  {
  }

  // ---------------------------------------------------------------------
  // The driver
  // ---------------------------------------------------------------------

  /** What one turn of the loop did. */
  datatype Event = Slept | Ran(record: Record, stage: Stage, outcome: Status)

  /**
   * The daemon's state: the record store it writes to, and the work list
   * taken from the last snapshot. One record is in flight at a time.
   */
  class Driver {
    var store: seq<Record>
    var queue: seq<Record>
    const hash: string -> string

    /** Every queued record has a status the dispatch switch handles. */
    ghost predicate Valid()
      reads this
    {
      AllActive(queue)
    }

    /** Connect and start: the first snapshot is taken at once. */
    constructor (initial: seq<Record>, hash: string -> string, readOk: bool)
      ensures Valid()
      ensures store == initial && queue == WorkList(initial, readOk) && this.hash == hash
    {
      store := initial;
      queue := WorkList(initial, readOk);
      this.hash := hash;
    }

    /** `metaDaemonInit`: replace the work list by a fresh snapshot. */
    method Initialize(readOk: bool)
      modifies this
      ensures Valid()
      ensures queue == WorkList(store, readOk) && store == old(store)
    {
      queue := WorkList(store, readOk);
    }

    /**
     * One turn of the loop. An empty work list sends the daemon to sleep and
     * then to a fresh snapshot. Otherwise the last record is popped, its stage
     * runs with the given reply, and the outcome is written back.
     */
    method Step(reply: Reply) returns (event: Event)
      requires Valid()
      modifies this
      ensures Valid()
      ensures old(queue) == [] ==> event == Slept && store == old(store) && queue == WorkList(store, reply.readOk)
      ensures old(queue) != [] ==>
        var r := old(queue)[|old(queue)| - 1];
        var o := Outcome(r, reply, hash);
        && event == Ran(r, Dispatch(r.status), o)
        && queue == old(queue)[..|old(queue)| - 1]
        && store == Apply(old(store), r, o, reply.writeOk)
    {
      if queue == [] {
        Initialize(reply.readOk);
        return Slept;
      }
      var r := queue[|queue| - 1];
      queue := queue[..|queue| - 1];
      var stage := Dispatch(r.status);
      var outcome;
      match stage {
        case Convert => outcome := ConvertOutcome(reply.exitCode);
        case Merge => outcome := MergeOutcome(reply.exitCode);
        case Check => outcome := CheckOutcome(reply.element, r.sha256, hash);
      }
      if outcome != Unchanged && reply.writeOk {
        store := SetStatus(store, r.id, outcome);
      }
      event := Ran(r, stage, outcome);
    }

    /**
     * Works off the whole work list, one record per reply, and stops where the
     * loop would go to sleep: after exactly as many turns as the list had
     * records.
     */
    method RunCycle(replies: seq<Reply>) returns (turns: nat)
      requires Valid() && |replies| >= |queue|
      modifies this
      ensures Valid()
      ensures queue == [] && turns == |old(queue)|
      ensures store == Drain(old(store), old(queue), replies, hash)
    {
      turns := 0;
      while queue != []
        invariant Valid()
        invariant turns + |queue| == |old(queue)|
        invariant |replies| >= |old(queue)|
        invariant Drain(store, queue, replies[turns..], hash) == Drain(old(store), old(queue), replies, hash)
        decreases |queue|
      {
        ghost var before := store;
        ghost var pending := queue;
        var event := Step(replies[turns]);
        assert replies[turns..][1..] == replies[turns + 1..];
        assert Drain(before, pending, replies[turns..], hash) == Drain(store, queue, replies[turns + 1..], hash);
        turns := turns + 1;
      }
    }
  }

  // ---------------------------------------------------------------------
  // Stage commands, prototype path, catalog query, status names
  // ---------------------------------------------------------------------

  /** The merge target of a network: `prototypes/<network>.sc3ml`. */
  function Prototype(network: string): (p: string)
    ensures |p| == |network| + 17
    ensures p[..11] == "prototypes/" && p[11..|p| - 6] == network && p[|p| - 6..] == ".sc3ml"
  {
    "prototypes/" + network + ".sc3ml"
  }

  /** Distinct networks have distinct prototype files. */
  lemma PrototypeInjective(a: string, b: string)
    requires Prototype(a) == Prototype(b)
    ensures a == b
  {
    assert a == Prototype(a)[11..|Prototype(a)| - 6];
  }

  /** Arguments of the conversion subprocess. */
  function ConvertArgs(r: Record): (args: seq<string>)
    ensures |args| == 5 && args[0] == "exec"
    ensures |args[2]| == |r.filepath| + 11 && args[2][..|r.filepath|] == r.filepath
    ensures |args[4]| == |r.filepath| + 6 && args[4][..|r.filepath|] == r.filepath
    ensures args[2] != args[4]
  {
    ["exec", "fdsnxml2inv", r.filepath + ".stationXML", "-f", r.filepath + ".sc3ml"]
  }

  /** Arguments of the merge subprocess. */
  function MergeArgs(r: Record): (args: seq<string>)
    ensures |args| == 5 && args[0] == "exec"
    ensures |args[3]| == |r.network| + 17 && args[3][11..|args[3]| - 6] == r.network
    ensures |args[4]| == |r.filepath| + 6 && args[4][..|r.filepath|] == r.filepath
  {
    ["exec", "scinv", "merge", Prototype(r.network), r.filepath + ".sc3ml"]
  }

  /**
   * The merge reads the file the conversion wrote, into the prototype of the
   * record's own network; conversion reads the submitted StationXML file.
   */
  lemma MergeReadsConvertOutput(r: Record)
    ensures |ConvertArgs(r)| == 5 && |MergeArgs(r)| == 5
    ensures MergeArgs(r)[4] == ConvertArgs(r)[4]
    ensures MergeArgs(r)[3][11..|MergeArgs(r)[3]| - 6] == r.network
    ensures ConvertArgs(r)[2] != ConvertArgs(r)[4]
  {
    assert |ConvertArgs(r)[2]| != |ConvertArgs(r)[4]|;
  }

  /** The query string of the catalog request for a record. */
  function CheckQuery(r: Record): (q: string)
    ensures |q| >= |r.network| + 9 && q[0] == '?'
    ensures q[1..|r.network| + 9] == "network=" + r.network
  {
    "?" + Join(["network=" + r.network, "station=" + r.station, "level=response"], "&")
  }

  /** `getStatusInfo`: the log name of a status code. */
  function StatusInfo(code: int): (name: string)
    ensures name != "METADATA_STATUS_UNKNOWN" <==> -1 <= code <= 4
  {
    match code
    case -1 => "METADATA_STATUS_UNCHANGED"
    case 0 => "METADATA_STATUS_REJECTED"
    case 1 => "METADATA_STATUS_PENDING"
    case 2 => "METADATA_STATUS_CONVERTED"
    case 3 => "METADATA_STATUS_MERGED"
    case 4 => "METADATA_STATUS_COMPLETED"
    case _ => "METADATA_STATUS_UNKNOWN"
  }

  /** Distinct known codes have distinct names. */
  lemma StatusInfoInjective(a: int, b: int)
    requires -1 <= a <= 4 && -1 <= b <= 4 && StatusInfo(a) == StatusInfo(b)
    ensures a == b
  {
  }

  // ---------------------------------------------------------------------
  // End-to-end runs
  // ---------------------------------------------------------------------

  /**
   * A PENDING submission whose conversion and merge exit 0 and whose catalog
   * copy hashes to its fingerprint is COMPLETED after three passes; one whose
   * conversion exits 1 is REJECTED and leaves the work list for good.
   */
  lemma EndToEnd(r: Record, element: string, hash: string -> string)
    requires r.status == Pending && hash(element) == r.sha256
    ensures Snapshot([r]) == [r]
    ensures var ok := Reply(Some(0), None, true, true);
      var c := r.(status := Converted);
      var m := r.(status := Merged);
      && Drain([r], [r], [ok], hash) == [c] && Snapshot([c]) == [c]
      && Drain([c], [c], [ok], hash) == [m] && Snapshot([m]) == [m]
      && Drain([m], [m], [Reply(None, Some(element), true, true)], hash) == [r.(status := Completed)]
      && Snapshot([r.(status := Completed)]) == []
    ensures Drain([r], [r], [Reply(Some(1), None, true, true)], hash) == [r.(status := Rejected)]
    ensures Snapshot([r.(status := Rejected)]) == []
  {
    var ok := Reply(Some(0), None, true, true);
    SnapshotOne(r);
    StepOne(r, ok, hash, Converted);
    StepOne(r.(status := Converted), ok, hash, Merged);
    StepOne(r.(status := Merged), Reply(None, Some(element), true, true), hash, Completed);
    StepOne(r, Reply(Some(1), None, true, true), hash, Rejected);
  }

  /** One record whose reply moves it to `t`: the write lands, and the next snapshot follows it. */
  lemma StepOne(x: Record, reply: Reply, hash: string -> string, t: Status)
    requires Active(x.status) && reply.writeOk && Outcome(x, reply, hash) == t && t != Unchanged
    ensures Drain([x], [x], [reply], hash) == [x.(status := t)]
    ensures Snapshot([x.(status := t)]) == if Active(t) then [x.(status := t)] else []
  {
    DrainOne(x, reply, hash);
    SnapshotOne(x.(status := t));
  }

  /** A one-record store is its own snapshot exactly when the record is active. */
  lemma SnapshotOne(x: Record)
    ensures Snapshot([x]) == if Active(x.status) then [x] else []
  {
    assert [x][1..] == [];
  }

  /** Working off a one-record store and queue writes that record's outcome. */
  lemma DrainOne(x: Record, reply: Reply, hash: string -> string)
    requires Active(x.status)
    ensures var o := Outcome(x, reply, hash);
      Drain([x], [x], [reply], hash) == if o == Unchanged || !reply.writeOk then [x] else [x.(status := o)]
  {
    var o := Outcome(x, reply, hash);
    assert Drain([x], [x], [reply], hash) == Drain(Apply([x], x, o, reply.writeOk), [], [reply][1..], hash);
  }
}
