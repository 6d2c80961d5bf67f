/** How long a key must live (backend/raft.go, backend/raft_crypto.go, backend/link_snapshot_store.go): log entries are
    appended, cut off at the end, compacted at the front; snapshots are taken and reaped; every snapshot first rotates
    the key and collects the keys that nothing needs any more.

    The log is a contiguous range of indices. Storage does not fail. Reading the last index and rotating is one step. */
module KeyLifetime {
  import opened Wrappers
  import opened KeyRing

  const MAX_UINT64: nat := 0xFFFF_FFFF_FFFF_FFFF

  datatype Snapshot = Snapshot(index: nat, key: Key)

  /** The names hashicorp/raft uses in the stable store. */
  datatype Name = CurrentTerm | LastVoteCand | LastVoteTerm

  /** `ring` is newest first; `first` is the index of `entries[0]`; `applied` is the highest index ever applied;
      `pending` is the index of a snapshot that has rotated the key and is not written yet. */
  datatype Node = Node(ring: seq<Key>, first: nat, entries: seq<Stored>, applied: nat,
                       snapshots: seq<Snapshot>, pending: Option<nat>, stable: map<Name, Stored>)

  function FirstIndex(n: Node): nat {
    if n.entries == [] then 0 else n.first
  }

  function LastIndex(n: Node): nat {
    if n.entries == [] then 0 else n.first + |n.entries| - 1
  }

  // ---- Garbage collection ----

  function LeastSnapshot(snapshots: seq<Snapshot>, bound: nat): nat {
    if snapshots == [] then bound
    else LeastSnapshot(snapshots[..|snapshots| - 1],
                       if snapshots[|snapshots| - 1].index < bound then snapshots[|snapshots| - 1].index else bound)
  }

  /** The oldest index that must stay readable. */
  function MinNeeded(firstIndex: nat, snapshots: seq<Snapshot>): nat {
    LeastSnapshot(snapshots, (if firstIndex == 0 then MAX_UINT64 else firstIndex) - 1)
  }

  /** The ring down to the newest key made at or before `minNeeded`; all of it if there is none. */
  function Cut(ring: seq<Key>, minNeeded: nat): seq<Key> {
    if ring == [] then []
    else if ring[0].index <= minNeeded then [ring[0]]
    else [ring[0]] + Cut(ring[1..], minNeeded)
  }

  /** Stable values that can be opened are sealed again with the active key. */
  function Resealed(ring: seq<Key>, stable: map<Name, Stored>): map<Name, Stored>
    requires ring != []
  {
    map name | name in stable ::
      if Opened(ring, stable[name]).Some? then Sealed(ring[0], stable[name].text) else stable[name]
  }

  function Collected(n: Node): Node
    requires n.ring != []
  {
    n.(ring := Cut(n.ring, MinNeeded(FirstIndex(n), n.snapshots)), stable := Resealed(n.ring, n.stable))
  }

  function Rotated(n: Node, stamp: nat): Node {
    Collected(n.(ring := [Key(LastIndex(n), stamp)] + n.ring))
  }

  // ---- Steps ----

  datatype Step =
    | Append(data: Option<nat>)
    | Truncate(last: nat)
    | Compact(first: nat)
    | Apply
    | BeginSnapshot(stamp: nat)
    | FinishSnapshot
    | AbandonSnapshot
    | Reap(from: nat)
    | SetStable(name: Name, text: nat)
    | Restart

  /** When a step can happen. Applied entries are never cut off, compaction leaves an entry, no key is made twice, and
      the log goes past every listed snapshot before the next one is taken. */
  predicate Enabled(n: Node, step: Step) {
    match step
    case Append(_) => true
    case Truncate(last) => n.entries != [] && n.first <= last <= LastIndex(n) && n.applied <= last
    case Compact(first) => n.entries != [] && n.first <= first <= LastIndex(n)
    case Apply => n.applied < LastIndex(n)
    case BeginSnapshot(stamp) =>
      && n.pending.None? && 0 < n.applied && Key(LastIndex(n), stamp) !in n.ring
      && (forall s :: s in n.snapshots ==> s.index < LastIndex(n))
    case FinishSnapshot => n.pending.Some?
    case AbandonSnapshot => n.pending.Some?
    case Reap(from) => from <= |n.snapshots|
    case SetStable(_, _) => true
    case Restart => n.ring != []
  }

  function Next(n: Node, step: Step): Node
    requires n.ring != [] && Enabled(n, step)
  {
    match step
    case Append(data) =>
      n.(entries := n.entries + [if data.Some? then Sealed(n.ring[0], data.value) else Empty])
    case Truncate(last) => n.(entries := n.entries[..last - n.first + 1])
    case Compact(first) => n.(first := first, entries := n.entries[first - n.first..])
    case Apply => n.(applied := n.applied + 1)
    case BeginSnapshot(stamp) => Rotated(n, stamp).(pending := Some(n.applied))
    case FinishSnapshot => n.(snapshots := n.snapshots + [Snapshot(n.pending.value, n.ring[0])], pending := None)
    case AbandonSnapshot => n.(pending := None)
    case Reap(from) => n.(snapshots := n.snapshots[from..])
    case SetStable(name, text) => n.(stable := n.stable[name := Sealed(n.ring[0], text)])
    case Restart => n.(ring := Reloaded(n.ring), pending := None)
  }

  // ---- Reloading the ring from its files ----

  /** File names sort by index, then by stamp. */
  predicate Newer(a: Key, b: Key) {
    a.index > b.index || (a.index == b.index && a.stamp > b.stamp)
  }

  predicate NewestFirst(ring: seq<Key>) {
    forall i, j :: 0 <= i < j < |ring| ==> Newer(ring[i], ring[j])
  }

  function Inserted(key: Key, ring: seq<Key>): seq<Key> {
    if ring == [] || Newer(key, ring[0]) then [key] + ring else [ring[0]] + Inserted(key, ring[1..])
  }

  function Reloaded(ring: seq<Key>): seq<Key> {
    if ring == [] then [] else Inserted(ring[0], Reloaded(ring[1..]))
  }

  /** The ring is in the order its keys were made. */
  predicate InOrderMade(ring: seq<Key>) {
    forall i, j :: 0 <= i < j < |ring| ==> ring[i].stamp > ring[j].stamp
  }

  // ---- Safety ----

  predicate Distinct(ring: seq<Key>) {
    forall i, j :: 0 <= i < j < |ring| ==> ring[i] != ring[j]
  }

  /** Nothing stored has lost its key. */
  predicate Readable(n: Node) {
    && (forall i :: 0 <= i < |n.entries| && n.entries[i].Sealed? ==> n.entries[i].key in n.ring)
    && (forall s :: s in n.snapshots ==> s.key in n.ring)
    && (forall name :: name in n.stable && n.stable[name].Sealed? ==> n.stable[name].key in n.ring)
  }

  /** The key is in the ring, and every key in front of it was made at `low` or later. */
  predicate Shielded(ring: seq<Key>, key: Key, low: nat) {
    ring != [] && (ring[0] == key || (low <= ring[0].index && Shielded(ring[1..], key, low)))
  }

  /** A collection down to `minNeeded` spares exactly the keys shielded from it. */
  lemma {:induction false} CutKeepsIff(ring: seq<Key>, minNeeded: nat, key: Key)
    ensures key in Cut(ring, minNeeded) <==> Shielded(ring, key, minNeeded + 1)
    decreases |ring|
  {
    if ring != [] {
      CutKeepsIff(ring[1..], minNeeded, key);
    }
  }

  lemma {:induction false} CutStaysShielded(ring: seq<Key>, minNeeded: nat, key: Key, low: nat)
    requires Shielded(ring, key, low) && minNeeded < low
    ensures Shielded(Cut(ring, minNeeded), key, low)
    decreases |ring|
  {
    if ring[0] != key {
      CutStaysShielded(ring[1..], minNeeded, key, low);
      assert ([ring[0]] + Cut(ring[1..], minNeeded))[1..] == Cut(ring[1..], minNeeded);
    }
  }

  lemma {:induction false} ShieldedIsInRing(ring: seq<Key>, key: Key, low: nat)
    requires Shielded(ring, key, low)
    ensures key in ring
    decreases |ring|
  {
    if ring[0] != key {
      ShieldedIsInRing(ring[1..], key, low);
    }
  }

  /** Keys in front of an entry's key were made at the entry or later, keys in front of a snapshot's key after it. */
  ghost predicate Covered(n: Node) {
    && (forall i :: 0 <= i < |n.entries| && n.entries[i].Sealed? ==> Shielded(n.ring, n.entries[i].key, n.first + i))
    && (forall s :: s in n.snapshots ==> Shielded(n.ring, s.key, s.index + 1))
    && (forall name :: name in n.stable && n.stable[name].Sealed? ==> n.stable[name].key in n.ring)
  }

  /** Snapshots are listed oldest first, none of them ahead of what was applied. */
  predicate SnapshotsInOrder(n: Node) {
    && (forall q :: 0 <= q < |n.snapshots| ==> 0 < n.snapshots[q].index <= n.applied)
    && (forall p, q :: 0 <= p < q < |n.snapshots| ==> n.snapshots[p].index <= n.snapshots[q].index)
    && (n.pending.Some? ==> 0 < n.pending.value <= n.applied)
    && (n.pending.Some? ==> forall q :: 0 <= q < |n.snapshots| ==> n.snapshots[q].index <= n.pending.value)
  }

  ghost predicate WellFormed(n: Node) {
    n.ring != [] && Distinct(n.ring) && 1 <= n.first && n.applied <= LastIndex(n) && SnapshotsInOrder(n)
  }

  ghost predicate Safe(n: Node) {
    WellFormed(n) && Covered(n)
  }

  lemma CoveredIsReadable(n: Node)
    requires Covered(n)
    ensures Readable(n)
  {
    forall i | 0 <= i < |n.entries| && n.entries[i].Sealed?
      ensures n.entries[i].key in n.ring
    {
      ShieldedIsInRing(n.ring, n.entries[i].key, n.first + i);
    }
    forall s | s in n.snapshots
      ensures s.key in n.ring
    {
      ShieldedIsInRing(n.ring, s.key, s.index + 1);
    }
  }

  /** A new node: one key made at index 0, nothing stored. */
  function NewNode(stamp: nat): Node {
    Node([Key(0, stamp)], 1, [], 0, [], None, map[])
  }

  lemma {:induction false} LeastSnapshotIsLeast(snapshots: seq<Snapshot>, bound: nat)
    ensures LeastSnapshot(snapshots, bound) <= bound
    ensures forall s :: s in snapshots ==> LeastSnapshot(snapshots, bound) <= s.index
    decreases |snapshots|
  {
    if snapshots != [] {
      var n := |snapshots| - 1;
      assert snapshots == snapshots[..n] + [snapshots[n]];
      LeastSnapshotIsLeast(snapshots[..n], if snapshots[n].index < bound then snapshots[n].index else bound);
    }
  }

  lemma {:induction false} LeastSnapshotIsAtLeast(snapshots: seq<Snapshot>, bound: nat, low: nat)
    requires low <= bound && forall q :: 0 <= q < |snapshots| ==> low <= snapshots[q].index
    ensures low <= LeastSnapshot(snapshots, bound)
    decreases |snapshots|
  {
    if snapshots != [] {
      var n := |snapshots| - 1;
      LeastSnapshotIsAtLeast(snapshots[..n], if snapshots[n].index < bound then snapshots[n].index else bound, low);
    }
  }

  lemma {:induction false} CutIsPrefix(ring: seq<Key>, minNeeded: nat)
    ensures Cut(ring, minNeeded) <= ring && (ring != [] ==> Cut(ring, minNeeded) != [] && Cut(ring, minNeeded)[0] == ring[0])
    decreases |ring|
  {
    if ring != [] {
      CutIsPrefix(ring[1..], minNeeded);
    }
  }

  /** Nothing stored is older than the horizon. */
  lemma HorizonIsBelow(n: Node)
    requires 1 <= n.first
    ensures n.entries != [] ==> MinNeeded(FirstIndex(n), n.snapshots) < n.first
    ensures forall s :: s in n.snapshots ==> MinNeeded(FirstIndex(n), n.snapshots) <= s.index
  {
    LeastSnapshotIsLeast(n.snapshots, (if FirstIndex(n) == 0 then MAX_UINT64 else FirstIndex(n)) - 1);
  }

  lemma CollectedIsSafe(n: Node)
    requires Safe(n)
    ensures Safe(Collected(n))
  {
    hide Cut, MinNeeded;
    var next, minNeeded := Collected(n), MinNeeded(FirstIndex(n), n.snapshots);
    CutIsPrefix(n.ring, minNeeded);
    HorizonIsBelow(n);
    forall i | 0 <= i < |n.entries| && n.entries[i].Sealed?
      ensures Shielded(next.ring, n.entries[i].key, n.first + i)
    {
      CutStaysShielded(n.ring, minNeeded, n.entries[i].key, n.first + i);
    }
    forall s | s in n.snapshots
      ensures Shielded(next.ring, s.key, s.index + 1)
    {
      CutStaysShielded(n.ring, minNeeded, s.key, s.index + 1);
    }
    assert next.ring[0] in next.ring;
  }

  lemma CollectedIsReadable(n: Node)
    requires Safe(n)
    ensures Readable(Collected(n))
  {
    CollectedIsSafe(n);
    CoveredIsReadable(Collected(n));
  }

  /** A new key at the last index leaves everything covered exactly if every snapshot is older than the last entry. */
  lemma RotationStaysCoveredIff(n: Node, key: Key)
    requires Safe(n) && key.index == LastIndex(n) && key !in n.ring
    ensures Covered(n.(ring := [key] + n.ring)) <==> forall s :: s in n.snapshots ==> s.index < LastIndex(n)
  {
    var next := n.(ring := [key] + n.ring);
    assert next.ring[0] == key && next.ring[1..] == n.ring;
    CoveredIsReadable(n);
    forall i | 0 <= i < |n.entries| && n.entries[i].Sealed?
      ensures Shielded(next.ring, n.entries[i].key, n.first + i)
    {
    }
    forall s | s in n.snapshots
      ensures Shielded(next.ring, s.key, s.index + 1) <==> s.index < LastIndex(n)
    {
    }
  }

  lemma AppendIsSafe(n: Node, data: Option<nat>)
    requires Safe(n)
    ensures Safe(Next(n, Append(data)))
  {
  }

  lemma TruncateIsSafe(n: Node, last: nat)
    requires Safe(n) && Enabled(n, Truncate(last))
    ensures Safe(Next(n, Truncate(last)))
  {
  }

  lemma CompactIsSafe(n: Node, first: nat)
    requires Safe(n) && Enabled(n, Compact(first))
    ensures Safe(Next(n, Compact(first)))
  {
    var next := Next(n, Compact(first));
    forall i | 0 <= i < |next.entries|
      ensures next.entries[i] == n.entries[i + (first - n.first)]
    {
    }
  }

  lemma BeginIsSafe(n: Node, stamp: nat)
    requires Safe(n) && Enabled(n, BeginSnapshot(stamp))
    ensures Safe(Next(n, BeginSnapshot(stamp)))
  {
    hide Covered, Shielded, Cut, Resealed, MinNeeded;
    var key := Key(LastIndex(n), stamp);
    RotationStaysCoveredIff(n, key);
    var rotated := n.(ring := [key] + n.ring);
    assert Distinct(rotated.ring);
    CollectedIsSafe(rotated);
    PendingIsSafe(Collected(rotated), n.applied);
  }

  lemma PendingIsSafe(n: Node, index: nat)
    requires Safe(n) && index == n.applied > 0
    ensures Safe(n.(pending := Some(index)))
  {
  }

  lemma ReapIsSafe(n: Node, from: nat)
    requires Safe(n) && from <= |n.snapshots|
    ensures Safe(Next(n, Reap(from)))
  {
    hide Shielded, Distinct;
    var next := Next(n, Reap(from));
    assert forall q :: 0 <= q < |next.snapshots| ==> next.snapshots[q] == n.snapshots[from + q];
  }

  lemma SnapshotEndIsSafe(n: Node, step: Step)
    requires Safe(n) && Enabled(n, step) && (step.FinishSnapshot? || step.AbandonSnapshot?)
    ensures Safe(Next(n, step))
  {
    hide Distinct;
    assert Shielded(n.ring, n.ring[0], LastIndex(n) + 1);
  }

  lemma OtherStepIsSafe(n: Node, step: Step)
    requires Safe(n) && Enabled(n, step) && (step.Apply? || step.SetStable?)
    ensures Safe(Next(n, step))
  {
    assert n.ring[0] in n.ring;
  }

  /** Every step keeps the node safe, and a restart does so exactly if it is harmless. */
  lemma NextIsSafeIff(n: Node, step: Step)
    requires Safe(n) && Enabled(n, step)
    ensures Safe(Next(n, step)) <==> (step.Restart? ==> Harmless(n))
  {
    hide Covered, Harmless, Readable;
    match step
    case Append(data) => AppendIsSafe(n, data);
    case Truncate(last) => TruncateIsSafe(n, last);
    case Compact(first) => CompactIsSafe(n, first);
    case BeginSnapshot(stamp) => BeginIsSafe(n, stamp);
    case Restart =>
      CoveredIsReadable(n);
      RestartIsSafeIff(n);
    case Apply => OtherStepIsSafe(n, step);
    case SetStable(_, _) => OtherStepIsSafe(n, step);
    case Reap(from) => ReapIsSafe(n, from);
    case _ => SnapshotEndIsSafe(n, step);
  }

  // ---- Restarts ----

  /** No key whose name sorts after that of the sealing one was made too early for what that one sealed. */
  ghost predicate Harmless(n: Node) {
    && (forall i, k :: 0 <= i < |n.entries| && n.entries[i].Sealed? && k in n.ring && Newer(k, n.entries[i].key)
          ==> n.first + i <= k.index)
    && (forall s, k :: s in n.snapshots && k in n.ring && Newer(k, s.key) ==> s.index < k.index)
  }

  lemma {:induction false} InsertedIsSorted(key: Key, ring: seq<Key>)
    requires NewestFirst(ring) && key !in ring
    ensures NewestFirst(Inserted(key, ring))
    ensures forall k :: k in Inserted(key, ring) <==> k == key || k in ring
    decreases |ring|
  {
    if ring != [] && !Newer(key, ring[0]) {
      var rest := Inserted(key, ring[1..]);
      assert ring == [ring[0]] + ring[1..];
      InsertedIsSorted(key, ring[1..]);
      forall j | 0 <= j < |rest|
        ensures Newer(ring[0], rest[j])
      {
        assert rest[j] in rest;
      }
    }
  }

  lemma {:induction false} ReloadedIsNewestFirst(ring: seq<Key>)
    requires Distinct(ring)
    ensures NewestFirst(Reloaded(ring))
    ensures forall k :: k in Reloaded(ring) <==> k in ring
    decreases |ring|
  {
    if ring != [] {
      assert ring == [ring[0]] + ring[1..];
      ReloadedIsNewestFirst(ring[1..]);
      InsertedIsSorted(ring[0], Reloaded(ring[1..]));
    }
  }

  lemma {:induction false} ReloadKeepsSorted(ring: seq<Key>)
    requires NewestFirst(ring)
    ensures Reloaded(ring) == ring
    decreases |ring|
  {
    if ring != [] {
      ReloadKeepsSorted(ring[1..]);
    }
  }

  /** A restart finds the keys in the order they were made exactly if no key was made at a lower index than an older
      one, that is, if no rotation followed a cut-off below the previous rotation. */
  lemma RestartKeepsOrderIff(ring: seq<Key>)
    requires InOrderMade(ring)
    ensures Reloaded(ring) == ring <==> forall i, j :: 0 <= i < j < |ring| ==> ring[j].index <= ring[i].index
  {
    if forall i, j :: 0 <= i < j < |ring| ==> ring[j].index <= ring[i].index {
      ReloadKeepsSorted(ring);
    } else {
      ReloadedIsNewestFirst(ring);
    }
  }

  /** In a sorted ring the keys in front are the newer ones. */
  lemma {:induction false} SortedShieldsIff(ring: seq<Key>, key: Key, low: nat)
    requires NewestFirst(ring)
    ensures Shielded(ring, key, low) <==> key in ring && forall k :: k in ring && Newer(k, key) ==> low <= k.index
    decreases |ring|
  {
    if ring != [] {
      var first, rest := ring[0], ring[1..];
      assert ring == [first] + rest;
      SortedShieldsIff(rest, key, low);
      if key in rest {
        var p :| 0 <= p < |rest| && rest[p] == key;
        assert ring[p + 1] == key && Newer(first, key);
      }
      if key == first {
        forall k | k in rest
          ensures !Newer(k, key)
        {
          var p :| 0 <= p < |rest| && rest[p] == k;
          assert ring[p + 1] == k && Newer(first, k);
        }
      }
    }
  }

  lemma ReloadedShieldsIff(ring: seq<Key>, key: Key, low: nat)
    requires Distinct(ring) && key in ring
    ensures Shielded(Reloaded(ring), key, low) <==> forall k :: k in ring && Newer(k, key) ==> low <= k.index
  {
    ReloadedIsNewestFirst(ring);
    SortedShieldsIff(Reloaded(ring), key, low);
  }

  lemma RestartIsSafeIff(n: Node)
    requires WellFormed(n) && Readable(n)
    ensures WellFormed(Next(n, Restart)) && Readable(Next(n, Restart))
    ensures Covered(Next(n, Restart)) <==> Harmless(n)
  {
    hide Shielded, Reloaded, Newer;
    var next := Next(n, Restart);
    ReloadedIsWellFormed(n);
    forall i | 0 <= i < |n.entries| && n.entries[i].Sealed?
      ensures Shielded(next.ring, n.entries[i].key, n.first + i)
         <==> forall k :: k in n.ring && Newer(k, n.entries[i].key) ==> n.first + i <= k.index
    {
      ReloadedShieldsIff(n.ring, n.entries[i].key, n.first + i);
    }
    forall s | s in n.snapshots
      ensures Shielded(next.ring, s.key, s.index + 1) <==> forall k :: k in n.ring && Newer(k, s.key) ==> s.index + 1 <= k.index
    {
      ReloadedShieldsIff(n.ring, s.key, s.index + 1);
    }
  }

  lemma ReloadedIsWellFormed(n: Node)
    requires WellFormed(n)
    ensures WellFormed(Next(n, Restart)) && forall k :: k in Next(n, Restart).ring <==> k in n.ring
  {
    ReloadedIsNewestFirst(n.ring);
    assert n.ring[0] in Reloaded(n.ring);
  }

  /** One step from a safe node loses nothing, not even a restart. */
  lemma NextIsReadable(n: Node, step: Step)
    requires Safe(n) && Enabled(n, step)
    ensures Readable(Next(n, step))
  {
    hide Next, Enabled, Covered, Harmless;
    SafeIsReadable(n);
    NextIsSafeIff(n, step);
    if step.Restart? {
      RestartIsSafeIff(n);
    } else {
      SafeIsReadable(Next(n, step));
    }
  }

  // ---- Runs ----

  ghost function Trace(n: Node, steps: seq<Step>): Node
    requires CanRun(n, steps)
    decreases |steps|
  {
    if steps == [] then n else Trace(Next(n, steps[0]), steps[1..])
  }

  /** Every step happens when it can. */
  ghost predicate CanRun(n: Node, steps: seq<Step>)
    decreases |steps|
  {
    steps == [] || (n.ring != [] && Enabled(n, steps[0]) && CanRun(Next(n, steps[0]), steps[1..]))
  }

  ghost predicate RestartsAreHarmless(n: Node, steps: seq<Step>)
    requires CanRun(n, steps)
    decreases |steps|
  {
    steps == [] || ((steps[0].Restart? ==> Harmless(n)) && RestartsAreHarmless(Next(n, steps[0]), steps[1..]))
  }

  /** Over every run whose restarts are harmless, whatever is still stored can still be read. */
  lemma {:induction false} KeysOutliveTheirData(n: Node, steps: seq<Step>)
    requires Safe(n) && CanRun(n, steps) && RestartsAreHarmless(n, steps)
    ensures Safe(Trace(n, steps)) && Readable(Trace(n, steps))
    decreases |steps|
  {
    hide Enabled, Next, Harmless, WellFormed, Covered;
    if steps == [] {
      SafeIsReadable(n);
    } else {
      NextIsSafeIff(n, steps[0]);
      KeysOutliveTheirData(Next(n, steps[0]), steps[1..]);
    }
  }

  lemma SafeIsReadable(n: Node)
    requires Safe(n)
    ensures Readable(n)
  {
    CoveredIsReadable(n);
  }

  predicate NoRestart(steps: seq<Step>) {
    forall k :: 0 <= k < |steps| ==> !steps[k].Restart?
  }

  /** `end` comes after `n` in a run without a restart. */
  ghost predicate Reaches(n: Node, end: Node) {
    exists steps :: CanRun(n, steps) && NoRestart(steps) && Trace(n, steps) == end
  }

  lemma ReachesNext(n: Node, step: Step, end: Node)
    requires n.ring != [] && Enabled(n, step) && !step.Restart? && Reaches(Next(n, step), end)
    ensures Reaches(n, end)
  {
    hide Next, Enabled;
    var rest :| CanRun(Next(n, step), rest) && NoRestart(rest) && Trace(Next(n, step), rest) == end;
    var steps := [step] + rest;
    assert steps[0] == step && steps[1..] == rest;
    assert CanRun(n, steps) && NoRestart(steps) && Trace(n, steps) == end;
  }

  lemma ReachesItself(n: Node)
    ensures Reaches(n, n)
  {
    assert CanRun(n, []) && NoRestart([]) && Trace(n, []) == n;
  }

  /** Some run without a restart comes to a node that has lost a key. */
  ghost predicate CanLose(n: Node) {
    exists end :: Reaches(n, end) && !Readable(end)
  }

  lemma LosesLater(n: Node, step: Step)
    requires n.ring != [] && Enabled(n, step) && !step.Restart? && CanLose(Next(n, step))
    ensures CanLose(n)
  {
    hide Reaches;
    var end :| Reaches(Next(n, step), end) && !Readable(end);
    ReachesNext(n, step, end);
  }

  lemma LosesNow(n: Node)
    requires !Readable(n)
    ensures CanLose(n)
  {
    ReachesItself(n);
  }

  function FreshStamp(ring: seq<Key>): (stamp: nat)
    ensures forall k :: k in ring ==> k.stamp < stamp
  {
    if ring == [] then 0
    else
      var rest := FreshStamp(ring[1..]);
      if ring[0].stamp < rest then rest else ring[0].stamp + 1
  }

  /** The next snapshot drops a key that is not shielded from the horizon. */
  lemma NextSnapshotDrops(n: Node, key: Key)
    requires n.ring != [] && key in n.ring && Enabled(n, BeginSnapshot(FreshStamp(n.ring)))
    requires !Shielded(n.ring, key, MinNeeded(FirstIndex(n), n.snapshots) + 1)
    ensures key !in Next(n, BeginSnapshot(FreshStamp(n.ring))).ring
  {
    var fresh_ := Key(LastIndex(n), FreshStamp(n.ring));
    var ring := [fresh_] + n.ring;
    assert ring[1..] == n.ring && key != fresh_;
    CutKeepsIff(ring, MinNeeded(FirstIndex(n), n.snapshots), key);
  }

  lemma FirstEntryIsLost(n: Node)
    requires n.ring != [] && 1 <= n.first && n.entries != [] && n.snapshots == [] && n.pending.None? && 0 < n.applied
    requires n.entries[0].Sealed? && n.entries[0].key in n.ring && !Shielded(n.ring, n.entries[0].key, n.first)
    ensures CanLose(n)
  {
    hide Reaches, CanLose, Shielded, Cut;
    var begin := BeginSnapshot(FreshStamp(n.ring));
    assert MinNeeded(FirstIndex(n), []) == n.first - 1;
    NextSnapshotDrops(n, n.entries[0].key);
    assert Next(n, begin).entries[0] == n.entries[0];
    LosesNow(Next(n, begin));
    LosesLater(n, begin);
  }

  /** An entry whose key stands behind one of a lower index: compact up to it, then take a snapshot. */
  lemma UncoveredEntryIsLost(n: Node, i: nat)
    requires WellFormed(n) && n.pending.None? && i < |n.entries| && n.entries[i].Sealed? && n.entries[i].key in n.ring
    requires !Shielded(n.ring, n.entries[i].key, n.first + i)
    ensures CanLose(n)
  {
    hide CanLose, Shielded;
    var reaped := Next(n, Reap(|n.snapshots|));
    var compacted := Next(reaped, Compact(n.first + i));
    assert reaped.snapshots == [] && compacted.entries[0] == n.entries[i];
    if compacted.applied == 0 {
      FirstEntryIsLost(Next(compacted, Apply));
      LosesLater(compacted, Apply);
    } else {
      FirstEntryIsLost(compacted);
    }
    LosesLater(reaped, Compact(n.first + i));
    LosesLater(n, Reap(|n.snapshots|));
  }

  /** The oldest listed snapshot sets the horizon once the log starts after it. */
  lemma OldestSnapshotIsTheHorizon(n: Node)
    requires n.entries != [] && n.snapshots != [] && n.snapshots[0].index < n.first
    requires forall q :: 0 <= q < |n.snapshots| ==> n.snapshots[0].index <= n.snapshots[q].index
    ensures MinNeeded(FirstIndex(n), n.snapshots) == n.snapshots[0].index
  {
    LeastSnapshotIsLeast(n.snapshots, n.first - 1);
    LeastSnapshotIsAtLeast(n.snapshots, n.first - 1, n.snapshots[0].index);
    assert n.snapshots[0] in n.snapshots;
  }

  lemma OldestSnapshotIsLost(n: Node)
    requires n.ring != [] && n.entries != [] && n.snapshots != [] && n.snapshots[0].index < n.first
    requires forall q :: 0 <= q < |n.snapshots| ==> n.snapshots[0].index <= n.snapshots[q].index < LastIndex(n)
    requires n.pending.None? && 0 < n.applied && n.snapshots[0].key in n.ring
    requires !Shielded(n.ring, n.snapshots[0].key, n.snapshots[0].index + 1)
    ensures CanLose(n)
  {
    hide Reaches, CanLose, Shielded, Cut, LeastSnapshot;
    var begin := BeginSnapshot(FreshStamp(n.ring));
    OldestSnapshotIsTheHorizon(n);
    NextSnapshotDrops(n, n.snapshots[0].key);
    assert n.snapshots[0] in Next(n, begin).snapshots;
    LosesNow(Next(n, begin));
    LosesLater(n, begin);
  }

  /** A snapshot whose key stands behind one not made after it: reap the older ones, go on by one entry, compact, and
      take the next snapshot. */
  lemma UncoveredSnapshotIsLost(n: Node, q: nat)
    requires WellFormed(n) && n.pending.None? && q < |n.snapshots| && n.snapshots[q].key in n.ring
    requires !Shielded(n.ring, n.snapshots[q].key, n.snapshots[q].index + 1)
    ensures CanLose(n)
  {
    hide CanLose, Shielded;
    var s := n.snapshots[q];
    var reaped := Next(n, Reap(q));
    var grown := Next(reaped, Append(None));
    assert reaped.snapshots[0] == s;
    if n.first <= s.index {
      OldestSnapshotIsLost(Next(grown, Compact(s.index + 1)));
      LosesLater(grown, Compact(s.index + 1));
    } else {
      OldestSnapshotIsLost(grown);
    }
    LosesLater(reaped, Append(None));
    LosesLater(n, Reap(q));
  }

  lemma SafeNeverLoses(n: Node, end: Node)
    requires Safe(n) && Reaches(n, end)
    ensures Readable(end)
  {
    hide Safe, Readable;
    var steps :| CanRun(n, steps) && NoRestart(steps) && Trace(n, steps) == end;
    NoRestartIsHarmless(n, steps);
    KeysOutliveTheirData(n, steps);
  }

  lemma {:induction false} NoRestartIsHarmless(n: Node, steps: seq<Step>)
    requires CanRun(n, steps) && NoRestart(steps)
    ensures RestartsAreHarmless(n, steps)
    decreases |steps|
  {
    hide Enabled, Next;
    if steps != [] {
      NoRestartIsHarmless(Next(n, steps[0]), steps[1..]);
    }
  }

  /** Whatever the node does next, short of another restart, nothing is lost: exactly if everything is covered. */
  lemma LosesNothingIffCovered(n: Node)
    requires WellFormed(n) && n.pending.None?
    ensures !CanLose(n) <==> Covered(n)
  {
    hide Reaches, Shielded;
    if Covered(n) {
      forall end | Reaches(n, end)
        ensures Readable(end)
      {
        SafeNeverLoses(n, end);
      }
    } else if !Readable(n) {
      LosesNow(n);
    } else if i: int :| 0 <= i < |n.entries| && n.entries[i].Sealed? && !Shielded(n.ring, n.entries[i].key, n.first + i) {
      UncoveredEntryIsLost(n, i);
    } else {
      var s :| s in n.snapshots && !Shielded(n.ring, s.key, s.index + 1);
      var q :| 0 <= q < |n.snapshots| && n.snapshots[q] == s;
      UncoveredSnapshotIsLost(n, q);
    }
  }

  /** After a restart nothing can be lost exactly if the restart is harmless, which the names of the keys and the
      indices of what they sealed tell beforehand. */
  lemma RestartLosesNothingIff(n: Node)
    requires Safe(n)
    ensures !CanLose(Next(n, Restart)) <==> Harmless(n)
  {
    hide CanLose, Covered, Harmless;
    SafeIsReadable(n);
    RestartIsSafeIff(n);
    LosesNothingIffCovered(Next(n, Restart));
  }

  /** What reading the log through the ring gives; None for an entry without data. */
  function Texts(n: Node): seq<Option<nat>> {
    seq(|n.entries|, i requires 0 <= i < |n.entries| => Opened(n.ring, n.entries[i]))
  }

  /** The same log without encryption. */
  function PlainNext(n: Node, texts: seq<Option<nat>>, step: Step): seq<Option<nat>>
    requires |texts| == |n.entries| && Enabled(n, step)
  {
    match step
    case Append(data) => texts + [data]
    case Truncate(last) => texts[..last - n.first + 1]
    case Compact(first) => texts[first - n.first..]
    case _ => texts
  }

  /** Reading gives what was appended, through every rotation and collection. */
  lemma EncryptionIsTransparent(n: Node, step: Step)
    requires Safe(n) && Enabled(n, step)
    ensures Texts(Next(n, step)) == PlainNext(n, Texts(n), step)
  {
    hide Covered;
    var next := Next(n, step);
    NextIsReadable(n, step);
    SafeIsReadable(n);
    forall i | 0 <= i < |next.entries| && next.entries[i].Sealed?
      ensures Opened(next.ring, next.entries[i]) == Some(next.entries[i].text)
    {
    }
  }

  /** What reading a stable value through the ring gives. */
  function StableValue(n: Node, name: Name): Option<nat> {
    if name in n.stable then Opened(n.ring, n.stable[name]) else None
  }

  /** The same store without encryption. */
  function PlainValue(before: Option<nat>, name: Name, step: Step): Option<nat> {
    if step.SetStable? && step.name == name then Some(step.text) else before
  }

  lemma {:induction false} CutIsPartOf(ring: seq<Key>, minNeeded: nat)
    requires ring != []
    ensures Cut(ring, minNeeded) != [] && Cut(ring, minNeeded)[0] == ring[0]
    ensures forall k :: k in Cut(ring, minNeeded) ==> k in ring
    decreases |ring|
  {
    if ring[0].index > minNeeded && ring[1..] != [] {
      CutIsPartOf(ring[1..], minNeeded);
    }
  }

  /** Sealing again and dropping keys changes no value that can be opened. */
  lemma CollectedKeepsValues(n: Node, name: Name)
    requires n.ring != []
    ensures StableValue(Collected(n), name) == StableValue(n, name)
  {
    CutIsPartOf(n.ring, MinNeeded(FirstIndex(n), n.snapshots));
  }

  /** So does a rotation, on a node that has lost no key. */
  lemma RotatedKeepsValues(n: Node, stamp: nat, name: Name)
    requires Readable(n) && n.ring != []
    ensures StableValue(Rotated(n, stamp), name) == StableValue(n, name)
  {
    hide Collected;
    CollectedKeepsValues(n.(ring := [Key(LastIndex(n), stamp)] + n.ring), name);
  }

  /** A stable value reads as it was written, through every rotation, collection and restart. */
  lemma StableIsTransparent(n: Node, step: Step, name: Name)
    requires Safe(n) && Enabled(n, step)
    ensures StableValue(Next(n, step), name) == PlainValue(StableValue(n, name), name, step)
  {
    hide Covered, Rotated;
    SafeIsReadable(n);
    match step {
      case BeginSnapshot(stamp) =>
        RotatedKeepsValues(n, stamp, name);
      case Restart =>
        ReloadedIsNewestFirst(n.ring);
      case _ =>
    }
  }

  function PlainValues(before: Option<nat>, name: Name, steps: seq<Step>): Option<nat>
    decreases |steps|
  {
    if steps == [] then before else PlainValues(PlainValue(before, name, steps[0]), name, steps[1..])
  }

  ghost function PlainTexts(n: Node, texts: seq<Option<nat>>, steps: seq<Step>): seq<Option<nat>>
    requires CanRun(n, steps) && |texts| == |n.entries|
    decreases |steps|
  {
    if steps == [] then texts else PlainTexts(Next(n, steps[0]), PlainNext(n, texts, steps[0]), steps[1..])
  }

  /** Over every run whose restarts are harmless, log and stable values read as if nothing had ever been encrypted. */
  lemma {:induction false} RunsAreTransparent(n: Node, steps: seq<Step>, name: Name)
    requires Safe(n) && CanRun(n, steps) && RestartsAreHarmless(n, steps)
    ensures StableValue(Trace(n, steps), name) == PlainValues(StableValue(n, name), name, steps)
    ensures Texts(Trace(n, steps)) == PlainTexts(n, Texts(n), steps)
    decreases |steps|
  {
    hide Enabled, Next, Harmless, Safe, PlainNext, Texts, StableValue;
    if steps != [] {
      var next := Next(n, steps[0]);
      NextIsSafeIff(n, steps[0]);
      StableIsTransparent(n, steps[0], name);
      EncryptionIsTransparent(n, steps[0]);
      TextsLength(n);
      RunsAreTransparent(next, steps[1..], name);
    }
  }

  lemma TextsLength(n: Node)
    ensures |Texts(n)| == |n.entries|
  {
  }

  lemma ReloadTwo(a: Key, b: Key)
    requires !Newer(a, b)
    ensures Reloaded([a, b]) == [b, a]
  {
    assert [a, b][1..] == [b] && [b][1..] == [];
    assert Reloaded([b]) == Inserted(b, []) == [b];
    assert Inserted(a, [b]) == [b] + Inserted(a, []);
  }

  /** The order matters: here a rotation followed a cut-off below the previous one, so the restart takes the older
      key for the newer. The next rotation then drops the key of an entry that is still stored. */
  lemma ReorderedKeysMayBeLost()
    ensures exists n: Node, stamp: nat ::
              && Safe(n) && Enabled(n, Restart) && Enabled(Next(n, Restart), BeginSnapshot(stamp))
              && !Readable(Next(Next(n, Restart), BeginSnapshot(stamp)))
  {
    hide Reloaded, Cut;
    var older, newer, latest := Key(3, 1), Key(2, 2), Key(5, 3);
    var n := Node([newer, older], 4, [Sealed(newer, 7), Empty], 4, [], None, map[]);
    assert Safe(n);
    ReloadTwo(newer, older);
    var restarted := Next(n, Restart);
    assert restarted == n.(ring := [older, newer]);
    CutThree(latest, older, newer, 3);
    assert [latest] + restarted.ring == [latest, older, newer] && MinNeeded(4, []) == 3;
    var rotated := Next(restarted, BeginSnapshot(3));
    assert rotated.ring == [latest, older] && rotated.entries[0] == Sealed(newer, 7);
  }

  /** Not every disorder matters: these keys are out of name order too, and no run after the restart loses anything. */
  lemma ReorderedKeysMayBeHarmless()
    ensures exists n :: Safe(n) && !NewestFirst(n.ring) && !CanLose(Next(n, Restart))
  {
    hide CanLose;
    var older, newer := Key(3, 1), Key(2, 2);
    var n := Node([newer, older], 1, [Sealed(older, 5), Empty], 1, [], None, map[]);
    assert n.ring[1..] == [older] && !Newer(n.ring[0], n.ring[1]);
    assert Shielded([older], older, 1) && Shielded(n.ring, older, 1);
    RestartLosesNothingIff(n);
  }

  lemma CutThree(a: Key, b: Key, c: Key, minNeeded: nat)
    requires b.index <= minNeeded < a.index
    ensures Cut([a, b, c], minNeeded) == [a, b]
  {
    assert [a, b, c][1..] == [b, c];
    CutTwo(b, c, minNeeded);
  }

  lemma CutTwo(a: Key, b: Key, minNeeded: nat)
    ensures Cut([a, b], minNeeded) == if a.index <= minNeeded then [a] else [a, b]
  {
    assert [a, b][1..] == [b] && Cut([b], minNeeded) == [b];
  }

  /** From a safe node: a second rotation at the same index, one entry, a compaction, a collection. */
  ghost predicate LosesASnapshot(n: Node) {
    && Safe(n) && Enabled(n, Append(None))
    && var grown := Next(Rotated(n, n.ring[0].stamp + 1), Append(None));
    && Enabled(grown, Compact(n.first + 1))
    && !Readable(Collected(Next(grown, Compact(n.first + 1))))
  }

  /** So does the new entry between two snapshots: with nothing applied in between, the second rotation makes a key at
      the index of the first snapshot, and a later collection takes that key for the one the snapshot needs. */
  lemma SnapshotsOfTheSameIndexMayBeLost()
    ensures exists n :: LosesASnapshot(n)
  {
    hide Cut, LeastSnapshot, Safe, Readable;
    var first, second := Key(1, 1), Key(1, 2);
    var snapshots := [Snapshot(1, first)];
    var n := Node([first], 1, [Empty], 1, snapshots, None, map[]);
    FirstSnapshotIsSafe(n, first);
    LeastSnapshotIsLeast(snapshots, 0);
    OneSnapshot(snapshots[0], 1);
    assert [second] + n.ring == [second, first];
    CutTwo(second, first, 0);
    CutTwo(second, first, 1);
    var again := Rotated(n, 2);
    assert again.ring == [second, first] && again.entries == [Empty] && again.snapshots == snapshots;
    var grown := Next(again, Append(None));
    var compacted := Next(grown, Compact(2));
    assert compacted.first == 2 && |compacted.entries| == 1 && compacted.ring == [second, first];
    var collected := Collected(compacted);
    assert collected.ring == [second] && collected.snapshots == snapshots;
    FirstSnapshotIsLost(collected, first);
    assert LosesASnapshot(n);
  }

  lemma FirstSnapshotIsSafe(n: Node, key: Key)
    requires n == Node([key], 1, [Empty], 1, [Snapshot(1, key)], None, map[])
    ensures Safe(n)
  {
  }

  lemma FirstSnapshotIsLost(n: Node, key: Key)
    requires n.snapshots == [Snapshot(1, key)] && key !in n.ring
    ensures !Readable(n)
  {
    assert n.snapshots[0] in n.snapshots;
  }

  lemma OneSnapshot(s: Snapshot, bound: nat)
    ensures LeastSnapshot([s], bound) == if s.index < bound then s.index else bound
  {
    assert [s][..0] == [];
  }

  /** A snapshot of a node that keeps its whole ring. */
  lemma SnapshotKeepingTheRing(n: Node, stamp: nat, end: Node)
    requires n.ring != [] && n.first == 1 && n.entries != [] && n.stable == map[]
    requires Enabled(n, BeginSnapshot(stamp)) && Cut([Key(LastIndex(n), stamp)] + n.ring, 0) == [Key(LastIndex(n), stamp)] + n.ring
    requires Reaches(n.(ring := [Key(LastIndex(n), stamp)] + n.ring,
                        snapshots := n.snapshots + [Snapshot(n.applied, Key(LastIndex(n), stamp))]), end)
    ensures Reaches(n, end)
  {
    LeastSnapshotIsLeast(n.snapshots, 0);
    var begun := Next(n, BeginSnapshot(stamp));
    assert Resealed(begun.ring, n.stable) == map[];
    assert Next(begun, FinishSnapshot) == n.(ring := [Key(LastIndex(n), stamp)] + n.ring,
                                            snapshots := n.snapshots + [Snapshot(n.applied, Key(LastIndex(n), stamp))]);
    ReachesNext(begun, FinishSnapshot, end);
    ReachesNext(n, BeginSnapshot(stamp), end);
  }

  /** And a run of a new node gets there: three entries, a snapshot, a cut-off, one entry, a snapshot. */
  lemma RotationsCanGetOutOfOrder()
    ensures exists end :: Reaches(NewNode(0), end) && !NewestFirst(end.ring)
  {
    hide Reaches;
    var k0, k1, k2 := Key(0, 0), Key(3, 1), Key(2, 2);
    var end := Node([k2, k1, k0], 1, [Empty, Empty], 2, [Snapshot(1, k1), Snapshot(2, k2)], None, map[]);
    ReachesItself(end);
    SecondRotation(k0, k1, k2, end);
    FirstRotation(k0, k1, end);
    FromNewToThree(end);
    assert !Newer(end.ring[0], end.ring[1]);
  }

  lemma SecondRotation(k0: Key, k1: Key, k2: Key, end: Node)
    requires k0 == Key(0, 0) && k1 == Key(3, 1) && k2 == Key(2, 2)
    requires end == Node([k2, k1, k0], 1, [Empty, Empty], 2, [Snapshot(1, k1), Snapshot(2, k2)], None, map[]) && Reaches(end, end)
    ensures Reaches(Node([k1, k0], 1, [Empty], 1, [Snapshot(1, k1)], None, map[]), end)
  {
    hide Reaches;
    var two := Node([k1, k0], 1, [Empty, Empty], 2, [Snapshot(1, k1)], None, map[]);
    ThreeKeys(k2, k1, k0);
    assert two.(ring := [k2] + two.ring, snapshots := two.snapshots + [Snapshot(2, k2)]) == end;
    SnapshotKeepingTheRing(two, 2, end);
    var cut := Node([k1, k0], 1, [Empty], 1, [Snapshot(1, k1)], None, map[]);
    assert Next(Next(cut, Append(None)), Apply) == two;
    ReachesNext(Next(cut, Append(None)), Apply, end);
    ReachesNext(cut, Append(None), end);
  }

  lemma FirstRotation(k0: Key, k1: Key, end: Node)
    requires k0 == Key(0, 0) && k1 == Key(3, 1)
    requires Reaches(Node([k1, k0], 1, [Empty], 1, [Snapshot(1, k1)], None, map[]), end)
    ensures Reaches(Node([k0], 1, [Empty, Empty, Empty], 1, [], None, map[]), end)
  {
    hide Reaches;
    var three := Node([k0], 1, [Empty, Empty, Empty], 1, [], None, map[]);
    var taken := three.(ring := [k1] + three.ring, snapshots := [] + [Snapshot(1, k1)]);
    assert Next(taken, Truncate(1)) == Node([k1, k0], 1, [Empty], 1, [Snapshot(1, k1)], None, map[]);
    ReachesNext(taken, Truncate(1), end);
    CutTwo(k1, k0, 0);
    assert [k1] + three.ring == [k1, k0];
    SnapshotKeepingTheRing(three, 1, end);
  }

  lemma ThreeKeys(a: Key, b: Key, c: Key)
    requires 0 < a.index && 0 < b.index
    ensures [a] + [b, c] == [a, b, c] && Cut([a, b, c], 0) == [a, b, c]
  {
    assert [a, b, c][1..] == [b, c];
    CutTwo(b, c, 0);
  }

  lemma FromNewToThree(end: Node)
    requires Reaches(Node([Key(0, 0)], 1, [Empty, Empty, Empty], 1, [], None, map[]), end)
    ensures Reaches(NewNode(0), end)
  {
    var add := Append(None);
    var one := Next(NewNode(0), add);
    var two := Next(one, add);
    var three := Next(two, add);
    assert Next(three, Apply) == Node([Key(0, 0)], 1, [Empty, Empty, Empty], 1, [], None, map[]);
    ReachesNext(three, Apply, end);
    ReachesNext(two, add, end);
    ReachesNext(one, add, end);
    ReachesNext(NewNode(0), add, end);
  }
}
