/** The code that rotates, collects and reloads keys (backend/raft.go), and the stores that seal with them
    (backend/raft_crypto.go). */
module KeyManager {
  import opened Wrappers
  import opened KeyRing
  import opened KeyLifetime

  class KeyManager {
    const ring: KeyRing
    var first: nat
    var entries: seq<Stored>
    var snapshots: seq<Snapshot>
    var stable: map<Name, Stored>
    /** The key files on disk. */
    var files: set<Key>

    ghost predicate Valid()
      reads this, ring
    {
      ring.active.Some? && Distinct(ring.Keys()) && files == set k | k in ring.Keys()
    }

    ghost function AsNode(): Node
      reads this, ring
    {
      Node(ring.Keys(), first, entries, 0, snapshots, None, stable)
    }

    constructor (stamp: nat)
      ensures Valid() && fresh(ring) && AsNode() == NewNode(stamp)
    {
      ring := new KeyRing(Key(0, stamp));
      first, entries, snapshots, stable, files := 1, [], [], map[], {Key(0, stamp)};
    }

    method StoreLog(data: Option<nat>)
      requires Valid()
      modifies this`entries
      ensures Valid() && AsNode() == Next(old(AsNode()), Append(data))
    {
      var stored := Empty;
      if data.Some? {
        var sealed := ring.Encrypt(data.value);
        stored := sealed.value;
      }
      entries := entries + [stored];
    }

    /** The outer option is the error, the inner one the absence of data. */
    method GetLog(index: nat) returns (data: Option<Option<nat>>)
      requires Valid() && first <= index < first + |entries|
      ensures Readable(AsNode()) ==> data == Some(Texts(AsNode())[index - first])
    {
      var stored := entries[index - first];
      if stored.Empty? {
        return Some(None);
      }
      var text := ring.Decrypt(stored);
      data := if text.Some? then Some(text) else None;
    }

    method StableSet(name: Name, text: nat)
      requires Valid()
      modifies this`stable
      ensures Valid() && AsNode() == Next(old(AsNode()), SetStable(name, text))
    {
      var sealed := ring.Encrypt(text);
      stable := stable[name := sealed.value];
    }

    method StableGet(name: Name) returns (text: Option<nat>)
      requires Valid()
      ensures text == if name in stable then Opened(ring.Keys(), stable[name]) else None
    {
      if name !in stable || stable[name].Empty? {
        return None;
      }
      text := ring.Decrypt(stable[name]);
    }

    method Reseal(name: Name)
      requires Valid()
      modifies this`stable
      ensures Valid() && stable == ResealedAt(ring.Keys(), old(stable), name)
      ensures StableValue(AsNode(), name) == old(StableValue(AsNode(), name))
      ensures StableValue(AsNode(), name).Some? ==> stable[name].key == ring.active.value
    {
      var text := StableGet(name);
      if text.Some? {
        StableSet(name, text.value);
      }
    }

    method ResealStable()
      requires Valid()
      modifies this`stable
      ensures Valid() && stable == Resealed(ring.Keys(), old(stable))
      ensures forall name :: StableValue(AsNode(), name) == old(StableValue(AsNode(), name))
      ensures forall name :: StableValue(AsNode(), name).Some? ==> stable[name].key == ring.active.value
    {
      var known := [CurrentTerm, LastVoteCand, LastVoteTerm];
      ghost var keys, before := ring.Keys(), stable;
      ResealingAllIsResealing(keys, before);
      for k := 0 to |known|
        invariant Valid() && ring.Keys() == keys
        invariant stable == if k == 0 then before
                            else if k == 1 then ResealedAt(keys, before, CurrentTerm)
                            else if k == 2 then ResealedAt(keys, ResealedAt(keys, before, CurrentTerm), LastVoteCand)
                            else Resealed(keys, before)
      {
        Reseal(known[k]);
      }
    }

    method FindMinNeeded() returns (minNeeded: nat)
      ensures minNeeded == MinNeeded(FirstIndex(AsNode()), snapshots)
    {
      var firstIdx := if entries == [] then 0 else first;
      if firstIdx == 0 {
        firstIdx := MAX_UINT64;
      }
      minNeeded := firstIdx - 1;
      var i := |snapshots|;
      assert snapshots[..i] == snapshots;
      while i > 0
        invariant 0 <= i <= |snapshots|
        invariant LeastSnapshot(snapshots[..i], minNeeded) == MinNeeded(FirstIndex(AsNode()), snapshots)
      {
        i := i - 1;
        assert snapshots[..i + 1][..i] == snapshots[..i];
        if snapshots[i].index < minNeeded {
          minNeeded := snapshots[i].index;
        }
      }
    }

    /** How many retired keys must stay. */
    static method Cutoff(active: Key, retired: seq<Key>, minNeeded: nat) returns (cutoff: nat)
      ensures cutoff <= |retired| && Cut([active] + retired, minNeeded) == [active] + retired[..cutoff]
    {
      assert ([active] + retired)[1..] == retired;
      cutoff := 0;
      if active.index <= minNeeded {
        return;
      }
      assert retired[0..] == retired;
      while cutoff < |retired|
        invariant cutoff <= |retired|
        invariant Cut(retired, minNeeded) == retired[..cutoff] + Cut(retired[cutoff..], minNeeded)
      {
        assert retired[cutoff..][1..] == retired[cutoff + 1..];
        cutoff := cutoff + 1;
        if retired[cutoff - 1].index <= minNeeded {
          return;
        }
      }
    }

    /** Drops the doomed keys from the ring as it is now. */
    method Prune(cutoff: nat)
      requires ring.active.Some? && Distinct(ring.Keys()) && cutoff <= |ring.retired|
      modifies ring
      ensures ring.active == old(ring.active) && ring.retired == old(ring.retired)[..cutoff]
    {
      var doomed := ring.retired[cutoff..];
      var kept := [];
      for i := 0 to |ring.retired|
        invariant ring.retired == old(ring.retired) && ring.active == old(ring.active)
        invariant kept == ring.retired[..if i < cutoff then i else cutoff]
      {
        RetiredAreDistinct(i, cutoff);
        if ring.retired[i] !in doomed {
          kept := kept + [ring.retired[i]];
        }
      }
      ring.retired := kept;
    }

    /** Keys between the horizon and the active key stay; older ones leave ring and disk. */
    method GarbageCollectKeys()
      requires Valid()
      modifies this`stable, this`files, ring
      ensures Valid() && AsNode() == Collected(old(AsNode()))
      ensures forall name :: StableValue(AsNode(), name) == old(StableValue(AsNode(), name))
    {
      hide Resealed, MinNeeded, Cut, Distinct;
      ResealStable();
      var minNeeded := FindMinNeeded();
      var cutoff := Cutoff(ring.active.value, ring.retired, minNeeded);
      ghost var keys := ring.Keys();
      files := files - set k | k in ring.retired[cutoff..];
      Prune(cutoff);
      CutSplitsTheRing(keys, cutoff + 1);
      assert ring.Keys() == keys[..cutoff + 1] && keys[cutoff + 1..] == old(ring.retired)[cutoff..];
    }

    lemma RetiredAreDistinct(i: nat, cutoff: nat)
      requires ring.active.Some? && Distinct(ring.Keys()) && i < |ring.retired| && cutoff <= |ring.retired|
      ensures ring.retired[i] in ring.retired[cutoff..] <==> cutoff <= i
    {
      forall j | 0 <= j < |ring.retired| && j != i
        ensures ring.retired[j] != ring.retired[i]
      {
        assert ring.Keys()[j + 1] == ring.retired[j] && ring.Keys()[i + 1] == ring.retired[i];
      }
      if cutoff <= i {
        assert ring.retired[cutoff..][i - cutoff] == ring.retired[i];
      }
    }

    method RotateLogKey(stamp: nat)
      requires Valid() && Key(LastIndex(AsNode()), stamp) !in ring.Keys()
      modifies this`stable, this`files, ring
      ensures Valid() && AsNode() == Rotated(old(AsNode()), stamp)
      ensures old(Readable(AsNode())) ==> forall name :: StableValue(AsNode(), name) == old(StableValue(AsNode(), name))
    {
      hide Collected, StableValue, Readable, Distinct;
      NewKeyIsDistinct(Key(LastIndex(AsNode()), stamp), ring.Keys());
      var lastIdx := if entries == [] then 0 else first + |entries| - 1;
      var key := Key(lastIdx, stamp);
      files := files + {key};
      ring.Rotate(key);
      assert files == set k | k in ring.Keys() by {
        assert forall k :: k in ring.Keys() <==> k == key || k in old(ring.Keys());
      }
      GarbageCollectKeys();
      if old(Readable(AsNode())) {
        forall name
          ensures StableValue(AsNode(), name) == old(StableValue(AsNode(), name))
        {
          RotatedKeepsValues(old(AsNode()), stamp, name);
        }
      }
    }

    static lemma NewKeyIsDistinct(key: Key, keys: seq<Key>)
      requires Distinct(keys) && key !in keys
      ensures Distinct([key] + keys)
    {
    }

    /** Reads the key files back, sorted by name, newest first. */
    method LoadKeyRing(ghost keys: seq<Key>)
      requires Valid() && keys == ring.Keys()
      modifies ring
      ensures Valid() && ring.Keys() == Reloaded(keys)
    {
      var pending, sorted := files, [];
      while pending != {}
        invariant NewestFirst(sorted)
        invariant forall k :: k in keys <==> k in pending || k in sorted
        invariant forall k, m :: k in sorted && m in pending ==> Newer(k, m)
        decreases pending
      {
        var newest := Newest(pending);
        sorted := sorted + [newest];
        pending := pending - {newest};
      }
      ReloadedIsNewestFirst(keys);
      SortedIsUnique(sorted, Reloaded(keys));
      assert keys[0] in sorted;
      ring.SetKeys(sorted[0], sorted[1..]);
      assert ring.Keys() == sorted;
    }
  }

  function ResealedAt(ring: seq<Key>, stable: map<Name, Stored>, name: Name): map<Name, Stored>
    requires ring != []
  {
    if name in stable && Opened(ring, stable[name]).Some? then stable[name := Sealed(ring[0], stable[name].text)] else stable
  }

  lemma ResealingAllIsResealing(ring: seq<Key>, stable: map<Name, Stored>)
    requires ring != []
    ensures ResealedAt(ring, ResealedAt(ring, ResealedAt(ring, stable, CurrentTerm), LastVoteCand), LastVoteTerm)
         == Resealed(ring, stable)
  {
    var all := ResealedAt(ring, ResealedAt(ring, ResealedAt(ring, stable, CurrentTerm), LastVoteCand), LastVoteTerm);
    forall name | name in stable
      ensures all[name] == Resealed(ring, stable)[name]
    {
      match name
      case CurrentTerm =>
      case LastVoteCand =>
      case LastVoteTerm =>
    }
  }

  /** Distinct keys: those cut off are exactly those no longer there. */
  lemma CutSplitsTheRing(keys: seq<Key>, n: nat)
    requires Distinct(keys) && n <= |keys|
    ensures (set k | k in keys) - (set k | k in keys[n..]) == set k | k in keys[..n]
    ensures Distinct(keys[..n])
  {
    assert keys == keys[..n] + keys[n..];
    forall i, j | 0 <= i < n <= j < |keys|
      ensures keys[i] != keys[j]
    {
    }
  }

  method Newest(keys: set<Key>) returns (newest: Key)
    requires keys != {}
    ensures newest in keys && forall k :: k in keys && k != newest ==> Newer(newest, k)
  {
    newest :| newest in keys;
    var pending := keys - {newest};
    while pending != {}
      invariant pending <= keys && newest in keys
      invariant newest !in pending && forall k :: k in keys && k !in pending && k != newest ==> Newer(newest, k)
      decreases pending
    {
      var k :| k in pending;
      if Newer(k, newest) {
        newest := k;
      }
      pending := pending - {k};
    }
  }

  /** There is one way to sort a set of file names. */
  lemma {:induction false} SortedIsUnique(xs: seq<Key>, ys: seq<Key>)
    requires NewestFirst(xs) && NewestFirst(ys)
    requires forall k :: k in xs <==> k in ys
    ensures xs == ys
    decreases |xs|
  {
    assert ys != [] ==> ys[0] in ys;
    if xs != [] {
      assert xs[0] in xs && xs[0] in ys && ys[0] in xs;
      assert xs[0] == ys[0];
      FirstIsNotRepeated(xs);
      FirstIsNotRepeated(ys);
      assert xs == [xs[0]] + xs[1..] && ys == [ys[0]] + ys[1..];
      forall k
        ensures k in xs[1..] <==> k in ys[1..]
      {
        assert k in xs[1..] <==> k in xs && k != xs[0];
        assert k in ys[1..] <==> k in ys && k != ys[0];
      }
      SortedIsUnique(xs[1..], ys[1..]);
    }
  }

  lemma FirstIsNotRepeated(xs: seq<Key>)
    requires NewestFirst(xs) && xs != []
    ensures xs[0] !in xs[1..]
  {
  }
}
