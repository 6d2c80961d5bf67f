/** One of the four index caches (backend/user_index_store.go): a cache of bounded size in front of the index files,
    written back on eviction and on flush. Which entry is evicted is up to the cache library: any but the one being
    added. Storage does not fail. */
module IndexStore {
  import opened Wrappers

  /** What a caller can ask of the store. */
  datatype Request<K, V> =
    | Get(key: K)
    | Set(key: K, value: V)
    | Delete(key: K)
    | Invalidate(key: K)
    | Restore(key: K, value: V)
    | FlushAll

  /** The same requests on a plain map. */
  function Effect<K, V>(m: map<K, V>, request: Request<K, V>): map<K, V> {
    match request
    case Set(key, value) => m[key := value]
    case Restore(key, value) => m[key := value]
    case Delete(key) => m - {key}
    case _ => m
  }

  function Effects<K, V>(m: map<K, V>, requests: seq<Request<K, V>>): map<K, V>
    decreases |requests|
  {
    if requests == [] then m else Effects(Effect(m, requests[0]), requests[1..])
  }

  lemma {:induction false} EffectsConcat<K, V>(m: map<K, V>, xs: seq<Request<K, V>>, ys: seq<Request<K, V>>)
    ensures Effects(m, xs + ys) == Effects(Effects(m, xs), ys)
    decreases |xs|
  {
    if xs == [] {
      assert xs + ys == ys;
    } else {
      assert (xs + ys)[1..] == xs[1..] + ys;
      EffectsConcat(Effect(m, xs[0]), xs[1..], ys);
    }
  }

  lemma EffectsSnoc<K, V>(m: map<K, V>, requests: seq<Request<K, V>>, i: nat)
    requires i < |requests|
    ensures Effects(m, requests[..i + 1]) == Effect(Effects(m, requests[..i]), requests[i])
  {
    assert requests[..i + 1] == requests[..i] + [requests[i]];
    EffectsConcat(m, requests[..i], [requests[i]]);
    assert [requests[i]][1..] == [];
  }

  function LookUp<K, V>(m: map<K, V>, none: V, k: K): V {
    if k in m then m[k] else none
  }

  function File<K, V>(disk: map<K, V>, k: K): Option<V> {
    if k in disk then Some(disk[k]) else None
  }

  /** What a cache in front of files answers. */
  function Answer<K, V>(cache: map<K, V>, disk: map<K, V>, none: V, k: K): V {
    if k in cache then cache[k] else LookUp(disk, none, k)
  }

  class IndexStore<K(==,!new), V(==,!new)> {
    const capacity: nat
    const none: V
    var cache: map<K, V>
    var dirty: set<K>
    var disk: map<K, V>

    constructor (capacity: nat, none: V)
      requires 0 < capacity
      ensures Empty(none) && this.capacity == capacity
    {
      this.capacity, this.none, cache, dirty, disk := capacity, none, map[], {}, map[];
    }

    /** The store as one plain map; a key without an index has the empty index. */
    ghost function At(k: K): V
      reads this
    {
      Answer(cache, disk, none, k)
    }

    ghost predicate Shows(m: map<K, V>)
      reads this
    {
      forall k :: At(k) == LookUp(m, none, k)
    }

    /** Dirty keys are cached, and a clean cached entry equals its file. */
    ghost predicate Coherent()
      reads this
    {
      && dirty <= cache.Keys
      && forall k :: k in cache && k !in dirty ==> k in disk && disk[k] == cache[k]
    }

    ghost predicate Valid()
      reads this
    {
      0 < capacity && |cache| <= capacity && Coherent()
    }

    ghost predicate Empty(none: V)
      reads this
    {
      Valid() && this.none == none && forall k :: At(k) == none
    }

    /** The eviction callback: an update not yet written is written now. */
    method OnEvict(k: K, v: V)
      modifies this`dirty, this`disk
      ensures dirty == old(dirty) - {k}
      ensures disk == if k in old(dirty) then old(disk)[k := v] else old(disk)
    {
      if k in dirty {
        dirty := dirty - {k};
        disk := disk[k := v];
      }
    }

    /** No update is lost by leaving the cache. */
    method CacheRemove(k: K)
      requires Coherent()
      modifies this
      ensures Coherent() && dirty == old(dirty) - {k} && cache == old(cache) - {k}
      ensures forall x :: At(x) == old(At(x))
      ensures forall x :: x !in old(cache) ==> File(disk, x) == old(File(disk, x))
    {
      if k in cache {
        var v := cache[k];
        cache := cache - {k};
        OnEvict(k, v);
      }
    }

    /** Adding past the capacity evicts an entry, whichever the policy picks, but never the one added. */
    method MakeRoom(k: K)
      requires Valid() && k !in cache
      modifies this
      ensures Valid() && |cache| < capacity && k !in cache && File(disk, k) == old(File(disk, k))
      ensures forall x :: At(x) == old(At(x))
    {
      if |cache| == capacity {
        assert cache.Keys != {};
        var victim :| victim in cache.Keys;
        CacheRemove(victim);
        assert cache.Keys == old(cache).Keys - {victim};
        assert |cache.Keys| < |old(cache).Keys|;
      }
    }

    method CacheAdd(k: K, v: V)
      requires Valid()
      modifies this
      ensures 0 < capacity && |cache| <= capacity && dirty <= cache.Keys && k in cache && cache[k] == v
      ensures forall x :: x != k && x in cache && x !in dirty ==> x in disk && disk[x] == cache[x]
      ensures forall x :: x != k ==> At(x) == old(At(x))
      ensures k !in old(cache) ==> k !in dirty && File(disk, k) == old(File(disk, k))
    {
      if k in cache {
        cache := cache[k := v];
        assert cache.Keys == old(cache).Keys;
      } else {
        MakeRoom(k);
        ghost var before := cache;
        cache := cache[k := v];
        assert cache.Keys == before.Keys + {k};
      }
    }

    method Get(k: K) returns (v: V)
      requires Valid()
      modifies this
      ensures Valid() && v == old(At(k)) && forall x :: At(x) == old(At(x))
    {
      if k in cache {
        return cache[k];
      }
      if k !in disk {
        return none;
      }
      v := disk[k];
      CacheAdd(k, v);
    }

    method Set(k: K, v: V)
      requires Valid()
      modifies this
      ensures Valid() && At(k) == v && forall x :: x != k ==> At(x) == old(At(x))
    {
      CacheAdd(k, v);
      dirty := dirty + {k};
    }

    /** Leaving the cache with nothing to write back. */
    method Forget(k: K)
      modifies this
      ensures dirty == old(dirty) - {k} && cache == old(cache) - {k} && disk == old(disk)
      ensures |cache| <= old(|cache|)
    {
      dirty := dirty - {k};
      if k in cache {
        var v := cache[k];
        cache := cache - {k};
        assert |cache.Keys| < |old(cache).Keys| by { assert cache.Keys == old(cache).Keys - {k}; }
        OnEvict(k, v);
      }
    }

    method Delete(k: K)
      requires Valid()
      modifies this
      ensures Valid() && At(k) == none && forall x :: x != k ==> At(x) == old(At(x))
    {
      Forget(k);
      disk := disk - {k};
    }

    method Invalidate(k: K)
      requires Valid()
      modifies this
      ensures Valid() && forall x :: At(x) == old(At(x))
    {
      CacheRemove(k);
    }

    method Restore(k: K, v: V)
      requires Valid()
      modifies this
      ensures Valid() && At(k) == v && forall x :: x != k ==> At(x) == old(At(x))
    {
      CacheRemove(k);
      disk := disk[k := v];
    }

    method SaveToDisk(k: K)
      requires Valid()
      modifies this`dirty, this`disk
      ensures Valid() && dirty == old(dirty) - {k} && forall x :: At(x) == old(At(x))
    {
      if k !in dirty {
        return;
      }
      dirty := dirty - {k};
      disk := disk[k := cache[k]];
    }

    /** After a flush the files alone are the map. */
    method FlushAll()
      requires Valid()
      modifies this
      ensures Valid() && dirty == {}
      ensures forall x :: At(x) == old(At(x)) == LookUp(disk, none, x)
    {
      var pending := dirty;
      while pending != {}
        invariant Valid() && dirty == pending && forall x :: At(x) == old(At(x))
        decreases pending
      {
        var k :| k in pending;
        SaveToDisk(k);
        pending := pending - {k};
      }
    }

    /** All entries: the files, overlaid with what is not written yet. */
    method ListAll() returns (all: map<K, V>)
      requires Valid()
      ensures Shows(all) && forall k :: k in all <==> k in disk || k in cache
    {
      all := disk;
      var pending := dirty;
      while pending != {}
        invariant pending <= dirty
        invariant forall k :: File(all, k) == if k in dirty && k !in pending then Some(cache[k]) else File(disk, k)
        decreases pending
      {
        var k :| k in pending;
        all := all[k := cache[k]];
        pending := pending - {k};
      }
    }

    method ServeOne(request: Request<K, V>, ghost m: map<K, V>) returns (answer: V)
      requires Valid() && Shows(m)
      modifies this
      ensures Valid() && Shows(Effect(m, request))
      ensures request.Get? ==> answer == LookUp(m, none, request.key)
    {
      answer := none;
      match request {
        case Get(k) => answer := Get(k);
        case Set(k, v) => Set(k, v);
        case Delete(k) => Delete(k);
        case Invalidate(k) => Invalidate(k);
        case Restore(k, v) => Restore(k, v);
        case FlushAll => FlushAll();
      }
    }

    /** Whatever is asked, in whatever order, and whatever the capacity: the store is the plain map. */
    method Serve(requests: seq<Request<K, V>>, ghost start: map<K, V>) returns (answers: seq<V>)
      requires Valid() && Shows(start)
      modifies this
      ensures Valid() && Shows(Effects(start, requests)) && |answers| == |requests|
      ensures forall i :: 0 <= i < |requests| && requests[i].Get?
                ==> answers[i] == LookUp(Effects(start, requests[..i]), none, requests[i].key)
    {
      answers := [];
      for i := 0 to |requests|
        invariant Valid() && Shows(Effects(start, requests[..i])) && |answers| == i
        invariant forall j :: 0 <= j < i && requests[j].Get?
                    ==> answers[j] == LookUp(Effects(start, requests[..j]), none, requests[j].key)
      {
        EffectsSnoc(start, requests, i);
        var answer := ServeOne(requests[i], Effects(start, requests[..i]));
        answers := answers + [answer];
      }
      assert requests[..|requests|] == requests;
    }
  }
}
