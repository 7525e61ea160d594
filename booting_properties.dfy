/**
 * What the boot scripts' configuration bookkeeping guarantees: the disable
 * loop touches only the listed caches that are set, it fails exactly on a
 * set entry PHP cannot write a key into, it saves what it overwrites, and
 * merging the saved copies back restores every key the original entries had.
 */
module BootingProperties {
  import opened Optional
  import opened PhpArrays
  import opened Booting

  /** Ids that are not listed, or not set, keep their configuration and their saved copy. */
  lemma {:induction false} DisableCachesLeavesOthers(s: CacheState, ids: seq<string>, k: Key)
    requires forall id :: id in ids ==> StrKey(id) != k || !IsSet(Lookup(s.configurations, k))
    ensures var r := DisableCaches(s, ids).state;
      Lookup(r.configurations, k) == Lookup(s.configurations, k) && Lookup(r.early, k) == Lookup(s.early, k)
    decreases |ids|
  {
    if |ids| > 0 {
      var r := DisableCache(s, ids[0]);
      assert DisableCaches(s, ids) == if r.outcome.IllegalOffset? then r else DisableCaches(r.state, ids[1..]);
      assert Lookup(r.state.configurations, k) == Lookup(s.configurations, k) && Lookup(r.state.early, k) == Lookup(s.early, k) by {
        DisableCacheEffect(s, ids[0]);
        if StrKey(ids[0]) == k { assert !IsSet(Lookup(s.configurations, k)); }
      }
      if r.outcome.Done? {
        forall id | id in ids[1..] ensures StrKey(id) != k || !IsSet(Lookup(r.state.configurations, k)) {
          assert id in ids;
        }
        DisableCachesLeavesOthers(r.state, ids[1..], k);
      }
    }
  }

  /** Every listed cache that is set holds a value PHP can write a key into. */
  ghost predicate AllWritable(configurations: seq<Entry>, ids: seq<string>) {
    forall id :: id in ids && IsSet(Lookup(configurations, StrKey(id))) ==>
      WritableArray(Lookup(configurations, StrKey(id))).Some?
  }

  /** Overwriting one cache with an array keeps the writability of the listed caches. */
  lemma AllWritableAfterWrite(c0: seq<Entry>, c1: seq<Entry>, id0: string, ids: seq<string>)
    requires forall k :: k != StrKey(id0) ==> Lookup(c1, k) == Lookup(c0, k)
    requires Lookup(c1, StrKey(id0)).Some? && Lookup(c1, StrKey(id0)).value.Arr?
    requires IsSet(Lookup(c0, StrKey(id0))) ==> WritableArray(Lookup(c0, StrKey(id0))).Some?
    ensures AllWritable(c1, ids) <==> AllWritable(c0, ids)
  {
    forall id | id in ids && id != id0 ensures Lookup(c1, StrKey(id)) == Lookup(c0, StrKey(id)) {
    }
  }

  /** One turn of the loop either fails on its id or leaves the rest of the loop to the remaining ids. */
  lemma DisableCachesUnfold(s: CacheState, ids: seq<string>)
    requires |ids| > 0
    ensures var r0 := DisableCache(s, ids[0]);
      DisableCaches(s, ids) == if r0.outcome.IllegalOffset? then r0 else DisableCaches(r0.state, ids[1..])
  {
  }

  /** The loop finishes exactly when every listed cache that is set is writable. */
  lemma {:induction false} DisableCachesDone(s: CacheState, ids: seq<string>)
    ensures DisableCaches(s, ids).outcome.Done? <==> AllWritable(s.configurations, ids)
    decreases |ids|
  {
    if |ids| > 0 {
      var id0, tail := ids[0], ids[1..];
      var r0 := DisableCache(s, id0);
      DisableCachesUnfold(s, ids);
      var c0 := s.configurations;
      var current := Lookup(c0, StrKey(id0));
      assert AllWritable(c0, ids) <==> (IsSet(current) ==> WritableArray(current).Some?) && AllWritable(c0, tail) by {
        assert forall id :: id in ids <==> id == id0 || id in tail;
      }
      if !IsSet(current) {
        assert r0 == DisableResult(s, Done) by { DisableCacheEffect(s, id0); }
        DisableCachesDone(s, tail);
      } else if WritableArray(current).Some? {
        var c1 := r0.state.configurations;
        assert r0.outcome.Done? && Lookup(c1, StrKey(id0)).Some? && Lookup(c1, StrKey(id0)).value.Arr? &&
               forall k :: k != StrKey(id0) ==> Lookup(c1, k) == Lookup(c0, k) by {
          DisableCacheEffect(s, id0);
        }
        DisableCachesDone(r0.state, tail);
        AllWritableAfterWrite(c0, c1, id0, tail);
      } else {
        assert r0.outcome.IllegalOffset? by { DisableCacheEffect(s, id0); }
      }
    }
  }

  /** A failure names a listed cache that is set and holds a scalar PHP cannot write a key into. */
  lemma {:induction false} DisableCachesFailure(s: CacheState, ids: seq<string>)
    ensures var r := DisableCaches(s, ids);
      r.outcome.IllegalOffset? ==>
        var key := StrKey(r.outcome.cacheId);
        r.outcome.cacheId in ids && IsSet(Lookup(s.configurations, key)) && WritableArray(Lookup(s.configurations, key)).None?
    decreases |ids|
  {
    if |ids| > 0 {
      var id0, tail := ids[0], ids[1..];
      var r0 := DisableCache(s, id0);
      DisableCachesUnfold(s, ids);
      DisableCacheEffect(s, id0);
      if r0.outcome.Done? {
        DisableCachesFailure(r0.state, tail);
        var r := DisableCaches(r0.state, tail);
        if r.outcome.IllegalOffset? {
          var id := r.outcome.cacheId;
          assert id in ids;
          if id != id0 {
            assert Lookup(r0.state.configurations, StrKey(id)) == Lookup(s.configurations, StrKey(id));
          }
        }
      }
    }
  }

  /** Every listed id that was set is saved as it was and holds its disabled form afterwards. */
  lemma {:induction false} DisableCachesSavesAndDisables(s: CacheState, ids: seq<string>, id: string)
    requires DistinctIds(ids) && id in ids
    requires IsSet(Lookup(s.configurations, StrKey(id)))
    requires DisableCaches(s, ids).outcome.Done?
    ensures var r := DisableCaches(s, ids).state;
      var original := Lookup(s.configurations, StrKey(id));
      && Lookup(r.early, StrKey(id)) == original
      && WritableArray(original).Some?
      && Lookup(r.configurations, StrKey(id)) == Some(Arr(DisabledEntry(WritableArray(original).value)))
    decreases |ids|
  {
    DisableCacheEffect(s, ids[0]);
    var r0 := DisableCache(s, ids[0]);
    var tail := ids[1..];
    if ids[0] == id {
      assert id !in tail by {
        forall j | 0 <= j < |tail| ensures tail[j] != id { assert tail[j] == ids[j + 1]; }
      }
      DisableCachesLeavesOthers(r0.state, tail, StrKey(id));
    } else {
      assert id in tail;
      assert DistinctIds(tail) by {
        forall i, j | 0 <= i < j < |tail| ensures tail[i] != tail[j] { assert tail[i] == ids[i + 1] && tail[j] == ids[j + 1]; }
      }
      DisableCachesSavesAndDisables(r0.state, tail, id);
    }
  }

  /** The disable loop keeps both configuration arrays well formed. */
  lemma {:induction false} DisableCachesWellFormed(s: CacheState, ids: seq<string>)
    requires WellFormed(Arr(s.configurations)) && WellFormed(Arr(s.early))
    ensures var r := DisableCaches(s, ids).state;
      WellFormed(Arr(r.configurations)) && WellFormed(Arr(r.early))
    decreases |ids|
  {
    if |ids| > 0 {
      var key := StrKey(ids[0]);
      if Lookup(s.configurations, key).Some? {
        LookupWellFormed(s.configurations, key);
      }
      DisableCachesWellFormed(DisableCache(s, ids[0]).state, ids[1..]);
    }
  }

  /**
   * Merging an entry back over its disabled form restores every key the
   * entry had; keys it lacked keep the values the disable wrote.
   */
  lemma ReplaceRecursiveUndoesDisable(original: seq<Entry>, k: Key)
    requires WellFormed(Arr(original))
    ensures Lookup(ReplaceRecursive(DisabledEntry(original), original), k) ==
            if HasKey(original, k) then Lookup(original, k) else Lookup(DisabledEntry(original), k)
  {
    var disabled := DisabledEntry(original);
    LookupReplaceRecursive(disabled, original, k);
    var v := Lookup(original, k);
    if v.Some? && v.value.Arr? {
      LookupWellFormed(original, k);
      if k == OptionsKey {
        ReplaceRecursiveIntoEmpty(v.value.entries);
      } else if k != BackendKey {
        ReplaceRecursiveSelf(v.value.entries);
      }
    }
  }

  /**
   * The merge cannot remove a key: a cache configured without a backend
   * keeps the fake database backend the disable gave it.
   */
  lemma RoundTripKeepsFakeBackend(original: seq<Entry>)
    requires WellFormed(Arr(original)) && !HasKey(original, BackendKey)
    ensures Lookup(ReplaceRecursive(DisabledEntry(original), original), BackendKey) == Some(Str(FakeDatabaseBackend))
  {
    ReplaceRecursiveUndoesDisable(original, BackendKey);
  }

  /**
   * The round trip: after disabling the listed caches and merging the saved
   * copies back, a cache that held an array has every one of its keys back
   * at its original value, and one that held another set value has it back
   * exactly.
   */
  lemma DisableThenReEnableRestores(s: CacheState, ids: seq<string>, id: string, k: Key)
    requires WellFormed(Arr(s.configurations)) && WellFormed(Arr(s.early)) && DistinctIds(ids)
    requires id in ids && IsSet(Lookup(s.configurations, StrKey(id)))
    requires DisableCaches(s, ids).outcome.Done?
    ensures var d := DisableCaches(s, ids).state;
      var restored := Lookup(ReplaceRecursive(d.configurations, d.early), StrKey(id));
      var original := Lookup(s.configurations, StrKey(id)).value;
      && restored.Some?
      && (!original.Arr? ==> restored.value == original)
      && (original.Arr? ==>
            restored.value.Arr? &&
            Lookup(restored.value.entries, k) ==
              if HasKey(original.entries, k) then Lookup(original.entries, k)
              else Lookup(DisabledEntry(original.entries), k))
  {
    var d := DisableCaches(s, ids).state;
    var key := StrKey(id);
    DisableCachesSavesAndDisables(s, ids, id);
    DisableCachesWellFormed(s, ids);
    LookupReplaceRecursive(d.configurations, d.early, key);
    var original := Lookup(s.configurations, key).value;
    if original.Arr? {
      LookupWellFormed(s.configurations, key);
      ReplaceRecursiveUndoesDisable(original.entries, k);
    }
  }

  /** Re-enabling leaves every id that was never saved as it is. */
  lemma ReEnableKeepsUnsaved(s: CacheState, k: Key)
    requires DistinctKeys(s.early) && !HasKey(s.early, k)
    ensures Lookup(ReplaceRecursive(s.configurations, s.early), k) == Lookup(s.configurations, k)
  {
    LookupReplaceRecursive(s.configurations, s.early, k);
  }

  /** The five object-management caches are listed once each. */
  lemma ObjectManagementCacheIdsDistinct()
    ensures DistinctIds(ObjectManagementCacheIds)
  {
  }

  /**
   * The boot sequence's own round trip: `DisableCachesForObjectManagement`
   * over the five object-management caches, then the merge that
   * `ReEnableOriginalCoreCaches` performs, gives each of those caches back
   * its original configuration, whenever the loop can write into all of them.
   */
  lemma ObjectManagementRoundTrip(s: CacheState, id: string, k: Key)
    requires WellFormed(Arr(s.configurations)) && WellFormed(Arr(s.early))
    requires id in ObjectManagementCacheIds && IsSet(Lookup(s.configurations, StrKey(id)))
    requires AllWritable(s.configurations, ObjectManagementCacheIds)
    ensures var d := DisableCaches(s, ObjectManagementCacheIds).state;
      var restored := Lookup(ReplaceRecursive(d.configurations, d.early), StrKey(id));
      var original := Lookup(s.configurations, StrKey(id)).value;
      && restored.Some?
      && (!original.Arr? ==> restored.value == original)
      && (original.Arr? ==>
            restored.value.Arr? &&
            Lookup(restored.value.entries, k) ==
              if HasKey(original.entries, k) then Lookup(original.entries, k)
              else Lookup(DisabledEntry(original.entries), k))
  {
    ObjectManagementCacheIdsDistinct();
    DisableCachesDone(s, ObjectManagementCacheIds);
    DisableThenReEnableRestores(s, ObjectManagementCacheIds, id, k);
  }

  /** Filtering commutes with concatenation: kept entries stay in their order. */
  lemma {:induction false} FilterOverriddenConcat(a: seq<Entry>, b: seq<Entry>)
    ensures FilterOverridden(a + b) == FilterOverridden(a) + FilterOverridden(b)
  {
    if a != [] {
      assert (a + b)[1..] == a[1..] + b;
      FilterOverriddenConcat(a[1..], b);
    } else {
      assert a + b == b;
    }
  }

  /** Filtering twice removes nothing more. */
  lemma {:induction false} FilterOverriddenIdempotent(es: seq<Entry>)
    ensures FilterOverridden(FilterOverridden(es)) == FilterOverridden(es)
  {
    if es != [] {
      var head := if Overridden(es[0].value) then [] else [es[0]];
      FilterOverriddenConcat(head, FilterOverridden(es[1..]));
      FilterOverriddenIdempotent(es[1..]);
    }
  }
}
