/** Reconciliation of a pair list with the shared data of its string table collection
    (`AudioPairTableEditor`, Editor/Scripts/AudioPairTableEditor.cs). Each operation is a
    linear pass over the pairs; the collection's shared data is passed in. */
module PairSync {
  import opened Wrappers
  import opened Localization
  import opened AudioPairTable
  import Seqs

  /** The predicate `RemovePairsWithUnusedKeyId` keeps: the key id names an entry. */
  function KeyIdInUse(d: SharedData): Pair -> bool {
    (p: Pair) => EntryById(d, p.keyId).Some?
  }

  /** The pairs `RemovePairsWithUnusedKeyId` keeps, in their original order. */
  function KeepUsed(pairs: seq<Pair>, d: SharedData): (r: seq<Pair>)
    ensures forall q :: q in r <==> q in pairs && EntryById(d, q.keyId).Some?
  {
    Seqs.Filter(pairs, KeyIdInUse(d))
  }

  /** `RemovePairsWithUnusedKeyId`: iterates over a copy of the list and removes each pair
      whose key id has no entry, counting the removals. */
  method RemovePairsWithUnusedKeyId(pairs: seq<Pair>, d: SharedData) returns (kept: seq<Pair>, removeCount: nat)
    ensures kept == KeepUsed(pairs, d)
    ensures removeCount == |pairs| - |kept|
  {
    kept := [];
    removeCount := 0;
    var i := 0;
    while i < |pairs|
      invariant 0 <= i <= |pairs|
      invariant kept == Seqs.Filter(pairs[..i], KeyIdInUse(d))
      invariant removeCount == i - |kept|
    {
      var p := pairs[i];
      Seqs.FilterStep(pairs, i, KeyIdInUse(d));
      var entry := EntryById(d, p.keyId);
      if entry.Some? {
        kept := kept + [p];
      } else {
        removeCount := removeCount + 1;
      }
      i := i + 1;
    }
    assert pairs[..|pairs|] == pairs;
  }

  /** The number of positions at which two equally long pair lists differ. */
  function Changed(a: seq<Pair>, b: seq<Pair>): nat
    requires |a| == |b|
  {
    if |a| == 0 then 0
    else Changed(a[..|a| - 1], b[..|b| - 1]) + (if a[|a| - 1] != b[|b| - 1] then 1 else 0)
  }

  /** Extending both lists by one position adds one exactly when the new elements differ. */
  lemma ChangedSnoc(pairs: seq<Pair>, i: nat, updated: seq<Pair>, q: Pair)
    requires i < |pairs| && |updated| == i
    ensures Changed(pairs[..i + 1], updated + [q]) == Changed(pairs[..i], updated) + if pairs[i] != q then 1 else 0
  {
    assert pairs[..i + 1][..i] == pairs[..i] && (updated + [q])[..i] == updated;
  }

  lemma {:induction false} ChangedNone(a: seq<Pair>)
    ensures Changed(a, a) == 0
  {
    if |a| > 0 {
      ChangedNone(a[..|a| - 1]);
    }
  }

  /** One pair as `UpdatePairsKeyByKeyID` leaves it. */
  function RefreshKey(d: SharedData, p: Pair): Pair {
    match EntryById(d, p.keyId)
    case Some(e) => p.(key := e.key)
    case None => p
  }

  /** The list `UpdatePairsKeyByKeyID` produces: a pair whose key id resolves takes that
      entry's key; a pair whose key id does not resolve is untouched; the key id, locale,
      clip, length and order never change. */
  function UpdatedKeys(pairs: seq<Pair>, d: SharedData): (r: seq<Pair>)
    ensures |r| == |pairs|
    ensures forall i :: 0 <= i < |r| ==>
      && r[i].keyId == pairs[i].keyId && r[i].localeId == pairs[i].localeId
      && r[i].audioClip == pairs[i].audioClip
      && r[i].key == match EntryById(d, pairs[i].keyId) case Some(e) => e.key case None => pairs[i].key
  {
    seq(|pairs|, i requires 0 <= i < |pairs| => RefreshKey(d, pairs[i]))
  }

  /** `UpdatePairsKeyByKeyID`: rewrites stale keys in place and counts the pairs whose key
      actually differed. */
  method UpdatePairsKeyByKeyId(pairs: seq<Pair>, d: SharedData) returns (updated: seq<Pair>, updateCount: nat)
    ensures updated == UpdatedKeys(pairs, d)
    ensures updateCount == Changed(pairs, updated)
  {
    updated := [];
    updateCount := 0;
    var i := 0;
    while i < |pairs|
      invariant 0 <= i <= |pairs| && |updated| == i
      invariant forall j :: 0 <= j < i ==> updated[j] == RefreshKey(d, pairs[j])
      invariant updateCount == Changed(pairs[..i], updated)
    {
      var p := pairs[i];
      var entry := EntryById(d, p.keyId);
      var q := p;
      if entry.Some? && p.key != entry.value.key {
        q := p.(key := entry.value.key);
        updateCount := updateCount + 1;
      }
      ChangedSnoc(pairs, i, updated, q);
      updated := updated + [q];
      i := i + 1;
    }
    assert pairs[..|pairs|] == pairs;
  }

  /** One pair as `UpdatePairsKeyIdByKey` leaves it. */
  function RefreshKeyId(d: SharedData, p: Pair): Pair {
    match EntryByKey(d, p.key)
    case Some(e) => p.(keyId := e.id)
    case None => p
  }

  /** The list `UpdatePairsKeyIdByKey` produces: symmetric to `UpdatedKeys`, a pair whose
      key names an entry takes that entry's id and every other field stays. */
  function UpdatedKeyIds(pairs: seq<Pair>, d: SharedData): (r: seq<Pair>)
    ensures |r| == |pairs|
    ensures forall i :: 0 <= i < |r| ==>
      && r[i].key == pairs[i].key && r[i].localeId == pairs[i].localeId
      && r[i].audioClip == pairs[i].audioClip
      && r[i].keyId == match EntryByKey(d, pairs[i].key) case Some(e) => e.id case None => pairs[i].keyId
  {
    seq(|pairs|, i requires 0 <= i < |pairs| => RefreshKeyId(d, pairs[i]))
  }

  /** `UpdatePairsKeyIdByKey`: rewrites stale key ids in place and counts the pairs whose
      key id actually differed. */
  method UpdatePairsKeyIdByKey(pairs: seq<Pair>, d: SharedData) returns (updated: seq<Pair>, updateCount: nat)
    ensures updated == UpdatedKeyIds(pairs, d)
    ensures updateCount == Changed(pairs, updated)
  {
    updated := [];
    updateCount := 0;
    var i := 0;
    while i < |pairs|
      invariant 0 <= i <= |pairs| && |updated| == i
      invariant forall j :: 0 <= j < i ==> updated[j] == RefreshKeyId(d, pairs[j])
      invariant updateCount == Changed(pairs[..i], updated)
    {
      var p := pairs[i];
      var entry := EntryByKey(d, p.key);
      var q := p;
      if entry.Some? && p.keyId != entry.value.id {
        q := p.(keyId := entry.value.id);
        updateCount := updateCount + 1;
      }
      ChangedSnoc(pairs, i, updated, q);
      updated := updated + [q];
      i := i + 1;
    }
    assert pairs[..|pairs|] == pairs;
  }

  /** A second key refresh changes nothing and counts no update. */
  lemma UpdateKeysIdempotent(pairs: seq<Pair>, d: SharedData)
    ensures UpdatedKeys(UpdatedKeys(pairs, d), d) == UpdatedKeys(pairs, d)
    ensures Changed(UpdatedKeys(pairs, d), UpdatedKeys(UpdatedKeys(pairs, d), d)) == 0
  {
    var once := UpdatedKeys(pairs, d);
    assert UpdatedKeys(once, d) == once;
    ChangedNone(once);
  }

  /** A second key-id refresh changes nothing and counts no update. */
  lemma UpdateKeyIdsIdempotent(pairs: seq<Pair>, d: SharedData)
    ensures UpdatedKeyIds(UpdatedKeyIds(pairs, d), d) == UpdatedKeyIds(pairs, d)
    ensures Changed(UpdatedKeyIds(pairs, d), UpdatedKeyIds(UpdatedKeyIds(pairs, d), d)) == 0
  {
    var once := UpdatedKeyIds(pairs, d);
    assert UpdatedKeyIds(once, d) == once;
    ChangedNone(once);
  }

  /** The pair list after `Sync`: unused key ids removed, then keys refreshed. Afterwards
      every pair's key id names an entry and its key is that entry's key, and every pair
      whose key id was in use is still there with only its key refreshed. */
  function SyncPairs(pairs: seq<Pair>, d: SharedData): (r: seq<Pair>)
    ensures forall q :: q in r ==> EntryById(d, q.keyId).Some? && EntryById(d, q.keyId).value.key == q.key
    ensures forall q :: q in pairs && EntryById(d, q.keyId).Some? ==> q.(key := EntryById(d, q.keyId).value.key) in r
  {
    var kept := KeepUsed(pairs, d);
    var r := UpdatedKeys(kept, d);
    assert forall i :: 0 <= i < |kept| ==> kept[i] in kept;
    UpdatedKeysRefreshEach(kept, d);
    r
  }

  /** When every key id resolves, each pair reappears with its entry's key. */
  lemma UpdatedKeysRefreshEach(pairs: seq<Pair>, d: SharedData)
    requires forall q :: q in pairs ==> EntryById(d, q.keyId).Some?
    ensures forall q :: q in pairs ==> q.(key := EntryById(d, q.keyId).value.key) in UpdatedKeys(pairs, d)
  {
    var r := UpdatedKeys(pairs, d);
    forall q | q in pairs ensures q.(key := EntryById(d, q.keyId).value.key) in r {
      var i :| 0 <= i < |pairs| && pairs[i] == q;
      assert r[i] == q.(key := EntryById(d, q.keyId).value.key);
    }
  }

  /** `Sync`: `RemovePairsWithUnusedKeyId` followed by `UpdatePairsKeyByKeyID`. */
  method Sync(pairs: seq<Pair>, d: SharedData) returns (synced: seq<Pair>)
    ensures synced == SyncPairs(pairs, d)
  {
    var kept, removeCount := RemovePairsWithUnusedKeyId(pairs, d);
    var updateCount;
    synced, updateCount := UpdatePairsKeyByKeyId(kept, d);
  }

  /** `Sync` is idempotent: a second run leaves the list unchanged. */
  lemma SyncIdempotent(pairs: seq<Pair>, d: SharedData)
    ensures SyncPairs(SyncPairs(pairs, d), d) == SyncPairs(pairs, d)
  {
    var s := SyncPairs(pairs, d);
    assert forall q :: q in s ==> KeyIdInUse(d)(q);
    Seqs.FilterKeepsAll(s, KeyIdInUse(d));
    assert UpdatedKeys(s, d) == s;
  }

  /** With unique ids and keys, a synced list is also consistent the other way round:
      refreshing key ids from keys afterwards changes nothing. */
  lemma SyncAgreesWithKeyIds(pairs: seq<Pair>, d: SharedData)
    requires Valid(d)
    ensures UpdatedKeyIds(SyncPairs(pairs, d), d) == SyncPairs(pairs, d)
  {
    var s := SyncPairs(pairs, d);
    forall i | 0 <= i < |s| ensures RefreshKeyId(d, s[i]) == s[i] {
      assert s[i] in s;
      var e := EntryById(d, s[i].keyId).value;
      KeyLookupInvertsId(d, e);
    }
  }

  /** `SyncAll`: syncs every audio pair table against the shared data of the collection it
      names. For a table naming a collection that does not exist, the source dereferences
      the missing collection inside its loops over the pairs: a table without pairs passes
      unchanged, while a table with pairs throws. The run stops at the first such table
      (`failedAt`): the tables before it stay synced, and it and the rest are untouched. One table's pairs never affect another's. */
  method SyncAll(tables: seq<Table>, collections: map<string, SharedData>) returns (r: seq<Table>, failedAt: Option<nat>)
    ensures |r| == |tables|
    ensures failedAt.Some? ==> && failedAt.value < |tables|
                               && tables[failedAt.value].tableCollectionName !in collections
                               && |tables[failedAt.value].pairMap| > 0
    ensures var done := if failedAt.Some? then failedAt.value else |tables|;
      && (forall i :: 0 <= i < done ==> tables[i].tableCollectionName in collections || |tables[i].pairMap| == 0)
      && (forall i :: 0 <= i < done ==> r[i] == SyncedTable(tables[i], collections))
      && (forall i :: done <= i < |tables| ==> r[i] == tables[i])
  {
    r := tables;
    failedAt := None;
    var i := 0;
    while i < |tables|
      invariant 0 <= i <= |tables| && |r| == |tables|
      invariant failedAt.None?
      invariant forall j :: 0 <= j < i ==> tables[j].tableCollectionName in collections || |tables[j].pairMap| == 0
      invariant forall j :: 0 <= j < i ==> r[j] == SyncedTable(tables[j], collections)
      invariant forall j :: i <= j < |tables| ==> r[j] == tables[j]
    {
      var t := tables[i];
      if t.tableCollectionName in collections {
        var synced := Sync(t.pairMap, collections[t.tableCollectionName]);
        assert t.(pairMap := synced) == SyncedTable(t, collections);
        r := r[i := t.(pairMap := synced)];
      } else if |t.pairMap| > 0 {
        failedAt := Some(i);
        return;
      }
      i := i + 1;
    }
  }

  /** One table as `SyncAll` leaves it when it does not throw: synced against its
      collection, or, without a collection, unchanged (it then has no pairs). */
  function SyncedTable(t: Table, collections: map<string, SharedData>): (r: Table)
    ensures r.tableCollectionName == t.tableCollectionName
    ensures t.tableCollectionName in collections ==>
      forall q :: q in r.pairMap ==> && EntryById(collections[t.tableCollectionName], q.keyId).Some?
                                     && EntryById(collections[t.tableCollectionName], q.keyId).value.key == q.key
    ensures t.tableCollectionName !in collections ==> r == t
  {
    if t.tableCollectionName in collections then t.(pairMap := SyncPairs(t.pairMap, collections[t.tableCollectionName]))
    else t
  }
}
