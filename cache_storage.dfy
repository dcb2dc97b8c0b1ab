/**
 * The default cache storage: a per-source manifest of cached parse results,
 * kept in a key-value adapter. The manifest of a data source lives under the
 * hash of the source's name; each entry names the file it caches, the key of
 * the stored body (the hash of the file's contents) and an expiry time.
 */
module CacheStorage {
  import opened Wrappers
  import opened Strings

  /** What the adapter holds under a key: a manifest, or a cached body. */
  datatype Stored = Manifest(entries: seq<ManifestEntry>) | Body(data: string)

  datatype ManifestEntry = ManifestEntry(expiration: int, cacheData: string, sourceFile: string)

  type Adapter = map<string, Stored>

  /** The TTL the storage is built with when none is given, in seconds. */
  const DefaultTtl: int := 3600

  /** A serialized manifest is never empty; a body is as truthy as its text. */
  predicate Truthy(v: Stored) {
    v.Manifest? || IsTruthy(v.data)
  }

  /** The adapter's fetch: the stored value, or false when the key is absent. */
  function Lookup(a: Adapter, k: string): (r: Option<Stored>)
    ensures r.Some? <==> k in a
  {
    if k in a then Some(a[k]) else None
  }

  /** There is a usable manifest under the key. */
  predicate HasManifest(a: Adapter, k: string) {
    k in a && Truthy(a[k])
  }

  /** The entries of a fetched manifest; anything else unserializes to no entries. */
  function EntriesOf(v: Option<Stored>): seq<ManifestEntry> {
    if v.Some? && v.value.Manifest? then v.value.entries else []
  }

  /** The entries of the manifest stored under a key that `exists` accepts, else none. */
  function ManifestOf(a: Adapter, k: string): seq<ManifestEntry> {
    if HasManifest(a, k) then EntriesOf(Lookup(a, k)) else []
  }

  // ---------------------------------------------------------------------------
  // fetch

  /** The position of the first entry that caches the given file. */
  function FirstMatch(es: seq<ManifestEntry>, path: string): (r: Option<nat>)
    ensures r.Some? ==> r.value < |es| && es[r.value].sourceFile == path
    ensures r.Some? ==> forall j :: 0 <= j < r.value ==> es[j].sourceFile != path
    ensures r.None? <==> forall j :: 0 <= j < |es| ==> es[j].sourceFile != path
    decreases |es|
  {
    if es == [] then None
    else if es[0].sourceFile == path then Some(0)
    else
      match FirstMatch(es[1..], path)
      case None => None
      case Some(i) => assert es[1..][i] == es[i + 1]; Some(i + 1)
  }

  /** The manifest without its entry at `i`. */
  function Without(es: seq<ManifestEntry>, i: nat): (r: seq<ManifestEntry>)
    requires i < |es|
    ensures |r| == |es| - 1
    ensures forall j :: 0 <= j < i ==> r[j] == es[j]
    ensures forall j :: i <= j < |r| ==> r[j] == es[j + 1]
  {
    es[..i] + es[i + 1..]
  }

  /**
   * The cached body for a matching entry: none when the entry has expired,
   * when the file has changed since, or when the body is gone or empty.
   */
  function Response(a: Adapter, e: ManifestEntry, now: int, fileHash: string): Option<Stored> {
    if e.expiration < now || e.cacheData != fileHash then None
    else if e.cacheData in a && Truthy(a[e.cacheData]) then Some(a[e.cacheData])
    else None
  }

  /** A manifest written back: saved while it has entries, deleted once it has none. */
  function ManifestSaved(a: Adapter, k: string, es: seq<ManifestEntry>): (r: Adapter)
    ensures |es| > 0 ==> k in r && r[k] == Manifest(es)
    ensures |es| == 0 ==> k !in r
    ensures forall j :: j != k ==> (j in r <==> j in a) && (j in a ==> r[j] == a[j])
  {
    if |es| > 0 then a[k := Manifest(es)] else a - {k}
  }

  /** What fetch returns, and the adapter it leaves. */
  function Fetched(a: Adapter, k: string, path: string, now: int, fileHash: string): (Option<Stored>, Adapter) {
    if !HasManifest(a, k) then (None, a)
    else
      var es := ManifestOf(a, k);
      match FirstMatch(es, path)
      case None => (None, a)
      case Some(i) =>
        var response := Response(a, es[i], now, fileHash);
        if response.None? then (None, ManifestSaved(a, k, Without(es, i))) else (response, a)
  }

  /** When no entry caches the file, fetch returns nothing and changes nothing. */
  lemma FetchMissChangesNothing(a: Adapter, k: string, path: string, now: int, fileHash: string)
    requires forall e :: e in ManifestOf(a, k) ==> e.sourceFile != path
    ensures Fetched(a, k, path, now, fileHash) == (None, a)
  {
  }

  /**
   * A stale hit (expired, changed since, or body gone) returns nothing and
   * removes exactly the first matching entry: the manifest is saved with the
   * others, or deleted when none remain; every other key keeps its value.
   */
  lemma FetchStaleRemovesEntry(a: Adapter, k: string, path: string, now: int, fileHash: string, i: nat)
    requires HasManifest(a, k) && FirstMatch(ManifestOf(a, k), path) == Some(i)
    requires var e := ManifestOf(a, k)[i];
      e.expiration < now || e.cacheData != fileHash || e.cacheData !in a || !Truthy(a[e.cacheData])
    ensures var es := ManifestOf(a, k);
      var (response, a') := Fetched(a, k, path, now, fileHash);
      && response.None?
      && (|es| > 1 ==> k in a' && a'[k] == Manifest(Without(es, i)))
      && (|es| == 1 ==> k !in a')
      && forall j :: j != k ==> (j in a' <==> j in a) && (j in a ==> a'[j] == a[j])
  {
  }

  /** A fresh hit returns the stored body and leaves the adapter as it was. */
  lemma FetchHitKeepsAdapter(a: Adapter, k: string, path: string, now: int, fileHash: string, i: nat)
    requires HasManifest(a, k) && FirstMatch(ManifestOf(a, k), path) == Some(i)
    requires var e := ManifestOf(a, k)[i];
      !(e.expiration < now) && e.cacheData == fileHash && e.cacheData in a && Truthy(a[e.cacheData])
    ensures Fetched(a, k, path, now, fileHash) == (Some(a[fileHash]), a)
  {
  }

  // ---------------------------------------------------------------------------
  // cache

  predicate Expired(e: ManifestEntry, now: int) {
    e.expiration < now
  }

  /** The entries cache keeps: unexpired ones for other files, in their order. */
  function Kept(es: seq<ManifestEntry>, now: int, path: string): seq<ManifestEntry>
    decreases |es|
  {
    if es == [] then []
    else
      var last := es[|es| - 1];
      Kept(es[..|es| - 1], now, path) + (if !Expired(last, now) && last.sourceFile != path then [last] else [])
  }

  lemma KeptSnoc(es: seq<ManifestEntry>, e: ManifestEntry, now: int, path: string)
    ensures Kept(es + [e], now, path) == Kept(es, now, path) + (if !Expired(e, now) && e.sourceFile != path then [e] else [])
  {
    assert (es + [e])[..|es|] == es;
  }

  /** Exactly the unexpired entries for other files are kept, and no more entries than there were. */
  lemma {:induction false} KeptMembers(es: seq<ManifestEntry>, now: int, path: string)
    ensures |Kept(es, now, path)| <= |es|
    ensures forall e :: e in Kept(es, now, path) <==> e in es && !Expired(e, now) && e.sourceFile != path
    decreases |es|
  {
    if es != [] {
      var init := es[..|es| - 1];
      assert es == init + [es[|es| - 1]];
      KeptMembers(init, now, path);
    }
  }

  /** Filtering commutes with concatenation, so the kept entries stay in their original order. */
  lemma {:induction false} KeptAppend(xs: seq<ManifestEntry>, ys: seq<ManifestEntry>, now: int, path: string)
    ensures Kept(xs + ys, now, path) == Kept(xs, now, path) + Kept(ys, now, path)
    decreases |ys|
  {
    if ys != [] {
      var init := ys[..|ys| - 1];
      var last := ys[|ys| - 1];
      assert ys == init + [last];
      assert xs + ys == (xs + init) + [last];
      KeptAppend(xs, init, now, path);
      KeptSnoc(xs + init, last, now, path);
      KeptSnoc(init, last, now, path);
    } else {
      assert xs + ys == xs;
    }
  }

  /** The body keys of the unexpired entries cached for the file: their bodies are deleted. */
  function Dropped(es: seq<ManifestEntry>, now: int, path: string): set<string>
    decreases |es|
  {
    if es == [] then {}
    else
      var last := es[|es| - 1];
      Dropped(es[..|es| - 1], now, path) + (if !Expired(last, now) && last.sourceFile == path then {last.cacheData} else {})
  }

  lemma DroppedSnoc(es: seq<ManifestEntry>, e: ManifestEntry, now: int, path: string)
    ensures Dropped(es + [e], now, path) == Dropped(es, now, path) + (if !Expired(e, now) && e.sourceFile == path then {e.cacheData} else {})
  {
    assert (es + [e])[..|es|] == es;
  }

  /** A body is dropped exactly when some unexpired entry for the file names it. */
  lemma {:induction false} DroppedMembers(es: seq<ManifestEntry>, now: int, path: string)
    ensures forall e :: e in es && !Expired(e, now) && e.sourceFile == path ==> e.cacheData in Dropped(es, now, path)
    ensures forall d :: d in Dropped(es, now, path) ==> exists e :: e in es && !Expired(e, now) && e.sourceFile == path && e.cacheData == d
    decreases |es|
  {
    if es != [] {
      var init := es[..|es| - 1];
      assert es == init + [es[|es| - 1]];
      DroppedMembers(init, now, path);
    }
  }

  /** Deleting keys one at a time deletes their union. */
  lemma RemoveOneMore(a: Adapter, d: set<string>, c: string)
    ensures (a - d) - {c} == a - (d + {c})
  {
  }

  /** The entry cache appends for the file. */
  function NewEntry(now: int, ttl: int, fileHash: string, path: string): ManifestEntry {
    ManifestEntry(now + ttl, fileHash, path)
  }

  /** The adapter after cache: old bodies of the file deleted, the manifest rewritten, the body saved. */
  function Cached(a: Adapter, k: string, path: string, now: int, ttl: int, fileHash: string, ast: string): Adapter {
    var es := ManifestOf(a, k);
    (a - Dropped(es, now, path))[k := Manifest(Kept(es, now, path) + [NewEntry(now, ttl, fileHash, path)])][fileHash := Body(ast)]
  }

  /**
   * After cache the body is stored under the file hash and, unless the two
   * keys collide, the manifest holds no expired entry except possibly the
   * new one, exactly one entry for the file, last, and every other
   * unexpired entry; every previous body of the file is gone.
   */
  lemma CachedManifest(a: Adapter, k: string, path: string, now: int, ttl: int, fileHash: string, ast: string)
    requires k != fileHash
    ensures var a' := Cached(a, k, path, now, ttl, fileHash, ast);
      var es := ManifestOf(a, k);
      && fileHash in a' && a'[fileHash] == Body(ast)
      && k in a' && a'[k].Manifest?
      && var m := a'[k].entries;
      && |m| >= 1 && m[|m| - 1] == NewEntry(now, ttl, fileHash, path)
      && m[..|m| - 1] == Kept(es, now, path)
      && (forall i :: 0 <= i < |m| - 1 ==> !Expired(m[i], now) && m[i].sourceFile != path)
      && (forall e :: e in es && !Expired(e, now) && e.sourceFile != path ==> e in m)
      && (forall e :: e in es && !Expired(e, now) && e.sourceFile == path && e.cacheData != k && e.cacheData != fileHash ==> e.cacheData !in a')
  {
    var es := ManifestOf(a, k);
    var kept := Kept(es, now, path);
    KeptMembers(es, now, path);
    DroppedMembers(es, now, path);
    var m := kept + [NewEntry(now, ttl, fileHash, path)];
    assert m[..|m| - 1] == kept;
    forall i | 0 <= i < |m| - 1
      ensures !Expired(m[i], now) && m[i].sourceFile != path
    {
      assert m[i] in kept;
    }
  }

  // ---------------------------------------------------------------------------
  // delete

  /**
   * The body keys delete clears: the truthy cacheData of the entries that are
   * present in the adapter, each counted once.
   */
  function Cleared(es: seq<ManifestEntry>, a: Adapter): set<string>
    decreases |es|
  {
    if es == [] then {}
    else
      var c := es[|es| - 1].cacheData;
      Cleared(es[..|es| - 1], a) + (if IsTruthy(c) && c in a then {c} else {})
  }

  lemma ClearedSnoc(es: seq<ManifestEntry>, e: ManifestEntry, a: Adapter)
    ensures Cleared(es + [e], a) == Cleared(es, a) + (if IsTruthy(e.cacheData) && e.cacheData in a then {e.cacheData} else {})
  {
    assert (es + [e])[..|es|] == es;
  }

  /** A body is cleared exactly when it is stored, truthy, and named by some entry. */
  lemma {:induction false} ClearedMembers(es: seq<ManifestEntry>, a: Adapter)
    ensures forall d :: d in Cleared(es, a) <==> d in a && IsTruthy(d) && exists e :: e in es && e.cacheData == d
    decreases |es|
  {
    if es != [] {
      var init := es[..|es| - 1];
      assert es == init + [es[|es| - 1]];
      ClearedMembers(init, a);
    }
  }

  /** No more bodies are cleared than the manifest has entries. */
  lemma {:induction false} ClearedBound(es: seq<ManifestEntry>, a: Adapter)
    ensures |Cleared(es, a)| <= |es|
    decreases |es|
  {
    if es != [] {
      ClearedBound(es[..|es| - 1], a);
    }
  }

  class DefaultCacheStorage {
    const maxlifetime: int
    /** The hash of a data source's name. */
    const sha1: string -> string
    var adapter: Adapter
    var entries: Option<Stored>
    var key: string

    constructor (adapter: Adapter, sha1: string -> string, ttl: int := DefaultTtl)
      ensures this.adapter == adapter && maxlifetime == ttl && this.sha1 == sha1
      ensures entries == None && key == ""
    {
      this.adapter := adapter;
      maxlifetime := ttl;
      this.sha1 := sha1;
      entries := None;
      key := "";
    }

    /** The adapter's delete: true when something was stored under the key. */
    method AdapterDelete(k: string) returns (deleted: bool)
      modifies this`adapter
      ensures deleted <==> k in old(adapter)
      ensures adapter == old(adapter) - {k}
    {
      deleted := k in adapter;
      adapter := adapter - {k};
    }

    /** The manifest key of the source is remembered with the fetched manifest. */
    method Exists(source: string) returns (b: bool)
      modifies this`key, this`entries
      ensures key == sha1(source) && entries == Lookup(adapter, key)
      ensures b <==> HasManifest(adapter, key)
    {
      key := sha1(source);
      entries := Lookup(adapter, key);
      b := entries.Some? && Truthy(entries.value);
    }

    /** The cached body for a file, or none; a stale entry is removed from the manifest. */
    method Fetch(source: string, path: string, now: int, fileHash: string) returns (response: Option<Stored>)
      modifies this`key, this`entries, this`adapter
      ensures key == sha1(source) && entries == Lookup(old(adapter), key)
      ensures (response, adapter) == Fetched(old(adapter), key, path, now, fileHash)
    {
      var ok := Exists(source);
      if !ok {
        return None;
      }
      var es := EntriesOf(entries);
      var manifest: Option<ManifestEntry> := None;
      var index := 0;
      while index < |es|
        invariant 0 <= index <= |es|
        invariant manifest.None?
        invariant forall j :: 0 <= j < index ==> es[j].sourceFile != path
      {
        if es[index].sourceFile == path {
          manifest := Some(es[index]);
          break;
        }
        index := index + 1;
      }
      if manifest.None? {
        return None;
      }
      assert FirstMatch(es, path) == Some(index);
      var entry := manifest.value;
      if entry.expiration < now || entry.cacheData != fileHash {
        response := None;
      } else {
        response := Lookup(adapter, entry.cacheData);
        if !(response.Some? && Truthy(response.value)) {
          response := None;
        }
      }
      if response.None? {
        var rest := es[..index] + es[index + 1..];
        if |rest| > 0 {
          adapter := adapter[key := Manifest(rest)];
        } else {
          var _ := AdapterDelete(key);
        }
      }
    }

    /** One step of the pruning pass: the body of an unexpired entry for the file is deleted. */
    method PruneEntry(ghost base: Adapter, ghost done: seq<ManifestEntry>, entry: ManifestEntry, now: int, path: string)
      requires adapter == base - Dropped(done, now, path)
      modifies this`adapter
      ensures adapter == base - Dropped(done + [entry], now, path)
    {
      DroppedSnoc(done, entry, now, path);
      if !(entry.expiration < now) && entry.sourceFile == path {
        RemoveOneMore(base, Dropped(done, now, path), entry.cacheData);
        var _ := AdapterDelete(entry.cacheData);
      }
    }

    /**
     * The pruning pass of cache: expired entries are left out, the bodies of
     * the file's unexpired entries are deleted, the others are kept in order.
     */
    method Prune(all: seq<ManifestEntry>, now: int, path: string) returns (kept: seq<ManifestEntry>)
      modifies this`adapter
      ensures kept == Kept(all, now, path)
      ensures adapter == old(adapter) - Dropped(all, now, path)
    {
      kept := [];
      var i := 0;
      while i < |all|
        invariant 0 <= i <= |all|
        invariant kept == Kept(all[..i], now, path)
        invariant adapter == old(adapter) - Dropped(all[..i], now, path)
      {
        var entry := all[i];
        assert all[..i + 1] == all[..i] + [entry];
        KeptSnoc(all[..i], entry, now, path);
        PruneEntry(old(adapter), all[..i], entry, now, path);
        if !(entry.expiration < now) && entry.sourceFile != path {
          kept := kept + [entry];
        }
        i := i + 1;
      }
      assert all[..i] == all;
    }

    /** Cache a file's parse: the manifest is pruned and extended, and the body saved. */
    method Cache(source: string, path: string, now: int, fileHash: string, ast: string)
      modifies this`key, this`entries, this`adapter
      ensures key == sha1(source) && entries == Lookup(old(adapter), key)
      ensures adapter == Cached(old(adapter), key, path, now, maxlifetime, fileHash, ast)
    {
      var ok := Exists(source);
      var kept: seq<ManifestEntry> := [];
      if ok {
        kept := Prune(EntriesOf(entries), now, path);
      } else {
        assert adapter == old(adapter) - Dropped([], now, path);
      }
      kept := kept + [NewEntry(now, maxlifetime, fileHash, path)];
      adapter := adapter[key := Manifest(kept)];
      adapter := adapter[fileHash := Body(ast)];
    }

    /** One step of the clearing pass: the entry's body key is deleted when truthy. */
    method ClearBody(ghost base: Adapter, ghost done: seq<ManifestEntry>, entry: ManifestEntry) returns (deleted: bool)
      requires adapter == base - Cleared(done, base)
      modifies this`adapter
      ensures adapter == base - Cleared(done + [entry], base)
      ensures |Cleared(done + [entry], base)| == |Cleared(done, base)| + (if deleted then 1 else 0)
    {
      ClearedSnoc(done, entry, base);
      deleted := false;
      if IsTruthy(entry.cacheData) {
        RemoveOneMore(base, Cleared(done, base), entry.cacheData);
        deleted := AdapterDelete(entry.cacheData);
        if deleted {
          assert entry.cacheData in base && entry.cacheData !in Cleared(done, base);
          assert |Cleared(done, base) + {entry.cacheData}| == |Cleared(done, base)| + 1;
        } else {
          assert Cleared(done + [entry], base) == Cleared(done, base);
        }
      }
    }

    /** The clearing pass of delete: each truthy body key is deleted; the number deleted. */
    method ClearBodies(all: seq<ManifestEntry>) returns (cleared: nat)
      modifies this`adapter
      ensures cleared == |Cleared(all, old(adapter))| && cleared <= |all|
      ensures adapter == old(adapter) - Cleared(all, old(adapter))
    {
      cleared := 0;
      var i := 0;
      while i < |all|
        invariant 0 <= i <= |all|
        invariant adapter == old(adapter) - Cleared(all[..i], old(adapter))
        invariant cleared == |Cleared(all[..i], old(adapter))|
      {
        assert all[..i + 1] == all[..i] + [all[i]];
        var deleted := ClearBody(old(adapter), all[..i], all[i]);
        if deleted {
          cleared := cleared + 1;
        }
        i := i + 1;
      }
      assert all[..i] == all;
      ClearedBound(all, old(adapter));
    }

    /** Delete a source's cached bodies and its manifest; the number of bodies deleted. */
    method Delete(source: string) returns (cleared: nat)
      modifies this`key, this`entries, this`adapter
      ensures key == sha1(source) && entries == Lookup(old(adapter), key)
      ensures !HasManifest(old(adapter), key) ==> cleared == 0 && adapter == old(adapter)
      ensures HasManifest(old(adapter), key) ==>
        var gone := Cleared(ManifestOf(old(adapter), key), old(adapter));
        && cleared == |gone| && cleared <= |ManifestOf(old(adapter), key)|
        && adapter == old(adapter) - gone - {key}
    {
      cleared := 0;
      var ok := Exists(source);
      if ok {
        cleared := ClearBodies(EntriesOf(entries));
        var _ := AdapterDelete(key);
      }
    }

    /** Purge every cache entry of a data source: delete with only the source given. */
    method Purge(source: string) returns (cleared: nat)
      modifies this`key, this`entries, this`adapter
      ensures key == sha1(source) && entries == Lookup(old(adapter), key)
      ensures !HasManifest(old(adapter), key) ==> cleared == 0 && adapter == old(adapter)
      ensures HasManifest(old(adapter), key) ==>
        var gone := Cleared(ManifestOf(old(adapter), key), old(adapter));
        && cleared == |gone| && cleared <= |ManifestOf(old(adapter), key)|
        && adapter == old(adapter) - gone - {key}
    {
      cleared := Delete(source);
    }
  }
}
