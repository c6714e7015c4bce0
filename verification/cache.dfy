/**
 The result cache (`CacheManager`) as a state machine: the cache directory
 is a map from cache key to the stored entry, `metadata.json` a second map
 from cache key to its bookkeeping, and time an integer clock in which the
 TTL is measured. `CachedAnalyzer.analyze_repo` is the decision rule on top.

 The MD5 digest of the key string is a parameter; disk and JSON failures
 are not modelled.
 */
module Cache {
  import opened Common
  import opened Strings

  // ---------------------------------------------------------------------
  // get_cache_key
  // ---------------------------------------------------------------------

  /** The string `get_cache_key` hashes: `repo:commit` for a truthy commit hash, the name alone otherwise. */
  function KeyString(repoName: string, commitHash: Option<string>): string
  {
    if commitHash.Some? && commitHash.value != "" then repoName + ":" + commitHash.value else repoName
  }

  /** `hashlib.md5(key_string.encode()).hexdigest()`, with the digest as a parameter. */
  function CacheKey(md5: string -> string, repoName: string, commitHash: Option<string>): string
  {
    md5(KeyString(repoName, commitHash))
  }

  /** The commit hash as `if commit_hash:` reads it: None and the empty string both mean none. */
  function Truthy(commitHash: Option<string>): Option<string>
  {
    if commitHash.Some? && commitHash.value != "" then commitHash else None
  }

  /**
   For repository names without a colon (`owner/repo` never has one) the key
   string determines the name and the truthy commit hash, so distinct
   requests hash distinct strings; None and "" coincide.
   */
  lemma KeyStringInjective(r1: string, c1: Option<string>, r2: string, c2: Option<string>)
    requires ':' !in r1 && ':' !in r2
    ensures KeyString(r1, c1) == KeyString(r2, c2) <==> r1 == r2 && Truthy(c1) == Truthy(c2)
  {
    KeyColon(r1, c1);
    KeyColon(r2, c2);
    var k1 := KeyString(r1, c1);
    var k2 := KeyString(r2, c2);
    if k1 == k2 && Truthy(c1).Some? && Truthy(c2).Some? {
      assert k1 == r1 + [':'] + c1.value && k2 == r2 + [':'] + c2.value;
      FindFirst(r1, ':', c1.value);
      FindFirst(r2, ':', c2.value);
      assert r1 == k1[..|r1|] && r2 == k2[..|r2|];
      assert c1.value == k1[|r1| + 1..] && c2.value == k2[|r2| + 1..];
    }
  }

  /** The key string holds a colon exactly when a truthy commit hash was appended. */
  lemma KeyColon(repoName: string, commitHash: Option<string>)
    requires ':' !in repoName
    ensures ':' in KeyString(repoName, commitHash) <==> Truthy(commitHash).Some?
  {
    if Truthy(commitHash).Some? {
      assert KeyString(repoName, commitHash)[|repoName|] == ':';
    }
  }

  // ---------------------------------------------------------------------
  // The state
  // ---------------------------------------------------------------------

  /** `<key>.json`: `{timestamp, repo_name, commit_hash, data}`. */
  datatype Entry<D> = Entry(timestamp: int, repoName: string, commitHash: Option<string>, data: D)

  /** `metadata[key]`: `{repo_name, commit_hash, timestamp}`. */
  datatype Info = Info(repoName: string, commitHash: Option<string>, timestamp: int)

  /** A cache directory with its TTL, its entry files and its metadata file. */
  datatype CacheManager<D> = CacheManager(ttl: int, files: map<string, Entry<D>>, metadata: map<string, Info>)

  /** `__init__` on a fresh directory: no entry and `{}` as metadata. */
  function New<D>(ttl: int): (c: CacheManager<D>)
    ensures Consistent(c) && c.ttl == ttl
  {
    CacheManager(ttl, map[], map[])
  }

  /** `datetime.now() - cached_time > timedelta(hours=ttl_hours)`: strictly older than the TTL. */
  predicate Expired(ttl: int, timestamp: int, now: int)
  {
    now - timestamp > ttl
  }

  /** Every entry file has its metadata, with the same name, commit and time, and vice versa. */
  predicate Consistent<D>(c: CacheManager<D>)
  {
    c.files.Keys == c.metadata.Keys
    && forall k :: k in c.files ==>
         c.metadata[k] == Info(c.files[k].repoName, c.files[k].commitHash, c.files[k].timestamp)
  }

  // ---------------------------------------------------------------------
  // Operations
  // ---------------------------------------------------------------------

  /** `delete`: the entry file if present, then `_remove_from_metadata`. */
  function Delete<D>(c: CacheManager<D>, md5: string -> string, repoName: string, commitHash: Option<string>): (r: CacheManager<D>)
    ensures Consistent(c) ==> Consistent(r)
  {
    var key := CacheKey(md5, repoName, commitHash);
    CacheManager(c.ttl, c.files - {key}, c.metadata - {key})
  }

  /** `set`: the entry file, then `_update_metadata`, both stamped `now`. */
  function Set<D>(c: CacheManager<D>, md5: string -> string, repoName: string, data: D, commitHash: Option<string>, now: int): (r: CacheManager<D>)
    ensures Consistent(c) ==> Consistent(r)
  {
    var key := CacheKey(md5, repoName, commitHash);
    CacheManager(c.ttl, c.files[key := Entry(now, repoName, commitHash, data)], c.metadata[key := Info(repoName, commitHash, now)])
  }

  /**
   `get`: nothing without an entry file; an entry older than the TTL is
   deleted and reads as nothing; otherwise its data.
   */
  function Get<D>(c: CacheManager<D>, md5: string -> string, repoName: string, commitHash: Option<string>, now: int): (out: (Option<D>, CacheManager<D>))
    ensures Consistent(c) ==> Consistent(out.1)
  {
    var key := CacheKey(md5, repoName, commitHash);
    if key !in c.files then (None, c)
    else if Expired(c.ttl, c.files[key].timestamp, now) then (None, Delete(c, md5, repoName, commitHash))
    else (Some(c.files[key].data), c)
  }

  /** `clear_all`: every entry file goes and the metadata is `{}` again. */
  function ClearAll<D>(c: CacheManager<D>): (r: CacheManager<D>)
    ensures r == New(c.ttl)
  {
    CacheManager(c.ttl, map[], map[])
  }

  /** The keys `clear_expired` removes: those whose metadata is older than the TTL. */
  function ExpiredKeys<D>(c: CacheManager<D>, now: int): set<string>
  {
    set k | k in c.metadata && Expired(c.ttl, c.metadata[k].timestamp, now)
  }

  /**
   `clear_expired`: walking the metadata, each expired key's entry file is
   removed and the key collected; the collected keys then leave the
   metadata.
   */
  method ClearExpired<D>(c: CacheManager<D>, now: int) returns (r: CacheManager<D>)
    ensures r.ttl == c.ttl
    ensures r.files == c.files - ExpiredKeys(c, now)
    ensures r.metadata == c.metadata - ExpiredKeys(c, now)
  {
    var expired: set<string> := {};
    var pending := c.metadata.Keys;
    var files := c.files;
    while pending != {}
      invariant pending <= c.metadata.Keys
      invariant forall k :: k in expired <==> k in c.metadata && k !in pending && Expired(c.ttl, c.metadata[k].timestamp, now)
      invariant files == c.files - expired
      decreases |pending|
    {
      var key :| key in pending;
      if Expired(c.ttl, c.metadata[key].timestamp, now) {
        files := files - {key};
        expired := expired + {key};
      }
      pending := pending - {key};
    }
    assert expired == ExpiredKeys(c, now);
    r := CacheManager(c.ttl, files, c.metadata - expired);
  }

  // ---------------------------------------------------------------------
  // Properties of the operations
  // ---------------------------------------------------------------------

  /** Without an entry file `get` reads nothing and changes nothing. */
  lemma GetMissing<D>(c: CacheManager<D>, md5: string -> string, repoName: string, commitHash: Option<string>, now: int)
    requires CacheKey(md5, repoName, commitHash) !in c.files
    ensures Get(c, md5, repoName, commitHash, now) == (None, c)
  {
  }

  /**
   What was stored at time `t` reads back at any time `t'` with
   `t' - t <= ttl`, an entry exactly TTL old included; once older it reads
   as nothing and both its file and its metadata are gone.
   */
  lemma SetThenGet<D>(c: CacheManager<D>, md5: string -> string, repoName: string, data: D, commitHash: Option<string>, t: int, t': int)
    ensures var s := Set(c, md5, repoName, data, commitHash, t);
      var key := CacheKey(md5, repoName, commitHash);
      var out := Get(s, md5, repoName, commitHash, t');
      && (t' - t <= c.ttl ==> out == (Some(data), s))
      && (t' - t > c.ttl ==> out.0 == None && key !in out.1.files && key !in out.1.metadata)
  {
  }

  /** A request with the same name and the same truthy commit hash reads what was stored, whatever the digest. */
  lemma SetThenGetAlias<D>(
    c: CacheManager<D>, md5: string -> string, repoName: string, data: D,
    c1: Option<string>, c2: Option<string>, t: int, t': int)
    requires Truthy(c1) == Truthy(c2) && t' - t <= c.ttl
    ensures Get(Set(c, md5, repoName, data, c1, t), md5, repoName, c2, t').0 == Some(data)
  {
    assert KeyString(repoName, c1) == KeyString(repoName, c2);
  }

  /** `delete` removes that key's entry file and metadata and leaves every other key as it was. */
  lemma DeleteOnly<D>(c: CacheManager<D>, md5: string -> string, repoName: string, commitHash: Option<string>, other: string)
    ensures var r := Delete(c, md5, repoName, commitHash);
      var key := CacheKey(md5, repoName, commitHash);
      && key !in r.files && key !in r.metadata
      && (other != key ==>
            (other in r.files <==> other in c.files) && (other in r.files ==> r.files[other] == c.files[other])
            && (other in r.metadata <==> other in c.metadata) && (other in r.metadata ==> r.metadata[other] == c.metadata[other]))
  {
  }

  /** After `clear_all` every request reads nothing. */
  lemma ClearAllEmpties<D>(c: CacheManager<D>, md5: string -> string, repoName: string, commitHash: Option<string>, now: int)
    ensures Get(ClearAll(c), md5, repoName, commitHash, now) == (None, ClearAll(c))
  {
  }

  /**
   `clear_expired` keeps exactly the entries a `get` at the same time would
   still return: on a consistent cache it preserves consistency and no
   request reads differently afterwards.
   */
  lemma ClearExpiredInvisible<D>(c: CacheManager<D>, md5: string -> string, repoName: string, commitHash: Option<string>, now: int)
    requires Consistent(c)
    ensures var r := CacheManager(c.ttl, c.files - ExpiredKeys(c, now), c.metadata - ExpiredKeys(c, now));
      && Consistent(r)
      && (forall k :: k in r.files ==> !Expired(c.ttl, r.files[k].timestamp, now))
      && Get(r, md5, repoName, commitHash, now).0 == Get(c, md5, repoName, commitHash, now).0
  {
    var key := CacheKey(md5, repoName, commitHash);
    if key in c.files {
      assert c.metadata[key].timestamp == c.files[key].timestamp;
    }
  }

  /** A key leaves in `clear_expired` exactly when its metadata is older than the TTL. */
  lemma ClearExpiredExact<D>(c: CacheManager<D>, now: int, k: string)
    ensures var r := CacheManager(c.ttl, c.files - ExpiredKeys(c, now), c.metadata - ExpiredKeys(c, now));
      && (k in r.files <==> k in c.files && !(k in c.metadata && Expired(c.ttl, c.metadata[k].timestamp, now)))
      && (k in r.metadata <==> k in c.metadata && !Expired(c.ttl, c.metadata[k].timestamp, now))
  {
  }

  // ---------------------------------------------------------------------
  // CachedAnalyzer.analyze_repo
  // ---------------------------------------------------------------------

  /**
   `analyze_repo`: unless forced, a truthy cached value is the answer;
   otherwise the analyzer runs (the clock reading `later` when it is done)
   and a truthy result is stored. `truthy` is Python's truth value of the
   data (`None` and `{}` are false).
   */
  function AnalyzeRepo<D>(
    c: CacheManager<D>, md5: string -> string, repoName: string, commitHash: Option<string>, force: bool,
    analyze: string -> D, truthy: D -> bool, now: int, later: int): (out: (D, CacheManager<D>))
    ensures Consistent(c) ==> Consistent(out.1)
  {
    var (cached, c1) := if force then (None, c) else Get(c, md5, repoName, commitHash, now);
    if cached.Some? && truthy(cached.value) then (cached.value, c1)
    else
      var result := analyze(repoName);
      if truthy(result) then (result, Set(c1, md5, repoName, result, commitHash, later)) else (result, c1)
  }

  /** On a hit the analyzer is not consulted: any analyzer gives the same answer and the same cache. */
  lemma AnalyzeRepoHit<D>(
    c: CacheManager<D>, md5: string -> string, repoName: string, commitHash: Option<string>,
    analyze1: string -> D, analyze2: string -> D, truthy: D -> bool, now: int, later: int)
    requires Get(c, md5, repoName, commitHash, now).0.Some?
    requires truthy(Get(c, md5, repoName, commitHash, now).0.value)
    ensures AnalyzeRepo(c, md5, repoName, commitHash, false, analyze1, truthy, now, later)
         == AnalyzeRepo(c, md5, repoName, commitHash, false, analyze2, truthy, now, later)
    ensures AnalyzeRepo(c, md5, repoName, commitHash, false, analyze1, truthy, now, later).0
         == Get(c, md5, repoName, commitHash, now).0.value
  {
  }

  /**
   Otherwise the answer is the analyzer's, and it is in the cache afterwards
   exactly when it is truthy.
   */
  lemma AnalyzeRepoMiss<D>(
    c: CacheManager<D>, md5: string -> string, repoName: string, commitHash: Option<string>, force: bool,
    analyze: string -> D, truthy: D -> bool, now: int, later: int)
    requires force || Get(c, md5, repoName, commitHash, now).0.None? || !truthy(Get(c, md5, repoName, commitHash, now).0.value)
    ensures var out := AnalyzeRepo(c, md5, repoName, commitHash, force, analyze, truthy, now, later);
      var key := CacheKey(md5, repoName, commitHash);
      && out.0 == analyze(repoName)
      && (truthy(out.0) ==> key in out.1.files && out.1.files[key] == Entry(later, repoName, commitHash, out.0))
      && (!truthy(out.0) ==> out.1 == (if force then c else Get(c, md5, repoName, commitHash, now).1))
  {
  }

  /**
   A truthy answer the analyzer gave is remembered: asking again, unforced,
   within the TTL of the time it was stored gives the same answer without
   running any analyzer.
   */
  lemma AnalyzeRepoMemo<D>(
    c: CacheManager<D>, md5: string -> string, repoName: string, commitHash: Option<string>, force: bool,
    analyze: string -> D, again: string -> D, truthy: D -> bool, now: int, later: int, next: int, after: int)
    requires force || Get(c, md5, repoName, commitHash, now).0.None? || !truthy(Get(c, md5, repoName, commitHash, now).0.value)
    requires next - later <= c.ttl
    requires truthy(AnalyzeRepo(c, md5, repoName, commitHash, force, analyze, truthy, now, later).0)
    ensures var first := AnalyzeRepo(c, md5, repoName, commitHash, force, analyze, truthy, now, later);
      AnalyzeRepo(first.1, md5, repoName, commitHash, false, again, truthy, next, after).0 == first.0
  {
    var first := AnalyzeRepo(c, md5, repoName, commitHash, force, analyze, truthy, now, later);
    var c1 := if force then c else Get(c, md5, repoName, commitHash, now).1;
    SetThenGet(c1, md5, repoName, first.0, commitHash, later, next);
  }
}
