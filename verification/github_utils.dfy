/**
 The pure decisions of the GitHub client: how many files a repository of a
 given size may contribute, how a `usuario/repo` slug is read out of user
 input or a URL, how the collection loop stops at the cap, and how the
 primary language's metrics are merged into the report's defaults.

 Everything that talks to GitHub (listing directories, downloading and
 decoding files, rate-limit waits) is an input here: the order in which the
 traversal meets files is a sequence, and a file that cannot be read or
 decoded carries no content.
 */
module GithubUtils {
  import opened Common
  import opened Strings
  import Dict
  import LanguageBase
  import Factory

  // ---------------------------------------------------------------------
  // _get_max_files_limit with the defaults of _cargar_config
  // ---------------------------------------------------------------------

  /** `config['github']['file_limits']`: tier name to `{max_files, threshold_kb}`. */
  type FileLimits = seq<(string, seq<(string, int)>)>

  /** `limits.get(tier, {}).get(field, default)`. */
  function Setting(limits: FileLimits, tier: string, field: string, default: int): int
  {
    Dict.GetOr(Dict.GetOr(limits, tier, []), field, default)
  }

  /** The four tiers once every missing setting has taken its default. */
  datatype Tiers = Tiers(
    veryLargeThreshold: int, veryLargeMax: int,
    largeThreshold: int, largeMax: int,
    mediumThreshold: int, mediumMax: int,
    smallMax: int)

  function Resolve(limits: FileLimits): Tiers
  {
    Tiers(
      Setting(limits, "very_large_repos", "threshold_kb", 100000), Setting(limits, "very_large_repos", "max_files", 20),
      Setting(limits, "large_repos", "threshold_kb", 50000), Setting(limits, "large_repos", "max_files", 40),
      Setting(limits, "medium_repos", "threshold_kb", 10000), Setting(limits, "medium_repos", "max_files", 80),
      Setting(limits, "small_repos", "max_files", 150))
  }

  /** The cap for a size: the first tier, largest first, whose threshold the size strictly exceeds. */
  function Cap(t: Tiers, sizeKb: int): int
  {
    if sizeKb > t.veryLargeThreshold then t.veryLargeMax
    else if sizeKb > t.largeThreshold then t.largeMax
    else if sizeKb > t.mediumThreshold then t.mediumMax
    else t.smallMax
  }

  /** `_get_max_files_limit`. */
  function MaxFilesLimit(limits: FileLimits, sizeKb: int): int
  {
    Cap(Resolve(limits), sizeKb)
  }

  /** The configuration `_cargar_config` falls back to when `config.yaml` cannot be read. */
  const FallbackLimits: FileLimits := [
    ("small_repos", [("max_files", 150), ("threshold_kb", 0)]),
    ("medium_repos", [("max_files", 80), ("threshold_kb", 10000)]),
    ("large_repos", [("max_files", 40), ("threshold_kb", 50000)]),
    ("very_large_repos", [("max_files", 20), ("threshold_kb", 100000)])]

  /** The cap of the default tables, by strict comparison with each threshold. */
  function DefaultCap(sizeKb: int): int
  {
    if sizeKb > 100000 then 20 else if sizeKb > 50000 then 40 else if sizeKb > 10000 then 80 else 150
  }

  /**
   The fallback configuration and an empty one give the same caps: 20 above
   100000 KB, 40 above 50000, 80 above 10000, 150 otherwise; a size equal to
   a threshold falls in the tier below it.
   */
  lemma DefaultLimits(sizeKb: int)
    ensures MaxFilesLimit(FallbackLimits, sizeKb) == DefaultCap(sizeKb)
    ensures MaxFilesLimit([], sizeKb) == DefaultCap(sizeKb)
  {
    FallbackTiers();
    EmptyTiers();
    DefaultTiersCap(FallbackLimits, sizeKb);
    DefaultTiersCap([], sizeKb);
  }

  lemma DefaultTiersCap(limits: FileLimits, sizeKb: int)
    requires Resolve(limits) == Tiers(100000, 20, 50000, 40, 10000, 80, 150)
    ensures MaxFilesLimit(limits, sizeKb) == DefaultCap(sizeKb)
  {
  }

  /** The fallback tables spelt out: each setting equals the default its lookup names. */
  lemma FallbackTiers()
    ensures Resolve(FallbackLimits) == Tiers(100000, 20, 50000, 40, 10000, 80, 150)
  {
    var d := FallbackLimits;
    assert Dict.DistinctKeys(d) by {
      assert d[0].0[0] == 's' && d[1].0[0] == 'm' && d[2].0[0] == 'l' && d[3].0[0] == 'v';
    }
    TierSettings(d, 0, 150, 0);
    TierSettings(d, 1, 80, 10000);
    TierSettings(d, 2, 40, 50000);
    TierSettings(d, 3, 20, 100000);
  }

  /** The settings of a tier written out in full are the ones it gives. */
  lemma TierSettings(limits: FileLimits, i: nat, maxFiles: int, threshold: int)
    requires Dict.DistinctKeys(limits) && i < |limits|
    requires limits[i].1 == [("max_files", maxFiles), ("threshold_kb", threshold)]
    ensures forall default :: Setting(limits, limits[i].0, "max_files", default) == maxFiles
    ensures forall default :: Setting(limits, limits[i].0, "threshold_kb", default) == threshold
  {
    Dict.GetAt(limits, i);
    Fields(maxFiles, threshold);
  }

  /** Looking up both fields of one tier. */
  lemma Fields(maxFiles: int, threshold: int)
    ensures var tier := [("max_files", maxFiles), ("threshold_kb", threshold)];
      Dict.Get(tier, "max_files") == Some(maxFiles) && Dict.Get(tier, "threshold_kb") == Some(threshold)
  {
    assert "threshold_kb"[0] != "max_files"[0];
    Dict.GetHead("max_files", maxFiles, [("threshold_kb", threshold)]);
    Dict.GetTail("max_files", maxFiles, [("threshold_kb", threshold)], "threshold_kb");
    Dict.GetHead("threshold_kb", threshold, []);
    assert [("threshold_kb", threshold)] == [("threshold_kb", threshold)] + [];
    assert [("max_files", maxFiles), ("threshold_kb", threshold)] == [("max_files", maxFiles)] + [("threshold_kb", threshold)];
  }

  /** Without a configuration every lookup takes its default. */
  lemma EmptyTiers()
    ensures Resolve([]) == Tiers(100000, 20, 50000, 40, 10000, 80, 150)
  {
    var none: FileLimits := [];
    assert forall tier: string :: !Dict.HasKey(none, tier);
  }

  /** Tiers whose thresholds rise while their caps fall. */
  predicate Graded(t: Tiers)
  {
    t.mediumThreshold <= t.largeThreshold <= t.veryLargeThreshold
    && t.veryLargeMax <= t.largeMax <= t.mediumMax <= t.smallMax
  }

  /** With graded tiers, a larger repository never gets a larger cap. */
  lemma CapMonotone(limits: FileLimits, smaller: int, larger: int)
    requires Graded(Resolve(limits)) && smaller <= larger
    ensures MaxFilesLimit(limits, larger) <= MaxFilesLimit(limits, smaller)
  {
  }

  /** The fallback tiers are graded. */
  lemma FallbackGraded()
    ensures Graded(Resolve(FallbackLimits)) && Graded(Resolve([]))
  {
    FallbackTiers();
    EmptyTiers();
  }

  // ---------------------------------------------------------------------
  // extraer_usuario_repo: re.search(r'github\.com/([^/]+/[^/]+)/?$', s)
  // ---------------------------------------------------------------------

  const Host: string := "github.com/"

  /** Owner and repository names as the pattern's `[^/]+` admits them. */
  predicate Names(owner: string, name: string)
  {
    |owner| > 0 && |name| > 0 && '/' !in owner && '/' !in name
  }

  /** What `/?$` lets follow the names: nothing, a slash, or a slash and the final newline `$` tolerates. */
  predicate Trailer(t: string)
  {
    t == "" || t == "/" || t == "/\n"
  }

  /**
   The group the pattern captures when the part after `github.com/` starts
   at the beginning of `rest`, or none: the owner runs to the first slash,
   the name to the next slash or the end, and only a trailer may follow.
   */
  function OwnerRepo(rest: string): Option<string>
  {
    var j := Find(rest, '/');
    if j <= 0 then None else NameAfter(rest[..j], rest[j + 1..])
  }

  /** The second half of a capture, given the owner and the text after its slash. */
  function NameAfter(owner: string, after: string): Option<string>
  {
    var k := Find(after, '/');
    var name := if k < 0 then after else after[..k];
    var tail := if k < 0 then "" else after[k..];
    if |name| > 0 && Trailer(tail) then Some(owner + "/" + name) else None
  }

  /** The name is the text up to the next slash, and a trailer is all that follows it. */
  lemma NameAfterParts(owner: string, after: string) returns (name: string, t: string)
    requires NameAfter(owner, after).Some?
    ensures |name| > 0 && '/' !in name && Trailer(t)
    ensures after == name + t && NameAfter(owner, after).value == owner + "/" + name
  {
    var k := Find(after, '/');
    name := if k < 0 then after else after[..k];
    t := if k < 0 then "" else after[k..];
    assert forall i :: 0 <= i < |name| ==> name[i] == after[i];
  }

  /** A capture splits its text into owner, name and trailer. */
  lemma OwnerRepoParts(rest: string) returns (owner: string, name: string, t: string)
    requires OwnerRepo(rest).Some?
    ensures Names(owner, name) && Trailer(t)
    ensures rest == owner + "/" + name + t && OwnerRepo(rest).value == owner + "/" + name
  {
    var j := Find(rest, '/');
    owner := rest[..j];
    var after := rest[j + 1..];
    assert OwnerRepo(rest) == NameAfter(owner, after) && '/' !in owner && rest == owner + "/" + after by {
      assert forall i :: 0 <= i < |owner| ==> owner[i] == rest[i];
      CutAt(rest, j);
      assert rest[j..j + 1] == "/";
    }
    name, t := NameAfterParts(owner, after);
    Glue(rest, owner, after, name, t);
  }

  lemma Glue(rest: string, owner: string, after: string, name: string, t: string)
    requires rest == owner + "/" + after && after == name + t
    ensures rest == owner + "/" + name + t
  {
  }

  lemma CutAt(s: string, j: nat)
    requires j < |s|
    ensures s == s[..j] + s[j..j + 1] + s[j + 1..]
  {
  }

  /** Conversely, owner and name followed by a trailer are captured as `owner/name`. */
  lemma OwnerRepoOf(owner: string, name: string, t: string)
    requires Names(owner, name) && Trailer(t)
    ensures OwnerRepo(owner + "/" + name + t) == Some(owner + "/" + name)
  {
    var rest := owner + "/" + name + t;
    assert rest == owner + "/" + (name + t);
    FindFirst(owner, '/', name + t);
    assert rest[..|owner|] == owner && rest[|owner| + 1..] == name + t;
    NameAfterOf(owner, name, t);
  }

  /**
   A final newline with no slash before it is not a trailer: `[^/]+` takes it,
   and `$` then matches at the very end, so it stays in the captured name.
   */
  lemma NewlineStaysInName(owner: string, name: string)
    requires Names(owner, name)
    ensures OwnerRepo(owner + "/" + name + "\n") == Some(owner + "/" + name + "\n")
  {
    var n := name + "\n";
    assert '/' !in n by {
      assert forall c :: c in n ==> c in name || c == '\n';
    }
    assert owner + "/" + name + "\n" == owner + "/" + n + "";
    assert owner + "/" + name + "\n" == owner + "/" + n;
    OwnerRepoOf(owner, n, "");
  }

  lemma NameAfterOf(owner: string, name: string, t: string)
    requires |name| > 0 && '/' !in name && Trailer(t)
    ensures NameAfter(owner, name + t) == Some(owner + "/" + name)
  {
    var after := name + t;
    if t == "" {
      assert after == name;
      assert forall i :: 0 <= i < |after| ==> after[i] != '/';
    } else {
      FindFirst(name, '/', t[1..]);
      assert after == name + "/" + t[1..];
      assert after[..|name|] == name && after[|name|..] == t;
    }
  }

  /** `github.com/` occurs in `s` at position `p`. */
  predicate HostAt(s: string, p: nat)
  {
    p + |Host| <= |s| && s[p..p + |Host|] == Host
  }

  /** The leftmost position from `p` on where `github.com/` starts a capture. */
  function Search(s: string, p: nat): Option<string>
    decreases |s| - p
  {
    if p > |s| then None
    else if HostAt(s, p) && OwnerRepo(s[p + |Host|..]).Some? then OwnerRepo(s[p + |Host|..])
    else Search(s, p + 1)
  }

  /** `extraer_usuario_repo`. */
  function ExtraerUsuarioRepo(input: string): Result<string>
  {
    if '/' in input && !Contains(input, "github.com") then Ok(input)
    else
      match Search(input, 0)
      case Some(slug) => Ok(slug)
      case None => Err("ValueError: Formato inválido. Use 'usuario/repo' o una URL de GitHub válida")
  }

  /** The input is returned as it is exactly when it holds a slash and no `github.com`. */
  predicate PassedThrough(input: string)
  {
    '/' in input && !Contains(input, "github.com")
  }

  /** A capture found from `p` on sits at some position `q >= p` right after `github.com/`. */
  lemma SearchFound(s: string, p: nat) returns (q: nat)
    requires Search(s, p).Some?
    ensures p <= q && HostAt(s, q)
    ensures OwnerRepo(s[q + |Host|..]) == Search(s, p)
  {
    q := SearchReaches(s, p);
    SearchHere(s, q);
  }

  /** The search stops at the first position from `p` on that starts a capture. */
  lemma {:induction false} SearchReaches(s: string, p: nat) returns (q: nat)
    requires Search(s, p).Some?
    ensures p <= q <= |s| && Captures(s, q) && Search(s, q) == Search(s, p)
    decreases |s| - p
  {
    assert p <= |s|;
    if Captures(s, p) {
      q := p;
    } else {
      SearchNext(s, p);
      q := SearchReaches(s, p + 1);
    }
  }

  /** At a position that starts a capture, the search returns it. */
  lemma SearchHere(s: string, p: nat)
    requires p <= |s| && Captures(s, p)
    ensures HostAt(s, p) && Search(s, p) == OwnerRepo(s[p + |Host|..])
  {
  }

  /** `github.com/` at `p` starts a capture. */
  predicate Captures(s: string, p: nat)
  {
    HostAt(s, p) && OwnerRepo(s[p + |Host|..]).Some?
  }

  /** Past a position that starts no capture, the search goes on from the next one. */
  lemma SearchNext(s: string, p: nat)
    requires p <= |s| && !Captures(s, p)
    ensures Search(s, p) == Search(s, p + 1)
  {
  }

  /** What a successful search finds: `owner/name` right after a `github.com/` that only a trailer follows. */
  lemma SearchShape(s: string) returns (owner: string, name: string, t: string)
    requires Search(s, 0).Some?
    ensures Names(owner, name) && Trailer(t) && Search(s, 0).value == owner + "/" + name
    ensures EndsWith(s, Host + (owner + "/" + name) + t)
  {
    var q := SearchFound(s, 0);
    owner, name, t := CaptureAt(s, q);
  }

  /** A capture right after `github.com/` at `q` runs to the end of the input. */
  lemma CaptureAt(s: string, q: nat) returns (owner: string, name: string, t: string)
    requires HostAt(s, q) && OwnerRepo(s[q + |Host|..]).Some?
    ensures Names(owner, name) && Trailer(t) && OwnerRepo(s[q + |Host|..]).value == owner + "/" + name
    ensures EndsWith(s, Host + (owner + "/" + name) + t)
  {
    owner, name, t := OwnerRepoParts(s[q + |Host|..]);
    HostSuffix(s, q, owner + "/" + name, t);
  }

  /** The text after a `github.com/` at `q` is a suffix of the input, with the host in front. */
  lemma HostSuffix(s: string, q: nat, slug: string, t: string)
    requires HostAt(s, q) && s[q + |Host|..] == slug + t
    ensures EndsWith(s, Host + slug + t)
  {
    SuffixAt(s, q, Host);
    assert Host + s[q + |Host|..] == Host + slug + t;
  }

  /** A piece found at `q` starts the suffix from `q`. */
  lemma SuffixAt(s: string, q: nat, h: string)
    requires q + |h| <= |s| && s[q..q + |h|] == h
    ensures EndsWith(s, h + s[q + |h|..])
  {
    assert s[q..] == h + s[q + |h|..];
  }

  /**
   What a successful call returns: the input itself, or `owner/name` where
   the input ends with `github.com/owner/name` and at most a trailer.
   */
  lemma ExtraerShape(input: string)
    requires ExtraerUsuarioRepo(input).Ok?
    ensures var r := ExtraerUsuarioRepo(input).value;
      || (PassedThrough(input) && r == input)
      || (!PassedThrough(input) &&
          exists owner, name, t :: Names(owner, name) && Trailer(t) && r == owner + "/" + name
            && EndsWith(input, Host + r + t))
  {
    if !PassedThrough(input) {
      var owner, name, t := SearchShape(input);
    }
  }

  /** A word whose first letter does not recur in it cannot overlap itself. */
  lemma Apart(s: string, p: nat, q: nat, h: string)
    requires |h| > 0 && forall i :: 1 <= i < |h| ==> h[i] != h[0]
    requires p < q && q + |h| <= |s| && p + |h| <= |s|
    requires s[p..p + |h|] == h && s[q..q + |h|] == h
    ensures p + |h| <= q
  {
    assert forall d :: 0 <= d < |h| ==> s[p + d] == h[d];
    assert s[q] == h[0];
    if q < p + |h| {
      assert false;
    }
  }

  /** The slashes of a capture's text: one, or two when a trailer ends it. */
  lemma CaptureSlashes(rest: string)
    requires OwnerRepo(rest).Some?
    ensures |rest| > 0
    ensures CountChar(rest, '/') == 1 ==> rest[|rest| - 1] != '/'
    ensures CountChar(rest, '/') == 1 || (CountChar(rest, '/') == 2 && (rest[|rest| - 1] == '/' || rest[|rest| - 1] == '\n'))
  {
    var o, n, t := OwnerRepoParts(rest);
    SlashCount(o, n, t);
    TrailerSlashes(t);
    assert n[|n| - 1] != '/' by {
      assert n[|n| - 1] in n;
    }
  }

  /** A trailer holds as many slashes as it is long, newline aside, and ends in a slash or a newline. */
  lemma TrailerSlashes(t: string)
    requires Trailer(t)
    ensures CountChar(t, '/') == (if t == "" then 0 else 1)
    ensures t != "" ==> t[|t| - 1] == '/' || t[|t| - 1] == '\n'
  {
    if t == "/" {
      assert t[1..] == "";
    } else if t == "/\n" {
      assert t[1..] == "\n" && t[1..][1..] == "";
    }
  }

  /** Owner, name and trailer hold one slash plus the trailer's. */
  lemma SlashCount(o: string, n: string, t: string)
    requires '/' !in o && '/' !in n && |n| > 0
    ensures CountChar(o + "/" + n + t, '/') == 1 + CountChar(t, '/')
    ensures (o + "/" + n + t)[|o + "/" + n + t| - 1] == (if t == "" then n[|n| - 1] else t[|t| - 1])
  {
    CountCharAppend(o + "/" + n, t, '/');
    CountCharAppend(o + "/", n, '/');
    CountCharAppend(o, "/", '/');
    CountAbsent(o, '/');
    CountAbsent(n, '/');
  }

  /**
   Before the last `github.com/` of an input ending in `github.com/owner/name`
   and an optional slash, no position starts a capture: the text after it
   holds too many slashes, or ends in a character no trailer ends in.
   */
  lemma NoEarlierCapture(pre: string, owner: string, name: string, t: string, p: nat)
    requires Names(owner, name) && '\n' !in name && (t == "" || t == "/")
    requires p < |pre|
    ensures var s := pre + (Host + (owner + "/" + name + t));
      !(HostAt(s, p) && OwnerRepo(s[p + |Host|..]).Some?)
  {
    var after := owner + "/" + name + t;
    var s := pre + (Host + after);
    if HostAt(s, p) && OwnerRepo(s[p + |Host|..]).Some? {
      assert p + |Host| <= |pre| by {
        AtJoin(pre, Host, after);
        HostUnique();
        Apart(s, p, |pre|, Host);
      }
      assert s[p + |Host|..] == pre[p + |Host|..] + (Host + after) by {
        DropPrefix(pre, Host + after, p + |Host|);
      }
      NoCaptureBefore(pre[p + |Host|..], owner, name, t);
      assert false;
    }
  }

  /** The `g` of `github.com/` does not recur in it. */
  lemma HostUnique()
    ensures forall i :: 1 <= i < |Host| ==> Host[i] != Host[0]
  {
  }

  /** Dropping a prefix of the first part of a concatenation. */
  lemma DropPrefix(x: string, y: string, k: nat)
    requires k <= |x|
    ensures (x + y)[k..] == x[k..] + y
  {
  }

  /** Text running on through a further `github.com/owner/name` and an optional slash is no capture. */
  lemma NoCaptureBefore(mid: string, owner: string, name: string, t: string)
    requires Names(owner, name) && '\n' !in name && (t == "" || t == "/")
    ensures OwnerRepo(mid + (Host + (owner + "/" + name + t))).None?
  {
    var rest := mid + Host + owner + "/" + name + t;
    assert rest == mid + (Host + (owner + "/" + name + t));
    assert name[|name| - 1] in name;
    assert CountChar(t, '/') == |t|;
    LaterSlashes(mid, owner, name, t);
    if OwnerRepo(rest).Some? {
      CaptureSlashes(rest);
      assert false;
    }
  }

  /** Text holding `github.com/owner/name` and a trailer has at least two slashes plus the trailer's. */
  lemma LaterSlashes(mid: string, owner: string, name: string, t: string)
    requires Names(owner, name)
    ensures var x := mid + Host + owner + "/" + name + t;
      && CountChar(x, '/') >= 2 + CountChar(t, '/')
      && x[|x| - 1] == (if t == "" then name[|name| - 1] else t[|t| - 1])
  {
    var after := owner + "/" + name + t;
    var front := mid + Host;
    var x := mid + Host + owner + "/" + name + t;
    assert x == front + after;
    assert CountChar(front, '/') >= 1 by {
      CountCharAppend(mid, Host, '/');
      HostSlash();
    }
    assert CountChar(after, '/') == 1 + CountChar(t, '/') && after[|after| - 1] == (if t == "" then name[|name| - 1] else t[|t| - 1]) by {
      SlashCount(owner, name, t);
    }
    CountCharAppend(front, after, '/');
    LastOfAppend(front, after);
  }

  /** `github.com/` holds a slash. */
  lemma HostSlash()
    ensures CountChar(Host, '/') >= 1
  {
    assert Host[10] == '/';
    CountPresent(Host, '/');
  }

  /** The last character of a concatenation with a non-empty right part is that part's last. */
  lemma LastOfAppend(x: string, y: string)
    requires |y| > 0
    ensures (x + y)[|x + y| - 1] == y[|y| - 1]
  {
  }

  /** Searching from `p` skips positions with no capture. */
  lemma {:induction false} SearchSkips(s: string, p: nat, q: nat)
    requires p <= q <= |s|
    requires forall i :: p <= i < q ==> !(HostAt(s, i) && OwnerRepo(s[i + |Host|..]).Some?)
    ensures Search(s, p) == Search(s, q)
    decreases q - p
  {
    if p < q {
      SearchSkips(s, p + 1, q);
    }
  }

  /**
   A GitHub URL, with or without a trailing slash and whatever precedes
   `github.com/`, yields `owner/name`; a `.git` suffix stays part of the name.
   */
  lemma ExtraerFromUrl(pre: string, owner: string, name: string, t: string)
    requires Names(owner, name) && '\n' !in name && (t == "" || t == "/")
    ensures ExtraerUsuarioRepo(pre + Host + owner + "/" + name + t) == Ok(owner + "/" + name)
  {
    var after := owner + "/" + name + t;
    var s := pre + (Host + after);
    assert pre + Host + owner + "/" + name + t == s;
    HostNotPassed(pre, after);
    SearchToLast(pre, owner, name, t);
    SearchAtLast(pre, owner, name, t);
  }

  /** Text holding `github.com` is not passed through. */
  lemma HostNotPassed(pre: string, after: string)
    ensures !PassedThrough(pre + (Host + after))
  {
    assert pre + (Host + after) == pre + "github.com" + ("/" + after);
    ContainsMiddle(pre, "github.com", "/" + after);
  }

  /** No capture starts before the last `github.com/`. */
  lemma SearchToLast(pre: string, owner: string, name: string, t: string)
    requires Names(owner, name) && '\n' !in name && (t == "" || t == "/")
    ensures var s := pre + (Host + (owner + "/" + name + t)); Search(s, 0) == Search(s, |pre|)
  {
    var s := pre + (Host + (owner + "/" + name + t));
    forall i | 0 <= i < |pre|
      ensures !(HostAt(s, i) && OwnerRepo(s[i + |Host|..]).Some?)
    {
      NoEarlierCapture(pre, owner, name, t, i);
    }
    SearchSkips(s, 0, |pre|);
  }

  /** The last `github.com/` captures `owner/name`. */
  lemma SearchAtLast(pre: string, owner: string, name: string, t: string)
    requires Names(owner, name) && Trailer(t)
    ensures var s := pre + (Host + (owner + "/" + name + t)); Search(s, |pre|) == Some(owner + "/" + name)
  {
    var after := owner + "/" + name + t;
    var s := pre + (Host + after);
    AtJoin(pre, Host, after);
    OwnerRepoOf(owner, name, t);
    assert Captures(s, |pre|);
    SearchHere(s, |pre|);
  }

  /** The middle and the end of `pre + (h + after)`, by position. */
  lemma AtJoin(pre: string, h: string, after: string)
    ensures var s := pre + (h + after);
      s[|pre|..|pre| + |h|] == h && s[|pre| + |h|..] == after
  {
  }

  /** With no `github.com/` anywhere, an input that is not passed through is rejected. */
  lemma ExtraerRejects(input: string)
    requires !PassedThrough(input)
    requires forall p :: 0 <= p <= |input| ==> !HostAt(input, p)
    ensures ExtraerUsuarioRepo(input).Err?
  {
    if Search(input, 0).Some? {
      var q := SearchFound(input, 0);
    }
  }

  /** An input without a slash, a bare repository name say, is rejected. */
  lemma ExtraerNoSlash(input: string)
    requires '/' !in input
    ensures ExtraerUsuarioRepo(input).Err?
  {
    forall p | 0 <= p <= |input|
      ensures !HostAt(input, p)
    {
      if p + |Host| <= |input| {
        assert input[p..p + |Host|][10] == input[p + 10];
      }
    }
    ExtraerRejects(input);
  }

  // ---------------------------------------------------------------------
  // get_repo_info: the slug of a URL
  // ---------------------------------------------------------------------

  /** `parts = url.strip("/").split("/")` and `f"{parts[-2]}/{parts[-1]}"`, which raises with one part. */
  function RepoFullName(url: string): Result<string>
  {
    var parts := Split(StripChar(url, '/'), '/');
    if |parts| < 2 then Err("IndexError: list index out of range")
    else Ok(parts[|parts| - 2] + "/" + parts[|parts| - 1])
  }

  /** The slug cannot be formed exactly when no slash is left once the outer ones are stripped. */
  lemma RepoFullNameFails(url: string)
    ensures RepoFullName(url).Err? <==> '/' !in StripChar(url, '/')
  {
    var stripped := StripChar(url, '/');
    if '/' in stripped {
      CountPresent(stripped, '/');
    } else {
      CountAbsent(stripped, '/');
    }
  }

  /** The slug is the last two segments of the stripped URL, whatever precedes them. */
  lemma RepoFullNameOf(url: string, pre: string, owner: string, name: string)
    requires StripChar(url, '/') == pre + owner + "/" + name
    requires '/' !in owner && '/' !in name
    requires pre == "" || pre[|pre| - 1] == '/'
    ensures RepoFullName(url) == Ok(owner + "/" + name)
  {
    var front := SplitEndsWith(pre, owner, name);
    LastTwo(front, owner, name);
  }

  /** Splitting `pre + owner/name` at slashes ends with the owner and the name. */
  lemma SplitEndsWith(pre: string, owner: string, name: string) returns (front: seq<string>)
    requires '/' !in owner && '/' !in name
    requires pre == "" || pre[|pre| - 1] == '/'
    ensures Split(pre + owner + "/" + name, '/') == front + [owner, name]
  {
    var x := pre + owner + "/" + name;
    var slug := owner + ['/'] + name;
    SlugSplit(owner, name);
    if pre == "" {
      front := [];
      assert x == slug;
    } else {
      var f := pre[..|pre| - 1];
      front := Split(f, '/');
      assert x == f + ['/'] + slug by {
        assert pre == f + ['/'];
      }
      SplitAtSeparator(f, '/', slug);
    }
  }

  /** `owner/name` splits into the owner and the name. */
  lemma SlugSplit(owner: string, name: string)
    requires '/' !in owner && '/' !in name
    ensures Split(owner + ['/'] + name, '/') == [owner, name]
  {
    SplitWithoutSeparator(owner, '/');
    SplitWithoutSeparator(name, '/');
    SplitAtSeparator(owner, '/', name);
  }

  lemma LastTwo(xs: seq<string>, a: string, b: string)
    ensures var ys := xs + [a, b]; |ys| >= 2 && ys[|ys| - 2] == a && ys[|ys| - 1] == b
  {
  }

  // ---------------------------------------------------------------------
  // The file-collection loops of analizar_repo
  // ---------------------------------------------------------------------

  /**
   An entry of a directory listing. `content` is None when downloading or
   UTF-8-decoding the file raised (the loops log it and move on); a
   directory carries the listing `get_contents` returns for it.
   */
  datatype Node = File(path: string, size: int, content: Option<string>) | Dir(path: string, children: seq<Node>)

  /** Files above one megabyte are skipped. */
  const MaxFileSize: int := 1024 * 1024

  /**
   A file the inner `for ext` loop stores: its path ends with a supported
   extension (case-sensitively; every branch of the loop body breaks, so
   only whether some extension matches counts), it is at most one megabyte,
   and it could be read.
   */
  predicate Acceptable(exts: seq<string>, f: Node)
  {
    f.File? && LanguageBase.ShouldAnalyzeFile(exts, f.path) && f.size <= MaxFileSize && f.content.Some?
  }

  /** `archivos_codigo` and `archivos_analizados`. */
  datatype Collected = Collected(files: seq<(string, string)>, count: int)

  const Nothing: Collected := Collected([], 0)

  /** One file met by a loop: an acceptable one is stored and counted, any other changes nothing. */
  function Step(exts: seq<string>, acc: Collected, f: Node): Collected
  {
    if Acceptable(exts, f) then Collected(Dict.Put(acc.files, f.path, f.content.value), acc.count + 1) else acc
  }

  /** The files met in order, each loop iteration first checking `archivos_analizados >= MAX_FILES_TO_ANALYZE`. */
  function Collect(exts: seq<string>, max: int, files: seq<Node>, acc: Collected): Collected
    decreases |files|
  {
    if |files| == 0 || acc.count >= max then acc
    else Collect(exts, max, files[1..], Step(exts, acc, files[0]))
  }

  /** How many of `files` are acceptable. */
  function AcceptableCount(exts: seq<string>, files: seq<Node>): nat
  {
    if |files| == 0 then 0 else (if Acceptable(exts, files[0]) then 1 else 0) + AcceptableCount(exts, files[1..])
  }

  /**
   The count is the number of acceptable files met, cut off at the cap: the
   loops never store more than `MAX_FILES_TO_ANALYZE` files and stop only
   when they reach it or run out of files.
   */
  lemma {:induction false} CollectCount(exts: seq<string>, max: int, files: seq<Node>, acc: Collected)
    requires acc.count <= max
    ensures Collect(exts, max, files, acc).count == Min(max, acc.count + AcceptableCount(exts, files))
    decreases |files|
  {
    if |files| > 0 && acc.count < max {
      CollectCount(exts, max, files[1..], Step(exts, acc, files[0]));
    }
  }

  /** Stored paths never outnumber the count, and each stored path was met as an acceptable file with that content. */
  lemma {:induction false} CollectStored(exts: seq<string>, max: int, files: seq<Node>, acc: Collected)
    requires |acc.files| <= acc.count
    ensures var r := Collect(exts, max, files, acc);
      && |r.files| <= r.count
      && forall p :: Dict.HasKey(r.files, p) ==>
           Dict.Get(r.files, p) == Dict.Get(acc.files, p)
           || exists i :: 0 <= i < |files| && Acceptable(exts, files[i]) && files[i].path == p && files[i].content == Dict.Get(r.files, p)
    decreases |files|
  {
    if |files| > 0 && acc.count < max {
      var next := Step(exts, acc, files[0]);
      CollectStored(exts, max, files[1..], next);
      var r := Collect(exts, max, files, acc);
      forall p | Dict.HasKey(r.files, p)
        ensures Dict.Get(r.files, p) == Dict.Get(acc.files, p)
          || exists i :: 0 <= i < |files| && Acceptable(exts, files[i]) && files[i].path == p && files[i].content == Dict.Get(r.files, p)
      {
        if Dict.Get(r.files, p) != Dict.Get(next.files, p) {
          var i :| 0 <= i < |files[1..]| && Acceptable(exts, files[1..][i]) && files[1..][i].path == p && files[1..][i].content == Dict.Get(r.files, p);
          assert files[i + 1] == files[1..][i];
        } else if Dict.Get(next.files, p) != Dict.Get(acc.files, p) {
          assert Acceptable(exts, files[0]) && files[0].path == p;
        }
      }
    }
  }

  /** Nothing is stored only while nothing was counted. */
  lemma {:induction false} CollectEmpty(exts: seq<string>, max: int, files: seq<Node>, acc: Collected)
    requires |acc.files| == 0 ==> acc.count == 0
    ensures |Collect(exts, max, files, acc).files| == 0 ==> Collect(exts, max, files, acc).count == 0
    decreases |files|
  {
    if |files| > 0 && acc.count < max {
      var next := Step(exts, acc, files[0]);
      if Acceptable(exts, files[0]) {
        assert Dict.HasKey(next.files, files[0].path);
      }
      CollectEmpty(exts, max, files[1..], next);
    }
  }

  /** Below the cap every acceptable file met is stored. */
  lemma {:induction false} CollectComplete(exts: seq<string>, max: int, files: seq<Node>, acc: Collected, i: nat)
    requires i < |files| && Acceptable(exts, files[i])
    requires Collect(exts, max, files, acc).count < max
    ensures Dict.HasKey(Collect(exts, max, files, acc).files, files[i].path)
    decreases |files|
  {
    var next := Step(exts, acc, files[0]);
    if i == 0 {
      KeepsKeys(exts, max, files[1..], next, files[0].path);
    } else {
      assert files[1..][i - 1] == files[i];
      CollectComplete(exts, max, files[1..], next, i - 1);
    }
  }

  /** A stored path stays stored. */
  lemma {:induction false} KeepsKeys(exts: seq<string>, max: int, files: seq<Node>, acc: Collected, p: string)
    requires Dict.HasKey(acc.files, p)
    ensures Dict.HasKey(Collect(exts, max, files, acc).files, p)
    decreases |files|
  {
    if |files| > 0 && acc.count < max {
      KeepsKeys(exts, max, files[1..], Step(exts, acc, files[0]), p);
    }
  }

  /** Collecting from the concatenation of two listings is collecting from the first, then the second. */
  lemma {:induction false} CollectAppend(exts: seq<string>, max: int, xs: seq<Node>, ys: seq<Node>, acc: Collected)
    ensures Collect(exts, max, xs + ys, acc) == Collect(exts, max, ys, Collect(exts, max, xs, acc))
    decreases |xs|
  {
    if |xs| == 0 {
      assert xs + ys == ys;
    } else if acc.count >= max {
      CollectCapped(exts, max, ys, acc);
    } else {
      assert (xs + ys)[1..] == xs[1..] + ys;
      CollectAppend(exts, max, xs[1..], ys, Step(exts, acc, xs[0]));
    }
  }

  /** Once at the cap nothing changes. */
  lemma CollectCapped(exts: seq<string>, max: int, files: seq<Node>, acc: Collected)
    requires acc.count >= max
    ensures Collect(exts, max, files, acc) == acc
  {
  }

  // --- the normal strategy: a queue of listings, directories appended as they are met

  /** The number of entries in a forest of listings; it bounds the work of the traversal. */
  function Weight(queue: seq<Node>): nat
    decreases queue
  {
    if |queue| == 0 then 0
    else (match queue[0] case File(_, _, _) => 1 case Dir(_, cs) => 1 + Weight(cs)) + Weight(queue[1..])
  }

  lemma {:induction false} WeightAppend(xs: seq<Node>, ys: seq<Node>)
    ensures Weight(xs + ys) == Weight(xs) + Weight(ys)
    decreases |xs|
  {
    if |xs| == 0 {
      assert xs + ys == ys;
    } else {
      assert (xs + ys)[0] == xs[0] && (xs + ys)[1..] == xs[1..] + ys;
      WeightAppend(xs[1..], ys);
    }
  }

  /** The files in the order the queue meets them: `contents.pop(0)`, and a directory's listing goes to the back. */
  function QueueOrder(queue: seq<Node>): (files: seq<Node>)
    ensures forall i :: 0 <= i < |files| ==> files[i].File?
    decreases Weight(queue)
  {
    if |queue| == 0 then []
    else match queue[0]
      case File(_, _, _) => [queue[0]] + QueueOrder(queue[1..])
      case Dir(_, cs) =>
        WeightAppend(queue[1..], cs);
        QueueOrder(queue[1..] + cs)
  }

  /**
   The normal strategy's `while contents and archivos_analizados < MAX`
   loop: it stores what collecting in queue order stores, though it stops
   listing directories as soon as the cap is reached.
   */
  method CollectNormal(exts: seq<string>, max: int, root: seq<Node>) returns (c: Collected)
    ensures c == Collect(exts, max, QueueOrder(root), Nothing)
  {
    var queue := root;
    c := Nothing;
    while |queue| > 0 && c.count < max
      invariant Collect(exts, max, QueueOrder(queue), c) == Collect(exts, max, QueueOrder(root), Nothing)
      decreases Weight(queue)
    {
      var entry := queue[0];
      match entry {
        case Dir(_, cs) =>
          WeightAppend(queue[1..], cs);
          queue := queue[1..] + cs;
        case File(_, _, _) =>
          c := Step(exts, c, entry);
          queue := queue[1..];
      }
    }
  }

  // --- the fast strategy for repositories above 30000 KB

  /** The files of a listing, in order. */
  function FilesOf(entries: seq<Node>): (files: seq<Node>)
    ensures forall i :: 0 <= i < |files| ==> files[i].File? && files[i] in entries
    ensures forall i :: 0 <= i < |entries| && entries[i].File? ==> entries[i] in files
  {
    if |entries| == 0 then []
    else (if entries[0].File? then [entries[0]] else []) + FilesOf(entries[1..])
  }

  /** The directories of a listing, in order. */
  function DirsOf(entries: seq<Node>): (dirs: seq<Node>)
    ensures forall i :: 0 <= i < |dirs| ==> dirs[i].Dir? && dirs[i] in entries
  {
    if |entries| == 0 then []
    else (if entries[0].Dir? then [entries[0]] else []) + DirsOf(entries[1..])
  }

  /** `seq[:n]`. */
  function Take<T>(xs: seq<T>, n: nat): (r: seq<T>)
    ensures |r| == Min(n, |xs|) && r == xs[..|r|]
  {
    if |xs| <= n then xs else xs[..n]
  }

  /** The files among the first twenty entries of each directory, one directory after another. */
  function SubdirFiles(dirs: seq<Node>): seq<Node>
  {
    if |dirs| == 0 then []
    else FilesOf(Take(if dirs[0].Dir? then dirs[0].children else [], 20)) + SubdirFiles(dirs[1..])
  }

  /** The root's files, then the files among the first twenty entries of each of the first five directories. */
  function FastOrder(root: seq<Node>): seq<Node>
  {
    FilesOf(root) + SubdirFiles(Take(DirsOf(root), 5))
  }

  /** The fast strategy meets every root file and at most twenty files of each of at most five directories. */
  lemma {:induction false} FastOrderSize(root: seq<Node>)
    ensures |FilesOf(root)| <= |FastOrder(root)| <= |FilesOf(root)| + 100
  {
    SubdirFilesSize(Take(DirsOf(root), 5));
  }

  lemma {:induction false} SubdirFilesSize(dirs: seq<Node>)
    ensures |SubdirFiles(dirs)| <= 20 * |dirs|
    decreases |dirs|
  {
    if |dirs| > 0 {
      var first := Take(if dirs[0].Dir? then dirs[0].children else [], 20);
      FilesOfSize(first);
      SubdirFilesSize(dirs[1..]);
    }
  }

  lemma {:induction false} FilesOfSize(entries: seq<Node>)
    ensures |FilesOf(entries)| <= |entries|
    decreases |entries|
  {
    if |entries| > 0 {
      FilesOfSize(entries[1..]);
    }
  }

  /** Both strategies of `analizar_repo`, chosen by the repository's size in KB. */
  function CollectFiles(exts: seq<string>, max: int, sizeKb: int, root: seq<Node>): Collected
  {
    Collect(exts, max, if sizeKb > 30000 then FastOrder(root) else QueueOrder(root), Nothing)
  }

  /**
   Whatever the strategy, at most `max` files are counted, no more paths are
   stored than counted, every stored path has a supported extension, and
   below the cap every acceptable file the strategy meets is stored.
   */
  lemma CollectFilesBound(exts: seq<string>, max: int, sizeKb: int, root: seq<Node>)
    ensures var c := CollectFiles(exts, max, sizeKb, root);
      && 0 <= c.count && (max >= 0 ==> c.count <= max) && (max <= 0 ==> c.count == 0)
      && |c.files| <= c.count
      && (forall p :: Dict.HasKey(c.files, p) ==> LanguageBase.ShouldAnalyzeFile(exts, p))
  {
    var order := if sizeKb > 30000 then FastOrder(root) else QueueOrder(root);
    var c := CollectFiles(exts, max, sizeKb, root);
    if max >= 0 {
      CollectCount(exts, max, order, Nothing);
    }
    CollectStored(exts, max, order, Nothing);
    forall p | Dict.HasKey(c.files, p)
      ensures LanguageBase.ShouldAnalyzeFile(exts, p)
    {
      var i :| 0 <= i < |order| && Acceptable(exts, order[i]) && order[i].path == p && order[i].content == Dict.Get(c.files, p);
    }
  }

  // ---------------------------------------------------------------------
  // metricas_totales: defaults, the primary language's metrics, metadata
  // ---------------------------------------------------------------------

  /** The eight categories `metricas_totales` starts from; every leaf is 0.0 but `uso_funciones_peligrosas`, 1.0. */
  const DefaultMetrics: LanguageBase.Metrics := [
    ("nombres", [("descriptividad", 0.0)]),
    ("documentacion", [("cobertura_docstrings", 0.0)]),
    ("modularidad", [("funciones_por_archivo", 0.0), ("clases_por_archivo", 0.0),
                     ("cohesion_promedio", 0.0), ("acoplamiento_promedio", 0.0)]),
    ("complejidad", [("complejidad_ciclomatica", 0.0), ("max_nivel_anidacion", 0.0),
                     ("longitud_promedio_funciones", 0.0)]),
    ("manejo_errores", [("cobertura_manejo_errores", 0.0), ("especificidad_excepciones", 0.0),
                        ("densidad_try_except", 0.0)]),
    ("pruebas", [("cobertura_pruebas", 0.0), ("densidad_asserts", 0.0), ("funciones_test", 0.0)]),
    ("seguridad", [("validacion_entradas", 0.0), ("uso_funciones_peligrosas", 1.0), ("total_validaciones", 0.0)]),
    ("consistencia_estilo", [("consistencia_nombres", 0.0), ("espaciado_consistente", 0.0),
                             ("longitud_lineas_consistente", 0.0)])]

  /** The defaults hold exactly the analyzer template's categories, in its order. */
  lemma DefaultCategories()
    ensures Dict.Keys(DefaultMetrics) == LanguageBase.Categories
  {
  }

  /** Every default leaf is 0.0 except `seguridad.uso_funciones_peligrosas`, which is 1.0. */
  lemma DefaultLeaves()
    ensures forall i, j :: 0 <= i < |DefaultMetrics| && 0 <= j < |DefaultMetrics[i].1| ==>
      DefaultMetrics[i].1[j].1 == if DefaultMetrics[i].1[j].0 == "uso_funciones_peligrosas" then 1.0 else 0.0
    ensures DefaultMetrics[6] == ("seguridad", [("validacion_entradas", 0.0), ("uso_funciones_peligrosas", 1.0), ("total_validaciones", 0.0)])
  {
  }

  /**
   `for categoria in metricas_totales: if categoria in metricas_principales:
   metricas_totales[categoria] = metricas_principales[categoria]`, over the
   categories; `metadata` is kept apart and so never replaced.
   */
  function Merge(defaults: LanguageBase.Metrics, primary: LanguageBase.Metrics): (m: LanguageBase.Metrics)
    ensures Dict.Keys(m) == Dict.Keys(defaults)
  {
    if |defaults| == 0 then []
    else
      var (category, leaves) := defaults[0];
      [(category, Dict.GetOr(primary, category, leaves))] + Merge(defaults[1..], primary)
  }

  /**
   A category of the merge is the primary language's when it reports it and
   the default otherwise; categories the defaults lack are not added.
   */
  lemma MergeGet(defaults: LanguageBase.Metrics, primary: LanguageBase.Metrics, category: string)
    ensures Dict.Get(Merge(defaults, primary), category) ==
      if !Dict.HasKey(defaults, category) then None
      else if Dict.HasKey(primary, category) then Dict.Get(primary, category)
      else Dict.Get(defaults, category)
  {
    var m := Merge(defaults, primary);
    if Dict.HasKey(defaults, category) {
      var i := Dict.IndexOf(defaults, category);
      assert m[i] == (category, Dict.GetOr(primary, category, defaults[i].1)) by {
        MergeAt(defaults, primary, i);
      }
      assert Dict.HasKey(m, category) && Dict.IndexOf(m, category) == i by {
        assert forall j :: 0 <= j < i ==> m[j].0 == Dict.Keys(m)[j] == Dict.Keys(defaults)[j] == defaults[j].0;
        Dict.IndexOfUnique(m, category, i);
      }
    }
  }

  lemma {:induction false} MergeAt(defaults: LanguageBase.Metrics, primary: LanguageBase.Metrics, i: nat)
    requires i < |defaults|
    ensures |Merge(defaults, primary)| == |defaults|
    ensures Merge(defaults, primary)[i] == (defaults[i].0, Dict.GetOr(primary, defaults[i].0, defaults[i].1))
    decreases i
  {
    assert |Dict.Keys(Merge(defaults, primary))| == |Dict.Keys(defaults)|;
    if i > 0 {
      MergeAt(defaults[1..], primary, i - 1);
    }
  }

  /** The metadata `analizar_repo` derives from the collection and the analysis. */
  datatype Report = Report(
    filesAnalyzed: int,
    limitNote: Option<int>,
    languagesAnalyzed: Option<seq<string>>,
    globalScore: Option<real>,
    metrics: LanguageBase.Metrics)

  /**
   `analisis_multi['languages'][primary]['metrics']` when the primary
   language is truthy; a KeyError when that language was grouped but not
   analysed.
   */
  function PrimaryMetrics(project: Factory.Project): Result<Option<LanguageBase.Metrics>>
  {
    match project.primaryLanguage
    case None => Ok(None)
    case Some(language) =>
      if language == "" then Ok(None)
      else
        match Dict.Get(project.languages, language)
        case None => Err("KeyError: " + language)
        case Some(result) => Ok(Some(result.summary.metrics))
  }

  /** The merged metrics and the `total_metrics` fields (`.get` defaults when the aggregate is `{}`). */
  function ProjectReport(project: Factory.Project, note: Option<int>): Option<Report>
  {
    match PrimaryMetrics(project)
    case Err(_) => None
    case Ok(primary) =>
      var metrics := if primary.Some? then Merge(DefaultMetrics, primary.value) else DefaultMetrics;
      match project.totalMetrics
      case None => Some(Report(0, note, Some([]), Some(0.0), metrics))
      case Some(a) => Some(Report(a.totalFiles, note, Some(a.languagesAnalyzed), Some(a.overallEmpathyScore), metrics))
  }

  /**
   The report of `analizar_repo` for a collection: the count, the limit note
   once the cap is reached and, when some file was stored, what the
   multi-language analysis adds. Any exception turns the whole result into
   `None`.
   */
  function BuildReport(
    r: Factory.Registry, nameOf: Factory.ClassName -> string,
    summarize: (Factory.ClassName, seq<(string, string)>) -> LanguageBase.Summary,
    c: Collected, max: int): Option<Report>
  {
    var note := if c.count >= max then Some(max) else None;
    if |c.files| == 0 then Some(Report(c.count, note, None, None, DefaultMetrics))
    else
      match Factory.AnalyzeMultiLanguageProject(r, nameOf, summarize, c.files)
      case Err(_) => None
      case Ok(project) => ProjectReport(project, note)
  }

  /** The cap, the strategy and the report: the parts of `analizar_repo` that are not network calls. */
  function AnalizarRepo(
    limits: FileLimits, sizeKb: int, root: seq<Node>,
    r: Factory.Registry, nameOf: Factory.ClassName -> string,
    summarize: (Factory.ClassName, seq<(string, string)>) -> LanguageBase.Summary): Option<Report>
  {
    var max := MaxFilesLimit(limits, sizeKb);
    BuildReport(r, nameOf, summarize, CollectFiles(Factory.GetSupportedExtensions(r), max, sizeKb, root), max)
  }

  /** An analysed project yields no report exactly when its primary language is a non-empty name it did not analyse. */
  lemma ProjectReportFails(project: Factory.Project, note: Option<int>)
    ensures ProjectReport(project, note).None? <==>
      project.primaryLanguage.Some? && project.primaryLanguage.value != ""
      && !Dict.HasKey(project.languages, project.primaryLanguage.value)
  {
  }

  /**
   The report is lost exactly when files were stored and the primary
   language, a non-empty name, is not a registry key once lower-cased: it
   was grouped but never analysed, so looking it up raises.
   */
  lemma ReportFails(
    r: Factory.Registry, nameOf: Factory.ClassName -> string,
    summarize: (Factory.ClassName, seq<(string, string)>) -> LanguageBase.Summary,
    c: Collected, max: int)
    ensures Factory.AnalyzeMultiLanguageProject(r, nameOf, summarize, c.files).Ok?
    ensures var primary := Factory.AnalyzeMultiLanguageProject(r, nameOf, summarize, c.files).value.primaryLanguage;
      BuildReport(r, nameOf, summarize, c, max).None? <==>
        |c.files| > 0 && primary.Some? && primary.value != "" && !Dict.HasKey(r.analyzers, Lower(primary.value))
  {
    Factory.AnalyzeNeverFails(r, nameOf, summarize, c.files);
    var project := Factory.AnalyzeMultiLanguageProject(r, nameOf, summarize, c.files).value;
    var note := if c.count >= max then Some(max) else None;
    ProjectReportFails(project, note);
    if project.primaryLanguage.Some? {
      Factory.PrimaryListedIffRegistered(r, nameOf, summarize, c.files);
    }
  }

  /**
   A report keeps every default category and only those; each is the
   primary language's when it reports it and the default otherwise, so
   with no truthy primary language the defaults stand.
   */
  lemma ProjectReportMetrics(project: Factory.Project, note: Option<int>, category: string)
    requires ProjectReport(project, note).Some?
    ensures PrimaryMetrics(project).Ok?
    ensures var report := ProjectReport(project, note).value;
      var primary := PrimaryMetrics(project).value;
      && Dict.Keys(report.metrics) == LanguageBase.Categories
      && (primary.None? ==> report.metrics == DefaultMetrics)
      && (primary.Some? ==>
            Dict.Get(report.metrics, category) ==
              if !Dict.HasKey(DefaultMetrics, category) then None
              else if Dict.HasKey(primary.value, category) then Dict.Get(primary.value, category)
              else Dict.Get(DefaultMetrics, category))
  {
    ReportMerges(project, note);
    DefaultCategories();
    MergedOrDefaults(ProjectReport(project, note).value.metrics, DefaultMetrics, PrimaryMetrics(project).value, category);
  }

  /** A built report's metrics are the defaults, merged with the primary language's when there is one. */
  lemma ReportMerges(project: Factory.Project, note: Option<int>)
    requires ProjectReport(project, note).Some?
    ensures PrimaryMetrics(project).Ok?
    ensures var primary := PrimaryMetrics(project).value;
      ProjectReport(project, note).value.metrics == if primary.Some? then Merge(DefaultMetrics, primary.value) else DefaultMetrics
  {
  }

  /** The report's metrics, whatever the defaults: their keys, and each category's source. */
  lemma MergedOrDefaults(
    metrics: LanguageBase.Metrics, defaults: LanguageBase.Metrics,
    primary: Option<LanguageBase.Metrics>, category: string)
    requires metrics == if primary.Some? then Merge(defaults, primary.value) else defaults
    ensures Dict.Keys(metrics) == Dict.Keys(defaults)
    ensures primary.Some? ==>
      Dict.Get(metrics, category) ==
        if !Dict.HasKey(defaults, category) then None
        else if Dict.HasKey(primary.value, category) then Dict.Get(primary.value, category)
        else Dict.Get(defaults, category)
  {
    if primary.Some? {
      MergeGet(defaults, primary.value, category);
    }
  }

  /** The primary metrics come from the analysis of the primary language, and only when it is truthy. */
  lemma PrimaryMetricsSource(project: Factory.Project)
    requires PrimaryMetrics(project).Ok? && PrimaryMetrics(project).value.Some?
    ensures project.primaryLanguage.Some? && project.primaryLanguage.value != ""
    ensures var language := project.primaryLanguage.value;
      Dict.Get(project.languages, language).Some?
      && PrimaryMetrics(project).value.value == Dict.Get(project.languages, language).value.summary.metrics
  {
  }

  /**
   In a report of `analizar_repo`, the limit note appears exactly when at
   least as many acceptable files were met as the cap allows, and the
   analysis fields are present exactly when some acceptable file was met.
   */
  lemma AnalizarRepoNote(
    limits: FileLimits, sizeKb: int, root: seq<Node>,
    r: Factory.Registry, nameOf: Factory.ClassName -> string,
    summarize: (Factory.ClassName, seq<(string, string)>) -> LanguageBase.Summary)
    requires AnalizarRepo(limits, sizeKb, root, r, nameOf, summarize).Some?
    requires MaxFilesLimit(limits, sizeKb) > 0
    ensures var report := AnalizarRepo(limits, sizeKb, root, r, nameOf, summarize).value;
      var max := MaxFilesLimit(limits, sizeKb);
      var exts := Factory.GetSupportedExtensions(r);
      var order := if sizeKb > 30000 then FastOrder(root) else QueueOrder(root);
      && (report.limitNote.Some? <==> AcceptableCount(exts, order) >= max)
      && (report.limitNote.Some? ==> report.limitNote.value == max)
      && (report.languagesAnalyzed.None? <==> AcceptableCount(exts, order) == 0)
  {
    var max := MaxFilesLimit(limits, sizeKb);
    var exts := Factory.GetSupportedExtensions(r);
    var order := if sizeKb > 30000 then FastOrder(root) else QueueOrder(root);
    var c := Collect(exts, max, order, Nothing);
    assert c == CollectFiles(exts, max, sizeKb, root);
    CollectCount(exts, max, order, Nothing);
    CollectStored(exts, max, order, Nothing);
    CollectEmpty(exts, max, order, Nothing);
    ReportNote(r, nameOf, summarize, c, max);
  }

  /** The note records the cap once the count reaches it; the analysis fields appear once something was stored. */
  lemma ReportNote(
    r: Factory.Registry, nameOf: Factory.ClassName -> string,
    summarize: (Factory.ClassName, seq<(string, string)>) -> LanguageBase.Summary,
    c: Collected, max: int)
    requires BuildReport(r, nameOf, summarize, c, max).Some?
    ensures var report := BuildReport(r, nameOf, summarize, c, max).value;
      && (report.limitNote.Some? <==> c.count >= max)
      && (report.limitNote.Some? ==> report.limitNote.value == max)
      && (report.languagesAnalyzed.None? <==> |c.files| == 0)
      && (|c.files| == 0 ==> report.filesAnalyzed == c.count && report.metrics == DefaultMetrics)
  {
    if |c.files| > 0 {
      Factory.AnalyzeNeverFails(r, nameOf, summarize, c.files);
    }
  }
}
