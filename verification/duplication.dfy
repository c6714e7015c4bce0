/**
 The duplicate-code detector (`DuplicationAnalyzer`): every line is
 normalised, a window of `min_block_size` lines slides over each file, each
 window whose lines all normalise to non-blank text becomes a block keyed by
 the MD5 digest of its normalised text, and blocks sharing a digest are
 duplicates of one another.

 MD5 is a parameter `md5` of the detector: grouping by `md5(content)` is
 what the code does, whatever the digest function is.
 */
module Duplication {
  import opened Common
  import opened Strings
  import Dict

  /** `DuplicationAnalyzer(min_block_size, ignore_whitespace)`. */
  datatype Config = Config(minBlockSize: nat, ignoreWhitespace: bool)

  /** The configuration every language analyzer uses. */
  const DefaultConfig := Config(5, true)

  // ---------------------------------------------------------------------
  // normalize_line
  // ---------------------------------------------------------------------

  /** Index of the first newline, or the length: where `.*` stops. */
  function LineEnd(s: string): (e: nat)
    ensures e <= |s|
    ensures e < |s| ==> s[e] == '\n'
    ensures forall j :: 0 <= j < e ==> s[j] != '\n'
  {
    if |s| == 0 || s[0] == '\n' then 0 else 1 + LineEnd(s[1..])
  }

  /**
   Where the lazy `-->` of `<!--.*?-->` starts, searching from `j`: the first
   `-->` that no newline precedes.
   */
  function FindClose(s: string, j: nat): (r: Option<nat>)
    ensures r.Some? ==> j <= r.value && r.value + 3 <= |s| && s[r.value..r.value + 3] == "-->"
    decreases |s| - j
  {
    if j + 3 > |s| then None
    else if s[j..j + 3] == "-->" then Some(j)
    else if s[j] == '\n' then None
    else FindClose(s, j + 1)
  }

  /** True iff a `//` or `#` line comment starts at the beginning of `s`. */
  predicate LineCommentAt(s: string)
  {
    StartsWith(s, "//") || (|s| > 0 && s[0] == '#')
  }

  /**
   `re.sub(r'//.*|#.*|<!--.*?-->', '', s)`: scanning left to right, a `//` or
   `#` removes the rest of its line, a `<!--` removes up to the first `-->` on
   the same line, and any other character is kept.
   */
  function StripComments(s: string): (r: string)
    ensures |r| <= |s|
    decreases |s|
  {
    if |s| == 0 then ""
    else if LineCommentAt(s) then StripComments(s[LineEnd(s)..])
    else if StartsWith(s, "<!--") && FindClose(s, 4).Some? then StripComments(s[FindClose(s, 4).value + 3..])
    else [s[0]] + StripComments(s[1..])
  }

  /** Position of the first `//` or `#`, or the length if there is none. */
  function CommentStart(s: string): (i: nat)
    ensures i <= |s|
  {
    if |s| == 0 || LineCommentAt(s) then 0 else 1 + CommentStart(s[1..])
  }

  /**
   On one line without `<`, stripping comments keeps exactly the text before
   the first `//` or `#`.
   */
  lemma {:induction false} StripCommentsCutsAtMarker(s: string)
    requires '\n' !in s && '<' !in s
    ensures StripComments(s) == s[..CommentStart(s)]
    decreases |s|
  {
    if |s| > 0 {
      if LineCommentAt(s) {
        assert LineEnd(s) == |s|;
        assert StripComments(s[|s|..]) == "";
      } else {
        assert !StartsWith(s, "<!--") by { assert s[0] != '<'; }
        assert '\n' !in s[1..] && '<' !in s[1..];
        StripCommentsCutsAtMarker(s[1..]);
        assert s[..CommentStart(s)] == [s[0]] + s[1..][..CommentStart(s[1..])];
      }
    }
  }

  /** On one line, no `#` survives comment stripping. */
  lemma {:induction false} StripCommentsRemovesHash(s: string)
    ensures '\n' !in s ==> '#' !in StripComments(s)
    decreases |s|
  {
    if |s| > 0 && '\n' !in s {
      if LineCommentAt(s) {
        assert LineEnd(s) == |s|;
        assert StripComments(s[|s|..]) == "";
      } else if StartsWith(s, "<!--") && FindClose(s, 4).Some? {
        var e := FindClose(s, 4).value + 3;
        assert '\n' !in s[e..];
        StripCommentsRemovesHash(s[e..]);
      } else {
        assert s[0] != '#';
        assert '\n' !in s[1..];
        StripCommentsRemovesHash(s[1..]);
      }
    }
  }

  /** `re.sub(r'\s+', ' ', s)`: each maximal run of whitespace becomes one space. */
  function CollapseWhitespace(s: string): (r: string)
    ensures |r| == 0 <==> |s| == 0
    ensures |r| > 0 ==> (IsSpace(r[0]) <==> IsSpace(s[0]))
    ensures |r| > 0 ==> (IsSpace(r[|r| - 1]) <==> IsSpace(s[|s| - 1]))
    decreases |s|
  {
    if |s| == 0 then ""
    else if IsSpace(s[0]) then
      var t := TrimLeft(s[1..]);
      TrimLeftLast(s[1..]);
      assert |s| > 1 ==> s[1..][|s| - 2] == s[|s| - 1];
      " " + CollapseWhitespace(t)
    else
      [s[0]] + CollapseWhitespace(s[1..])
  }

  /** Left-trimming keeps the last character, or leaves nothing when that character is whitespace. */
  lemma TrimLeftLast(s: string)
    ensures TrimLeft(s) != "" ==> TrimLeft(s)[|TrimLeft(s)| - 1] == s[|s| - 1]
    ensures TrimLeft(s) == "" && |s| > 0 ==> IsSpace(s[|s| - 1])
  {
    var t := TrimLeft(s);
    if t == "" && |s| > 0 {
      assert s[..|s|][|s| - 1] == s[|s| - 1];
    }
  }

  /** No two whitespace characters are adjacent. */
  predicate SingleSpaced(r: string)
  {
    forall i :: 0 <= i < |r| - 1 ==> !(IsSpace(r[i]) && IsSpace(r[i + 1]))
  }

  /** Every whitespace character is a plain space. */
  predicate PlainSpaces(r: string)
  {
    forall i :: 0 <= i < |r| ==> IsSpace(r[i]) ==> r[i] == ' '
  }

  /** After collapsing, whitespace comes as single plain spaces. */
  lemma {:induction false} CollapseShape(s: string)
    ensures SingleSpaced(CollapseWhitespace(s)) && PlainSpaces(CollapseWhitespace(s))
    decreases |s|
  {
    if |s| > 0 {
      if IsSpace(s[0]) {
        var t := TrimLeft(s[1..]);
        CollapseShape(t);
        ShapeCons(' ', CollapseWhitespace(t));
      } else {
        CollapseShape(s[1..]);
        ShapeCons(s[0], CollapseWhitespace(s[1..]));
      }
    }
  }

  lemma ShapeCons(h: char, rt: string)
    requires SingleSpaced(rt) && PlainSpaces(rt)
    requires IsSpace(h) ==> h == ' ' && (rt == "" || !IsSpace(rt[0]))
    ensures SingleSpaced([h] + rt) && PlainSpaces([h] + rt)
  {
    var r := [h] + rt;
    assert forall i :: 1 <= i < |r| ==> r[i] == rt[i - 1];
  }

  /** Collapsing whitespace introduces no other character. */
  lemma {:induction false} CollapseIntroducesNothing(s: string, c: char)
    requires c !in s && !IsSpace(c)
    ensures c !in CollapseWhitespace(s)
    decreases |s|
  {
    if |s| > 0 {
      DropLacks(s, 1, c);
      if IsSpace(s[0]) {
        var t := TrimLeft(s[1..]);
        TrimLeftLacks(s[1..], c);
        CollapseIntroducesNothing(t, c);
        assert IsSpace(' ');
        ConsLacks(' ', CollapseWhitespace(t), c);
      } else {
        CollapseIntroducesNothing(s[1..], c);
        ConsLacks(s[0], CollapseWhitespace(s[1..]), c);
      }
    }
  }

  /** `s.strip()` is a slice of `s`, so it holds no character `s` lacks. */
  lemma StripIntroducesNothing(s: string, c: char)
    requires c !in s
    ensures c !in Strip(s)
  {
    var l := TrimLeft(s);
    var r := TrimRight(l);
    assert Strip(s) == r;
    SliceLacks(s, |s| - |l|, |s|, c);
    assert s[|s| - |l|..|s|] == l;
    SliceLacks(l, 0, |r|, c);
    assert l[0..|r|] == r;
  }

  /** `DuplicationAnalyzer.normalize_line`. */
  function NormalizeLine(cfg: Config, line: string): string
  {
    var c := StripComments(line);
    if cfg.ignoreWhitespace then CollapseWhitespace(Strip(c)) else c
  }

  /**
   With `ignore_whitespace`, a normalised line has no whitespace at either
   end, no two adjacent whitespace characters, and only plain spaces.
   */
  lemma NormalizeLineSpacing(cfg: Config, line: string)
    requires cfg.ignoreWhitespace
    ensures var r := NormalizeLine(cfg, line);
      && (r == "" || (!IsSpace(r[0]) && !IsSpace(r[|r| - 1])))
      && SingleSpaced(r) && PlainSpaces(r)
  {
    CollapseShape(Strip(StripComments(line)));
  }

  /** On any single line, no `#` survives normalisation. */
  lemma NormalizeLineNoHash(cfg: Config, line: string)
    requires '\n' !in line
    ensures '#' !in NormalizeLine(cfg, line)
  {
    var c := StripComments(line);
    StripCommentsRemovesHash(line);
    if cfg.ignoreWhitespace {
      StripIntroducesNothing(c, '#');
      CollapseIntroducesNothing(Strip(c), '#');
    }
  }

  // ---------------------------------------------------------------------
  // extract_blocks
  // ---------------------------------------------------------------------

  /** One block: `{content, original_content, file_path, start_line, end_line, size}`; its `hash` is `md5(content)`. */
  datatype Block = Block(content: string, original: string, path: string, startLine: nat, endLine: nat, size: nat)

  /** `if normalized.strip():` is truthy iff the line is not all whitespace (see `Strings.Strip`). */
  predicate NonBlank(s: string)
  {
    !IsBlank(s)
  }

  /** Every normalised line is non-blank. */
  predicate AllNonBlank(ns: seq<string>)
  {
    |ns| == 0 || (AllNonBlank(ns[..|ns| - 1]) && NonBlank(ns[|ns| - 1]))
  }

  lemma {:induction false} AllNonBlankAt(ns: seq<string>, j: nat)
    requires AllNonBlank(ns) && j < |ns|
    ensures NonBlank(ns[j])
    decreases |ns|
  {
    if j < |ns| - 1 {
      AllNonBlankAt(ns[..|ns| - 1], j);
    }
  }

  /** `normalize_line` applied to each line of a window. */
  function NormalizeAll(cfg: Config, lines: seq<string>): (r: seq<string>)
    ensures |r| == |lines|
  {
    if |lines| == 0 then [] else NormalizeAll(cfg, lines[..|lines| - 1]) + [NormalizeLine(cfg, lines[|lines| - 1])]
  }

  lemma {:induction false} NormalizeAllAt(cfg: Config, lines: seq<string>, j: nat)
    requires j < |lines|
    ensures NormalizeAll(cfg, lines)[j] == NormalizeLine(cfg, lines[j])
    decreases |lines|
  {
    if j < |lines| - 1 {
      NormalizeAllAt(cfg, lines[..|lines| - 1], j);
    }
  }

  /** The normalised lines of a window that are kept (`block_lines`). */
  function Kept(ns: seq<string>): (r: seq<string>)
    ensures |r| <= |ns|
    ensures |r| == |ns| <==> AllNonBlank(ns)
  {
    if |ns| == 0 then []
    else
      var front := Kept(ns[..|ns| - 1]);
      var n := ns[|ns| - 1];
      if NonBlank(n) then front + [n] else front
  }

  /** A window whose lines are all non-blank keeps every normalised line, in order. */
  lemma {:induction false} KeptFull(ns: seq<string>)
    requires AllNonBlank(ns)
    ensures Kept(ns) == ns
    decreases |ns|
  {
    if |ns| > 0 {
      KeptFull(ns[..|ns| - 1]);
    }
  }

  /** The original lines whose normalisation `ns` is kept (`original_lines`). */
  function KeptOriginal(ns: seq<string>, window: seq<string>): (r: seq<string>)
    requires |ns| == |window|
    ensures AllNonBlank(ns) ==> r == window
  {
    if |window| == 0 then []
    else
      var front := KeptOriginal(ns[..|ns| - 1], window[..|window| - 1]);
      var line := window[|window| - 1];
      assert window == window[..|window| - 1] + [line];
      if NonBlank(ns[|ns| - 1]) then front + [line] else front
  }

  /** A window is kept iff all of its lines normalise to non-blank text. */
  predicate FullWindow(cfg: Config, lines: seq<string>, i: nat)
    requires i + cfg.minBlockSize <= |lines|
  {
    AllNonBlank(NormalizeAll(cfg, lines[i..i + cfg.minBlockSize]))
  }

  /** The body of the outer loop of `extract_blocks` for window start `i`. */
  function BlockAt(cfg: Config, lines: seq<string>, path: string, i: nat): (r: Option<Block>)
    requires i + cfg.minBlockSize <= |lines|
    ensures r.Some? ==>
      && r.value.path == path && r.value.size == cfg.minBlockSize
      && r.value.startLine == i + 1 && r.value.endLine == i + cfg.minBlockSize
  {
    var window := lines[i..i + cfg.minBlockSize];
    var ns := NormalizeAll(cfg, window);
    var kept := Kept(ns);
    if |kept| >= cfg.minBlockSize then
      Some(Block(Join(kept, '\n'), Join(KeptOriginal(ns, window), '\n'), path, i + 1, i + cfg.minBlockSize, |kept|))
    else None
  }

  /** Start lines (1-based) of a list of blocks. */
  function Starts(bs: seq<Block>): (r: seq<nat>)
    ensures |r| == |bs|
    ensures forall j :: 0 <= j < |bs| ==> r[j] == bs[j].startLine
  {
    if |bs| == 0 then [] else [bs[0].startLine] + Starts(bs[1..])
  }

  /** Block `b` of file `path` spans `k` lines starting between line `i + 1` and line `n - k + 1`. */
  predicate Placed(cfg: Config, n: nat, path: string, i: nat, b: Block)
  {
    && b.path == path
    && b.size == cfg.minBlockSize
    && b.endLine + 1 == b.startLine + cfg.minBlockSize
    && i + 1 <= b.startLine && b.startLine + cfg.minBlockSize <= n + 1
  }

  /** The blocks of the windows starting at `i`, `i + 1`, ..., `|lines| - k`. */
  function BlocksFrom(cfg: Config, lines: seq<string>, path: string, i: nat): (r: seq<Block>)
    ensures |r| <= if i + cfg.minBlockSize <= |lines| then |lines| - cfg.minBlockSize + 1 - i else 0
    ensures forall j :: 0 <= j < |r| ==> Placed(cfg, |lines|, path, i, r[j])
    decreases |lines| - i
  {
    if i + cfg.minBlockSize > |lines| then []
    else
      var rest := BlocksFrom(cfg, lines, path, i + 1);
      var here := BlockAt(cfg, lines, path, i);
      if here.Some? then
        PlacedCons(cfg, |lines|, path, i, here.value, rest);
        [here.value] + rest
      else rest
  }

  lemma PlacedCons(cfg: Config, n: nat, path: string, i: nat, b: Block, rest: seq<Block>)
    requires Placed(cfg, n, path, i, b)
    requires forall j :: 0 <= j < |rest| ==> Placed(cfg, n, path, i + 1, rest[j])
    ensures forall j :: 0 <= j < |[b] + rest| ==> Placed(cfg, n, path, i, ([b] + rest)[j])
  {
    forall j | 1 <= j < |[b] + rest|
      ensures Placed(cfg, n, path, i, ([b] + rest)[j])
    {
      assert ([b] + rest)[j] == rest[j - 1];
    }
  }

  /** Block `b` is the block of a full window of `lines`, holding that window's normalised and original text. */
  predicate FromWindow(cfg: Config, lines: seq<string>, b: Block)
  {
    1 <= b.startLine && b.startLine - 1 + cfg.minBlockSize <= |lines| && WindowBlock(cfg, lines, b.startLine - 1, b)
  }

  /** Block `b` holds the normalised and original text of the full window starting at `s`. */
  predicate WindowBlock(cfg: Config, lines: seq<string>, s: nat, b: Block)
    requires s + cfg.minBlockSize <= |lines|
  {
    var window := lines[s..s + cfg.minBlockSize];
    && FullWindow(cfg, lines, s)
    && b.content == Join(NormalizeAll(cfg, window), '\n')
    && b.original == Join(window, '\n')
  }

  /** A window yields a block iff it is full, and the block holds the window's normalised and original text. */
  lemma BlockAtFull(cfg: Config, lines: seq<string>, path: string, i: nat)
    requires i + cfg.minBlockSize <= |lines|
    ensures BlockAt(cfg, lines, path, i).Some? <==> FullWindow(cfg, lines, i)
    ensures BlockAt(cfg, lines, path, i).Some? ==> FromWindow(cfg, lines, BlockAt(cfg, lines, path, i).value)
  {
    BlockAtSome(cfg, lines, path, i);
    if FullWindow(cfg, lines, i) {
      var window := lines[i..i + cfg.minBlockSize];
      BlockAtValue(cfg, lines, path, i);
      var b := Block(Join(NormalizeAll(cfg, window), '\n'), Join(window, '\n'), path, i + 1, i + cfg.minBlockSize, cfg.minBlockSize);
      assert WindowBlock(cfg, lines, i, b);
      assert b.startLine - 1 == i;
    }
  }

  lemma BlockAtSome(cfg: Config, lines: seq<string>, path: string, i: nat)
    requires i + cfg.minBlockSize <= |lines|
    ensures BlockAt(cfg, lines, path, i).Some? <==> FullWindow(cfg, lines, i)
  {
    var ns := NormalizeAll(cfg, lines[i..i + cfg.minBlockSize]);
    assert |Kept(ns)| >= cfg.minBlockSize <==> AllNonBlank(ns);
  }

  lemma BlockAtValue(cfg: Config, lines: seq<string>, path: string, i: nat)
    requires i + cfg.minBlockSize <= |lines| && FullWindow(cfg, lines, i)
    ensures var window := lines[i..i + cfg.minBlockSize];
      BlockAt(cfg, lines, path, i) ==
        Some(Block(Join(NormalizeAll(cfg, window), '\n'), Join(window, '\n'), path, i + 1, i + cfg.minBlockSize, cfg.minBlockSize))
  {
    var window := lines[i..i + cfg.minBlockSize];
    var ns := NormalizeAll(cfg, window);
    KeptWindow(ns, window);
    JoinEq(Kept(ns), ns, '\n');
    JoinEq(KeptOriginal(ns, window), window, '\n');
  }

  /** Equal pieces join to equal strings (stated once so that the solver need not rediscover it). */
  lemma JoinEq(a: seq<string>, b: seq<string>, c: char)
    requires a == b
    ensures Join(a, c) == Join(b, c)
  {
  }

  lemma KeptWindow(ns: seq<string>, window: seq<string>)
    requires |ns| == |window| && AllNonBlank(ns)
    ensures Kept(ns) == ns && KeptOriginal(ns, window) == window && |ns| == |Kept(ns)|
  {
    KeptFull(ns);
  }

  /** Every block comes from a full window and holds that window's normalised and original text. */
  lemma {:induction false} BlocksFromContent(cfg: Config, lines: seq<string>, path: string, i: nat)
    ensures AllFromWindow(cfg, lines, BlocksFrom(cfg, lines, path, i))
    decreases |lines| - i
  {
    if i + cfg.minBlockSize <= |lines| {
      var rest := BlocksFrom(cfg, lines, path, i + 1);
      var r := BlocksFrom(cfg, lines, path, i);
      BlocksFromContent(cfg, lines, path, i + 1);
      BlockAtFull(cfg, lines, path, i);
      var here := BlockAt(cfg, lines, path, i);
      if here.Some? {
        assert r == [here.value] + rest;
        assert r[1..] == rest;
      } else {
        assert r == rest;
      }
    }
  }

  /** Every block of `bs` comes from a full window of `lines` (see `FromWindow`). */
  predicate AllFromWindow(cfg: Config, lines: seq<string>, bs: seq<Block>)
  {
    |bs| == 0 || (FromWindow(cfg, lines, bs[0]) && AllFromWindow(cfg, lines, bs[1..]))
  }

  lemma {:induction false} AllFromWindowAt(cfg: Config, lines: seq<string>, bs: seq<Block>, j: nat)
    requires AllFromWindow(cfg, lines, bs) && j < |bs|
    ensures FromWindow(cfg, lines, bs[j])
    decreases j
  {
    if j > 0 {
      AllFromWindowAt(cfg, lines, bs[1..], j - 1);
    }
  }

  /** A window starting at or after `i` yields a block iff it is full. */
  lemma {:induction false} BlocksFromStarts(cfg: Config, lines: seq<string>, path: string, i: nat)
    ensures var r := BlocksFrom(cfg, lines, path, i);
      forall s :: i <= s && s + cfg.minBlockSize <= |lines| ==>
        (FullWindow(cfg, lines, s) <==> s + 1 in Starts(r))
    decreases |lines| - i
  {
    if i + cfg.minBlockSize <= |lines| {
      var rest := BlocksFrom(cfg, lines, path, i + 1);
      BlocksFromStarts(cfg, lines, path, i + 1);
      BlockAtFull(cfg, lines, path, i);
      var r := BlocksFrom(cfg, lines, path, i);
      var here := BlockAt(cfg, lines, path, i);
      var hs := if here.Some? then [here.value] else [];
      assert r == hs + rest;
      assert Starts(r) == Starts(hs) + Starts(rest);
      assert i + 1 !in Starts(rest);
      forall s | i <= s && s + cfg.minBlockSize <= |lines|
        ensures FullWindow(cfg, lines, s) <==> s + 1 in Starts(r)
      {
        if s > i {
          assert s + 1 !in Starts(hs);
        }
      }
    }
  }

  /** Start lines strictly increase along `bs`. */
  predicate StartsIncrease(bs: seq<Block>)
  {
    forall a, b :: 0 <= a < b < |bs| ==> bs[a].startLine < bs[b].startLine
  }

  /** Blocks come out in the order of the loop over window starts: strictly increasing start lines. */
  lemma {:induction false} BlocksFromOrdered(cfg: Config, lines: seq<string>, path: string, i: nat)
    ensures StartsIncrease(BlocksFrom(cfg, lines, path, i))
    decreases |lines| - i
  {
    if i + cfg.minBlockSize <= |lines| {
      var rest := BlocksFrom(cfg, lines, path, i + 1);
      BlocksFromOrdered(cfg, lines, path, i + 1);
      var here := BlockAt(cfg, lines, path, i);
      if here.Some? {
        assert BlocksFrom(cfg, lines, path, i) == [here.value] + rest;
        forall j | 0 <= j < |rest|
          ensures here.value.startLine < rest[j].startLine
        {
          assert Placed(cfg, |lines|, path, i + 1, rest[j]);
        }
        IncreaseCons(here.value, rest);
      } else {
        assert BlocksFrom(cfg, lines, path, i) == rest;
      }
    }
  }

  /** A block starting before every block of an increasing list keeps the list increasing. */
  lemma IncreaseCons(x: Block, rest: seq<Block>)
    requires StartsIncrease(rest)
    requires forall j :: 0 <= j < |rest| ==> x.startLine < rest[j].startLine
    ensures StartsIncrease([x] + rest)
  {
    var r := [x] + rest;
    forall a, b | 0 <= a < b < |r|
      ensures r[a].startLine < r[b].startLine
    {
      assert r[b] == rest[b - 1];
      if a > 0 {
        assert r[a] == rest[a - 1];
      }
    }
  }

  /** `DuplicationAnalyzer.extract_blocks`: lines are the pieces of `content.split('\n')`. */
  function ExtractBlocks(cfg: Config, content: string, path: string): (r: seq<Block>)
  {
    BlocksFrom(cfg, Split(content, '\n'), path, 0)
  }

  /**
   The window contract of `extract_blocks`: at most one block per window start
   (there are max(0, n - k + 1) starts over the n lines), every block spans k
   lines starting between line 1 and line n - k + 1, and a window yields a
   block iff all k of its lines normalise to non-blank text.
   */
  lemma ExtractBlocksWindows(cfg: Config, content: string, path: string)
    ensures var n := CountChar(content, '\n') + 1;
      var k := cfg.minBlockSize;
      var r := ExtractBlocks(cfg, content, path);
      && |r| <= (if k <= n then n - k + 1 else 0)
      && (n < k ==> r == [])
      && (forall j :: 0 <= j < |r| ==>
            r[j].size == k && r[j].endLine + 1 == r[j].startLine + k && 1 <= r[j].startLine <= n - k + 1)
      && (forall s :: 0 <= s && s + k <= n ==>
            (FullWindow(cfg, Split(content, '\n'), s) <==> s + 1 in Starts(r)))
      && (forall a, b :: 0 <= a < b < |r| ==> r[a].startLine < r[b].startLine)
  {
    BlocksFromStarts(cfg, Split(content, '\n'), path, 0);
    BlocksFromOrdered(cfg, Split(content, '\n'), path, 0);
    assert StartsIncrease(ExtractBlocks(cfg, content, path));
  }

  /** A whitespace-only file yields no block, so skipping it in `find_duplicates` changes nothing. */
  lemma {:induction false} BlankContentHasNoBlocks(cfg: Config, content: string, path: string)
    requires IsBlank(content)
    ensures ExtractBlocks(cfg, content, path) == [] || cfg.minBlockSize == 0
  {
    var lines := Split(content, '\n');
    var r := ExtractBlocks(cfg, content, path);
    if cfg.minBlockSize > 0 && |r| > 0 {
      BlocksFromContent(cfg, lines, path, 0);
      assert FromWindow(cfg, lines, r[0]);
      var s := r[0].startLine - 1;
      assert WindowBlock(cfg, lines, s, r[0]);
      FullWindowFirstLine(cfg, lines, s);
      BlankPieces(content, s);
      BlankNormalizes(cfg, lines[s]);
    }
  }

  /** The first line of a full window normalises to non-blank text. */
  lemma FullWindowFirstLine(cfg: Config, lines: seq<string>, s: nat)
    requires 0 < cfg.minBlockSize && s + cfg.minBlockSize <= |lines| && FullWindow(cfg, lines, s)
    ensures NonBlank(NormalizeLine(cfg, lines[s]))
  {
    var window := lines[s..s + cfg.minBlockSize];
    assert window[0] == lines[s];
    AllNonBlankAt(NormalizeAll(cfg, window), 0);
    NormalizeAllAt(cfg, window, 0);
  }

  /** Each piece of a blank string is blank. */
  lemma {:induction false} BlankPieces(content: string, i: nat)
    requires IsBlank(content) && i < |Split(content, '\n')|
    ensures IsBlank(Split(content, '\n')[i])
    decreases |content|
  {
    if |content| > 0 {
      var rest := Split(content[1..], '\n');
      if content[0] == '\n' {
        if i > 0 { BlankPieces(content[1..], i - 1); }
      } else if i == 0 {
        BlankPieces(content[1..], 0);
        assert Split(content, '\n')[0] == [content[0]] + rest[0];
      } else {
        BlankPieces(content[1..], i);
      }
    }
  }

  /** Comment stripping never turns a blank line into a non-blank one. */
  lemma {:induction false} BlankStripsToBlank(s: string)
    requires IsBlank(s)
    ensures StripComments(s) == s
    decreases |s|
  {
    if |s| > 0 {
      assert s[0] != '#' && s[0] != '/' && s[0] != '<';
      assert !LineCommentAt(s);
      assert !StartsWith(s, "<!--");
      assert IsBlank(s[1..]);
      BlankStripsToBlank(s[1..]);
      assert s == [s[0]] + s[1..];
    }
  }

  lemma BlankNormalizes(cfg: Config, line: string)
    requires IsBlank(line)
    ensures !NonBlank(NormalizeLine(cfg, line))
  {
    BlankStripsToBlank(line);
    if cfg.ignoreWhitespace {
      assert Strip(line) == "";
      assert NormalizeLine(cfg, line) == "";
    }
  }

  // ---------------------------------------------------------------------
  // find_duplicates
  // ---------------------------------------------------------------------

  /** One entry of `duplicates_details`. */
  datatype DuplicateGroup = DuplicateGroup(occurrences: nat, blocks: seq<Block>, size: nat, preview: string)

  /** `mayor_duplicacion`. */
  datatype MostDuplicated = MostDuplicated(archivo: string, porcentaje: real)

  /** The four bands of the summary line. */
  datatype Level = Excelente | Bueno | Moderado | Alto {
    function Description(): string {
      match this
      case Excelente => "Muy poca duplicación detectada"
      case Bueno => "Duplicación dentro de límites aceptables"
      case Moderado => "Duplicación moderada, considere refactorización"
      case Alto => "Alta duplicación, refactorización recomendada"
    }
  }

  /** The parts the summary sentence is assembled from, or the fixed error sentence. */
  datatype Summary = Assessment(level: Level, blocks: nat, files: nat) | AnalysisError

  /** The record `find_duplicates` returns; `error` is present only on the failure path. */
  datatype Report = Report(
    porcentajeGlobal: real,
    bloquesEncontrados: nat,
    totalOcurrencias: nat,
    lineasDuplicadas: nat,
    archivosAfectados: set<string>,
    totalArchivos: nat,
    mayorDuplicacion: Option<MostDuplicated>,
    duplicatesDetails: seq<(string, DuplicateGroup)>,
    summary: Summary,
    error: Option<string>)

  /** Blocks of every file with some non-whitespace content, in file order. */
  function AllBlocks(cfg: Config, files: seq<(string, string)>): (r: seq<Block>)
    ensures forall j :: 0 <= j < |r| ==>
      r[j].size == cfg.minBlockSize && r[j].endLine + 1 == r[j].startLine + cfg.minBlockSize
      && r[j].path in Dict.Keys(files)
  {
    if |files| == 0 then []
    else
      var front := AllBlocks(cfg, files[..|files| - 1]);
      var (path, content) := files[|files| - 1];
      assert Dict.Keys(files) == Dict.Keys(files[..|files| - 1]) + [path];
      front + (if IsBlank(content) then [] else ExtractBlocks(cfg, content, path))
  }

  /** Each block paired with its digest: the input of `blocks_by_hash[block['hash']].append(block)`. */
  function Keyed(md5: string -> string, bs: seq<Block>): (r: seq<(string, Block)>)
    ensures |r| == |bs|
    ensures forall j :: 0 <= j < |bs| ==> r[j] == (md5(bs[j].content), bs[j])
  {
    if |bs| == 0 then [] else Keyed(md5, bs[..|bs| - 1]) + [(md5(bs[|bs| - 1].content), bs[|bs| - 1])]
  }

  /** How many blocks share digest `h`. */
  function Occurrences(md5: string -> string, bs: seq<Block>, h: string): nat
  {
    |Dict.ValuesFor(Keyed(md5, bs), h)|
  }

  /** `content[:200] + '...' if len(content) > 200 else content`. */
  function Preview(content: string): (r: string)
    ensures |content| <= 200 ==> r == content
    ensures |content| > 200 ==> |r| == 203 && r[..200] == content[..200]
  {
    if |content| > 200 then content[..200] + "..." else content
  }

  /** The hash groups holding more than one block (`if len(blocks) > 1`), in group order. */
  function Duplicates(groups: seq<(string, seq<Block>)>): (d: seq<(string, DuplicateGroup)>)
    ensures forall i :: 0 <= i < |d| ==>
      && d[i].1.occurrences == |d[i].1.blocks| >= 2
      && d[i].1.size == d[i].1.blocks[0].size
      && (d[i].0, d[i].1.blocks) in groups
  {
    if |groups| == 0 then []
    else
      var front := Duplicates(groups[..|groups| - 1]);
      var (h, bs) := groups[|groups| - 1];
      var r := if |bs| > 1 then front + [(h, DuplicateGroup(|bs|, bs, bs[0].size, Preview(bs[0].content)))] else front;
      assert forall g :: 0 <= g < |groups| - 1 ==> groups[..|groups| - 1][g] == groups[g];
      r
  }

  /** Every hash group of more than one block is reported as a duplicate. */
  lemma {:induction false} DuplicatesComplete(groups: seq<(string, seq<Block>)>, g: nat)
    requires g < |groups| && |groups[g].1| > 1
    ensures exists i :: (0 <= i < |Duplicates(groups)| &&
      Duplicates(groups)[i].0 == groups[g].0 && Duplicates(groups)[i].1.blocks == groups[g].1)
    decreases |groups|
  {
    var d := Duplicates(groups);
    var front := Duplicates(groups[..|groups| - 1]);
    if g == |groups| - 1 {
      assert d[|front|].0 == groups[g].0 && d[|front|].1.blocks == groups[g].1;
    } else {
      DuplicatesComplete(groups[..|groups| - 1], g);
      var i :| 0 <= i < |front| && front[i].0 == groups[g].0 && front[i].1.blocks == groups[g].1;
      assert d[i] == front[i];
    }
  }

  function Occurrence(d: seq<(string, DuplicateGroup)>): (r: seq<nat>)
    ensures |r| == |d|
    ensures forall i :: 0 <= i < |d| ==> r[i] == d[i].1.occurrences
  {
    if |d| == 0 then [] else Occurrence(d[..|d| - 1]) + [d[|d| - 1].1.occurrences]
  }

  /** `blocks[0]['size'] * (len(blocks) - 1)` per duplicate group. */
  function ExtraLines(d: seq<(string, DuplicateGroup)>): (r: seq<nat>)
    requires forall i :: 0 <= i < |d| ==> d[i].1.occurrences >= 1
    ensures |r| == |d|
  {
    if |d| == 0 then []
    else ExtraLines(d[..|d| - 1]) + [Extra(d[|d| - 1].1)]
  }

  /** The lines one duplicate group adds beyond its first occurrence. */
  function Extra(g: DuplicateGroup): nat
    requires g.occurrences >= 1
  {
    g.size * (g.occurrences - 1)
  }

  /** The files of a list of blocks. */
  function Paths(bs: seq<Block>): set<string>
  {
    if |bs| == 0 then {} else Paths(bs[..|bs| - 1]) + {bs[|bs| - 1].path}
  }

  lemma {:induction false} PathsMember(bs: seq<Block>, f: string)
    ensures f in Paths(bs) <==> exists j :: 0 <= j < |bs| && bs[j].path == f
    decreases |bs|
  {
    if |bs| > 0 {
      var front := bs[..|bs| - 1];
      PathsMember(front, f);
      assert forall j :: 0 <= j < |front| ==> front[j] == bs[j];
    }
  }

  /** Files owning a block of some duplicate group (`files_with_duplicates`). */
  function AffectedFiles(d: seq<(string, DuplicateGroup)>): set<string>
  {
    if |d| == 0 then {} else AffectedFiles(d[..|d| - 1]) + Paths(d[|d| - 1].1.blocks)
  }

  lemma {:induction false} AffectedAt(d: seq<(string, DuplicateGroup)>, i: nat, j: nat)
    requires i < |d| && j < |d[i].1.blocks|
    ensures d[i].1.blocks[j].path in AffectedFiles(d)
    decreases |d|
  {
    if i < |d| - 1 {
      assert d[..|d| - 1][i] == d[i];
      AffectedAt(d[..|d| - 1], i, j);
    } else {
      PathsMember(d[i].1.blocks, d[i].1.blocks[j].path);
    }
  }

  lemma {:induction false} AffectedWitness(d: seq<(string, DuplicateGroup)>, f: string) returns (i: nat, j: nat)
    requires f in AffectedFiles(d)
    ensures i < |d| && j < |d[i].1.blocks| && d[i].1.blocks[j].path == f
    decreases |d|
  {
    var front := d[..|d| - 1];
    if f in AffectedFiles(front) {
      i, j := AffectedWitness(front, f);
      assert front[i] == d[i];
    } else {
      PathsMember(d[|d| - 1].1.blocks, f);
      i := |d| - 1;
      j :| 0 <= j < |d[i].1.blocks| && d[i].1.blocks[j].path == f;
    }
  }

  /** `(path, size)` for every block of every duplicate group, in iteration order. */
  function Contributions(d: seq<(string, DuplicateGroup)>): seq<(string, nat)>
  {
    if |d| == 0 then []
    else Contributions(d[..|d| - 1]) + BlockContributions(d[|d| - 1].1.blocks, d[|d| - 1].1.size)
  }

  function BlockContributions(bs: seq<Block>, size: nat): (r: seq<(string, nat)>)
    ensures |r| == |bs|
    ensures forall j :: 0 <= j < |bs| ==> r[j] == (bs[j].path, size)
  {
    if |bs| == 0 then [] else BlockContributions(bs[..|bs| - 1], size) + [(bs[|bs| - 1].path, size)]
  }

  /** Per-file sums of a `file_duplication_stats` grouping. */
  function GroupSums(g: seq<(string, seq<nat>)>): (r: seq<int>)
    ensures |r| == |g|
    ensures forall i :: 0 <= i < |g| ==> r[i] == SumNat(g[i].1)
  {
    if |g| == 0 then [] else GroupSums(g[..|g| - 1]) + [SumNat(g[|g| - 1].1)]
  }

  /** Line count of a file as `len(content.split('\n'))`. */
  function LineCount(content: string): nat
  {
    |Split(content, '\n')|
  }

  function LineCounts(files: seq<(string, string)>): (r: seq<nat>)
    ensures |r| == |files|
  {
    if |files| == 0 then [] else LineCounts(files[..|files| - 1]) + [LineCount(files[|files| - 1].1)]
  }

  /** `(part / max(whole, 1)) * 100`. */
  function Percent(part: nat, whole: nat): (r: real)
    ensures r >= 0.0
  {
    (part as real) / ((if whole < 1 then 1 else whole) as real) * 100.0
  }

  /** Severity order of the bands. */
  function Rank(l: Level): nat
  {
    match l
    case Excelente => 0
    case Bueno => 1
    case Moderado => 2
    case Alto => 3
  }

  /** More duplication never earns a better band. */
  lemma BandMonotone(p: real, q: real)
    requires p <= q
    ensures Rank(Band(p)) <= Rank(Band(q))
  {
  }

  /** `_generate_summary`'s banding of the global percentage. */
  function Band(percentage: real): (l: Level)
    ensures l == Excelente <==> percentage < 5.0
    ensures l == Bueno <==> 5.0 <= percentage < 15.0
    ensures l == Moderado <==> 15.0 <= percentage < 25.0
    ensures l == Alto <==> 25.0 <= percentage
  {
    if percentage < 5.0 then Excelente
    else if percentage < 15.0 then Bueno
    else if percentage < 25.0 then Moderado
    else Alto
  }

  /** The file with the largest summed duplicated-block size, first on ties, and its share of its own lines. */
  function MostDuplicatedFile(files: seq<(string, string)>, d: seq<(string, DuplicateGroup)>): Option<MostDuplicated>
  {
    var stats := Dict.GroupBy(Contributions(d));
    if |stats| == 0 then None
    else
      var i := Dict.ArgMax(GroupSums(stats));
      var path := stats[i].0;
      var lines := LineCount(Dict.GetOr(files, path, ""));
      Some(MostDuplicated(path, Percent(SumNat(stats[i].1), lines)))
  }

  /** `blocks_by_hash`: the blocks of all files grouped by digest, digests in order of first appearance. */
  function Groups(cfg: Config, md5: string -> string, files: seq<(string, string)>): seq<(string, seq<Block>)>
  {
    Dict.GroupBy(Keyed(md5, AllBlocks(cfg, files)))
  }

  /** `DuplicationAnalyzer.find_duplicates` over an insertion-ordered `{file_path: content}`. */
  function FindDuplicates(cfg: Config, md5: string -> string, files: seq<(string, string)>): (r: Report)
    ensures r.totalArchivos == |files| && r.error.None? && r.summary.Assessment?
  {
    var groups := Groups(cfg, md5, files);
    var d := Duplicates(groups);
    var dupLines := SumNat(ExtraLines(d));
    var affected := AffectedFiles(d);
    var totalLines := SumNat(LineCounts(files));
    var pct := Percent(dupLines, totalLines);
    Report(pct, |d|, SumNat(Occurrence(d)), dupLines, affected, |files|,
           MostDuplicatedFile(files, d), d, Assessment(Band(pct), |d|, |affected|), None)
  }

  /** The zeroed record of the failure path. */
  function ErrorReport(fileCount: nat, message: string): Report
  {
    Report(0.0, 0, 0, 0, {}, fileCount, None, [], AnalysisError, Some(message))
  }

  /**
   `DuplicationAnalyzer.analyze_repository_files`: `fault` is the exception,
   if any, that `find_duplicates` raises (the pure model raises none of its own).
   It never raises: a fault becomes the zeroed record with the message.
   */
  function AnalyzeRepositoryFiles(cfg: Config, md5: string -> string, files: seq<(string, string)>, fault: Option<string>): (r: Report)
    ensures r.error.Some? <==> fault.Some?
    ensures fault.Some? ==>
      && r.porcentajeGlobal == 0.0 && r.bloquesEncontrados == 0 && r.totalOcurrencias == 0
      && r.lineasDuplicadas == 0 && r.archivosAfectados == {} && r.mayorDuplicacion.None? && r.duplicatesDetails == []
      && r.totalArchivos == |files| && r.error == fault && r.summary == AnalysisError
    ensures fault.None? ==> r.totalArchivos == |files| && r.summary.Assessment?
  {
    match fault
    case Some(e) => ErrorReport(|files|, e)
    case None => FindDuplicates(cfg, md5, files)
  }

  // ---------------------------------------------------------------------
  // Properties of find_duplicates
  // ---------------------------------------------------------------------

  /** Every block of a digest group is a block of the input and has that digest. */
  lemma GroupMember(md5: string -> string, bs: seq<Block>, gi: nat, n: nat)
    requires gi < |Dict.GroupBy(Keyed(md5, bs))| && n < |Dict.GroupBy(Keyed(md5, bs))[gi].1|
    ensures Dict.GroupBy(Keyed(md5, bs))[gi].1[n] in bs
    ensures md5(Dict.GroupBy(Keyed(md5, bs))[gi].1[n].content) == Dict.GroupBy(Keyed(md5, bs))[gi].0
  {
    var xs := Keyed(md5, bs);
    var g := Dict.GroupBy(xs)[gi];
    Dict.GroupAt(xs, gi);
    Dict.ValuesForSource(xs, g.0, n);
    var j :| 0 <= j < |xs| && xs[j] == (g.0, g.1[n]);
  }

  /** Every block reported as a duplicate is a block of the input with the group's digest and the configured size. */
  lemma DuplicateMember(cfg: Config, md5: string -> string, files: seq<(string, string)>, i: nat, n: nat)
    requires i < |Duplicates(Groups(cfg, md5, files))|
    requires n < |Duplicates(Groups(cfg, md5, files))[i].1.blocks|
    ensures var e := Duplicates(Groups(cfg, md5, files))[i];
      && e.1.blocks[n] in AllBlocks(cfg, files)
      && md5(e.1.blocks[n].content) == e.0
      && e.1.blocks[n].size == cfg.minBlockSize
      && e.1.size == cfg.minBlockSize
      && e.1.occurrences == Occurrences(md5, AllBlocks(cfg, files), e.0)
  {
    var groups := Groups(cfg, md5, files);
    var e := Duplicates(groups)[i];
    var all := AllBlocks(cfg, files);
    var gi :| 0 <= gi < |groups| && groups[gi] == (e.0, e.1.blocks);
    GroupMember(md5, all, gi, n);
    GroupMember(md5, all, gi, 0);
    Dict.GroupAt(Keyed(md5, all), gi);
  }

  /** A file is affected only if one of its blocks has a digest that at least two blocks share. */
  lemma AffectedFilesSound(cfg: Config, md5: string -> string, files: seq<(string, string)>, f: string)
    requires f in AffectedFiles(Duplicates(Groups(cfg, md5, files)))
    ensures exists b :: b in AllBlocks(cfg, files) && b.path == f && Occurrences(md5, AllBlocks(cfg, files), md5(b.content)) >= 2
  {
    var d := Duplicates(Groups(cfg, md5, files));
    var i, j := AffectedWitness(d, f);
    DuplicateMember(cfg, md5, files, i, j);
    var b := d[i].1.blocks[j];
    assert b in AllBlocks(cfg, files) && b.path == f;
  }

  /** A file one of whose blocks shares its digest with another block is affected. */
  lemma AffectedFilesComplete(cfg: Config, md5: string -> string, files: seq<(string, string)>, b: Block)
    requires b in AllBlocks(cfg, files) && Occurrences(md5, AllBlocks(cfg, files), md5(b.content)) >= 2
    ensures b.path in AffectedFiles(Duplicates(Groups(cfg, md5, files)))
  {
    var all := AllBlocks(cfg, files);
    var xs := Keyed(md5, all);
    var groups := Groups(cfg, md5, files);
    var d := Duplicates(groups);
    var p :| 0 <= p < |all| && all[p] == b;
    assert xs[p] == (md5(b.content), b);
    var gi := Dict.GroupOf(xs, p);
    assert groups == Dict.GroupBy(xs);
    assert b in groups[gi].1;
    assert |groups[gi].1| > 1;
    DuplicatesComplete(groups, gi);
    var i :| 0 <= i < |d| && d[i].0 == groups[gi].0 && d[i].1.blocks == groups[gi].1;
    var bs := d[i].1.blocks;
    assert b in bs;
    var j :| 0 <= j < |bs| && bs[j] == b;
    AffectedAt(d, i, j);
  }

  /**
   A file is reported as affected iff one of its blocks has a digest that at
   least two blocks of the input share.
   */
  lemma AffectedFilesExact(cfg: Config, md5: string -> string, files: seq<(string, string)>, f: string)
    ensures f in FindDuplicates(cfg, md5, files).archivosAfectados <==>
      exists b :: b in AllBlocks(cfg, files) && b.path == f && Occurrences(md5, AllBlocks(cfg, files), md5(b.content)) >= 2
  {
    assert FindDuplicates(cfg, md5, files).archivosAfectados == AffectedFiles(Duplicates(Groups(cfg, md5, files)));
    if f in AffectedFiles(Duplicates(Groups(cfg, md5, files))) {
      AffectedFilesSound(cfg, md5, files, f);
    }
    if exists b :: b in AllBlocks(cfg, files) && b.path == f && Occurrences(md5, AllBlocks(cfg, files), md5(b.content)) >= 2 {
      var b :| b in AllBlocks(cfg, files) && b.path == f && Occurrences(md5, AllBlocks(cfg, files), md5(b.content)) >= 2;
      AffectedFilesComplete(cfg, md5, files, b);
    }
  }

  lemma {:induction false} OccurrenceAtLeastTwo(d: seq<(string, DuplicateGroup)>)
    requires forall i :: 0 <= i < |d| ==> d[i].1.occurrences >= 2
    ensures SumNat(Occurrence(d)) >= 2 * |d|
  {
    SumNatLowerBound(Occurrence(d), 2);
  }

  lemma {:induction false} ExtraLinesSum(d: seq<(string, DuplicateGroup)>, k: nat)
    requires forall i :: 0 <= i < |d| ==> d[i].1.occurrences >= 1 && d[i].1.size == k
    ensures SumNat(ExtraLines(d)) + k * |d| == k * SumNat(Occurrence(d))
    decreases |d|
  {
    if |d| > 0 {
      var front := d[..|d| - 1];
      ExtraLinesSum(front, k);
      ExtraLinesSnoc(d);
      ExtraLinesStep(k, SumNat(ExtraLines(front)), SumNat(Occurrence(front)), d[|d| - 1].1.occurrences, |front|);
    }
  }

  lemma ExtraLinesSnoc(d: seq<(string, DuplicateGroup)>)
    requires |d| > 0 && forall i :: 0 <= i < |d| ==> d[i].1.occurrences >= 1
    ensures var g := d[|d| - 1].1;
      && SumNat(ExtraLines(d)) == SumNat(ExtraLines(d[..|d| - 1])) + Extra(g)
      && SumNat(Occurrence(d)) == SumNat(Occurrence(d[..|d| - 1])) + g.occurrences
  {
    var g := d[|d| - 1].1;
    var front := d[..|d| - 1];
    SumNatSnoc(ExtraLines(front), Extra(g));
    SumNatSnoc(Occurrence(front), g.occurrences);
  }

  lemma ExtraLinesStep(k: nat, e: nat, a: nat, o: nat, n: nat)
    requires o >= 1 && e + k * n == k * a
    ensures (e + k * (o - 1)) + k * (n + 1) == k * (a + o)
  {
    assert k * (o - 1) + k == k * o;
    assert k * (n + 1) == k * n + k;
    assert k * (a + o) == k * a + k * o;
  }

  /** Reported duplicates never count more blocks than the grouping holds. */
  lemma {:induction false} DuplicatesWithinGroups(groups: seq<(string, seq<Block>)>)
    ensures SumNat(Occurrence(Duplicates(groups))) <= SumNat(Dict.Sizes(groups))
    decreases |groups|
  {
    if |groups| > 0 {
      var front := groups[..|groups| - 1];
      DuplicatesWithinGroups(front);
      var (h, bs) := groups[|groups| - 1];
      assert Dict.Sizes(groups) == Dict.Sizes(front) + [|bs|];
      if |bs| > 1 {
        assert Occurrence(Duplicates(groups)) == Occurrence(Duplicates(front)) + [|bs|];
      }
    }
  }

  /**
   The counters of the report: every duplicate group has at least two
   occurrences, the occurrences come from the blocks found, and each
   occurrence beyond the first of a group adds one block of `k` lines.
   */
  lemma FindDuplicatesCounts(cfg: Config, md5: string -> string, files: seq<(string, string)>)
    ensures var r := FindDuplicates(cfg, md5, files);
      && r.totalOcurrencias >= 2 * r.bloquesEncontrados
      && r.totalOcurrencias <= |AllBlocks(cfg, files)|
      && r.lineasDuplicadas + cfg.minBlockSize * r.bloquesEncontrados == cfg.minBlockSize * r.totalOcurrencias
  {
    var groups := Groups(cfg, md5, files);
    var d := Duplicates(groups);
    OccurrenceAtLeastTwo(d);
    DuplicatesWithinGroups(groups);
    Dict.GroupByPartition(Keyed(md5, AllBlocks(cfg, files)));
    forall i | 0 <= i < |d|
      ensures d[i].1.occurrences >= 1 && d[i].1.size == cfg.minBlockSize
    {
      DuplicateMember(cfg, md5, files, i, 0);
    }
    ExtraLinesSum(d, cfg.minBlockSize);
  }

  /** Total size of the duplicate blocks located in file `f`: its entry in `file_duplication_stats`. */
  function DuplicatedLinesIn(d: seq<(string, DuplicateGroup)>, f: string): nat
  {
    SumNat(Dict.ValuesFor(Contributions(d), f))
  }

  /** The files with an entry in `file_duplication_stats` are exactly the affected files. */
  lemma {:induction false} ContributionKeys(d: seq<(string, DuplicateGroup)>, f: string)
    ensures f in Dict.Keys(Contributions(d)) <==> f in AffectedFiles(d)
    decreases |d|
  {
    if |d| > 0 {
      var front := d[..|d| - 1];
      var last := d[|d| - 1].1;
      var bc := BlockContributions(last.blocks, last.size);
      ContributionKeys(front, f);
      assert Contributions(d) == Contributions(front) + bc;
      assert Dict.Keys(Contributions(d)) == Dict.Keys(Contributions(front)) + Dict.Keys(bc);
      PathsMember(last.blocks, f);
      if f in Dict.Keys(bc) {
        var j :| 0 <= j < |bc| && Dict.Keys(bc)[j] == f;
        assert last.blocks[j].path == f;
      }
      if f in Paths(last.blocks) {
        var j :| 0 <= j < |last.blocks| && last.blocks[j].path == f;
        assert Dict.Keys(bc)[j] == f;
      }
    }
  }

  /** `file_duplication_stats` is empty iff there is no duplicate group. */
  lemma StatsEmpty(d: seq<(string, DuplicateGroup)>)
    requires forall i :: 0 <= i < |d| ==> |d[i].1.blocks| > 0
    ensures |Dict.GroupBy(Contributions(d))| == 0 <==> |d| == 0
  {
    var c := Contributions(d);
    if |d| > 0 {
      var f0 := d[0].1.blocks[0].path;
      AffectedAt(d, 0, 0);
      ContributionKeys(d, f0);
      assert Dict.Keys(c)[0] in Dict.FirstAppearances(Dict.Keys(c));
      assert |Dict.Keys(Dict.GroupBy(c))| > 0;
    }
  }

  /** The file `max` picks has a duplicated-line total no affected file exceeds. */
  lemma StatsMax(d: seq<(string, DuplicateGroup)>, ai: nat)
    requires 0 < |Dict.GroupBy(Contributions(d))|
    requires ai == Dict.ArgMax(GroupSums(Dict.GroupBy(Contributions(d))))
    ensures Dict.GroupBy(Contributions(d))[ai].0 in AffectedFiles(d)
    ensures forall f :: f in AffectedFiles(d) ==> DuplicatedLinesIn(d, f) <= DuplicatedLinesIn(d, Dict.GroupBy(Contributions(d))[ai].0)
  {
    var c := Contributions(d);
    var stats := Dict.GroupBy(c);
    var m := stats[ai].0;
    assert m == Dict.Keys(stats)[ai];
    ContributionKeys(d, m);
    forall f | f in AffectedFiles(d)
      ensures DuplicatedLinesIn(d, f) <= DuplicatedLinesIn(d, m)
    {
      StatsBelow(d, ai, f);
    }
  }

  /** No affected file's duplicated-line total exceeds that of the file `max` picks. */
  lemma StatsBelow(d: seq<(string, DuplicateGroup)>, ai: nat, f: string)
    requires 0 < |Dict.GroupBy(Contributions(d))|
    requires ai == Dict.ArgMax(GroupSums(Dict.GroupBy(Contributions(d))))
    requires f in AffectedFiles(d)
    ensures DuplicatedLinesIn(d, f) <= DuplicatedLinesIn(d, Dict.GroupBy(Contributions(d))[ai].0)
  {
    var c := Contributions(d);
    var stats := Dict.GroupBy(c);
    Dict.GroupAt(c, ai);
    ContributionKeys(d, f);
    Dict.GroupByHasKey(c, f);
    var fi := Dict.IndexOf(stats, f);
    Dict.GroupAt(c, fi);
    assert GroupSums(stats)[fi] <= GroupSums(stats)[ai];
  }

  /**
   `mayor_duplicacion` is absent iff there is no duplicate group; otherwise it
   names an affected file whose duplicated-line total no affected file exceeds.
   */
  lemma MostDuplicatedFileSpec(files: seq<(string, string)>, d: seq<(string, DuplicateGroup)>)
    requires forall i :: 0 <= i < |d| ==> |d[i].1.blocks| > 0
    ensures MostDuplicatedFile(files, d).None? <==> |d| == 0
    ensures MostDuplicatedFile(files, d).Some? ==>
      var m := MostDuplicatedFile(files, d).value.archivo;
      && m in AffectedFiles(d)
      && forall f :: f in AffectedFiles(d) ==> DuplicatedLinesIn(d, f) <= DuplicatedLinesIn(d, m)
  {
    StatsEmpty(d);
    if |d| > 0 {
      StatsMax(d, Dict.ArgMax(GroupSums(Dict.GroupBy(Contributions(d)))));
    }
  }

  /** The report's `mayor_duplicacion`: absent iff no duplicate group, else an affected input file of maximal duplicated-line total. */
  lemma FindDuplicatesMost(cfg: Config, md5: string -> string, files: seq<(string, string)>)
    ensures var r := FindDuplicates(cfg, md5, files);
      r.mayorDuplicacion.None? <==> r.bloquesEncontrados == 0
    ensures var r := FindDuplicates(cfg, md5, files);
      r.mayorDuplicacion.Some? ==>
        var m := r.mayorDuplicacion.value.archivo;
        && m in r.archivosAfectados
        && Dict.HasKey(files, m)
        && forall f :: f in r.archivosAfectados ==> DuplicatedLinesIn(r.duplicatesDetails, f) <= DuplicatedLinesIn(r.duplicatesDetails, m)
  {
    var d := Duplicates(Groups(cfg, md5, files));
    MostDuplicatedFileSpec(files, d);
    var md := MostDuplicatedFile(files, d);
    if md.Some? {
      var m := md.value.archivo;
      AffectedFilesSound(cfg, md5, files, m);
      var b :| b in AllBlocks(cfg, files) && b.path == m && Occurrences(md5, AllBlocks(cfg, files), md5(b.content)) >= 2;
    }
  }

  /** Newlines over all files. */
  function Newlines(files: seq<(string, string)>): nat
  {
    if |files| == 0 then 0 else Newlines(files[..|files| - 1]) + CountChar(files[|files| - 1].1, '\n')
  }

  /**
   `total_lines` counts one line per file plus one per newline, whitespace-only
   files included; the global percentage is never negative.
   */
  lemma {:induction false} TotalLines(files: seq<(string, string)>)
    ensures SumNat(LineCounts(files)) == |files| + Newlines(files)
    decreases |files|
  {
    if |files| > 0 {
      TotalLines(files[..|files| - 1]);
    }
  }

  /** The global percentage is duplicated lines per hundred lines of input (one more than the newlines, per file). */
  lemma FindDuplicatesPercentage(cfg: Config, md5: string -> string, files: seq<(string, string)>)
    ensures var r := FindDuplicates(cfg, md5, files);
      && r.porcentajeGlobal >= 0.0
      && (|files| > 0 ==> r.porcentajeGlobal == (r.lineasDuplicadas as real) / ((|files| + Newlines(files)) as real) * 100.0)
  {
    TotalLines(files);
    var r := FindDuplicates(cfg, md5, files);
    var d := Duplicates(Groups(cfg, md5, files));
    assert r.porcentajeGlobal == Percent(r.lineasDuplicadas, SumNat(LineCounts(files)));
  }
}
