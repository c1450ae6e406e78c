/** Comment removal by file-type family (`remove_comments_by_type`).

    Each `re.sub` of the source is a left-to-right scanner over the text:
    at each position it either recognises a match of the pattern there (the
    leftmost one, since every earlier position was already tried) and emits
    the replacement, continuing after the match, or copies one character.
    A scanner that needs a look-behind carries the relevant fact about the
    previous character as a flag. */
module Comments {
  import opened Chars

  /** The comment-syntax group an (already lower-cased) extension belongs to. */
  datatype Family = Hash | CStyle | Markup | Php | Unhandled

  function FamilyOf(ext: string): (f: Family)
    ensures f == Hash <==> ext == ".py"
    ensures f == Php <==> ext == ".php"
    ensures f == Markup <==> ext in {".html", ".xml"}
    ensures f == CStyle <==> ext in [".c", ".cpp", ".h", ".hpp", ".java", ".m", ".js", ".jsx",
                                     ".ts", ".tsx", ".cs", ".css", ".scss", ".less"]
  {
    if ext == ".py" then Hash
    else if ext in [".c", ".cpp", ".h", ".hpp", ".java", ".m", ".js", ".jsx", ".ts", ".tsx", ".cs", ".css", ".scss", ".less"] then CStyle
    else if ext in [".html", ".xml"] then Markup
    else if ext == ".php" then Php
    else Unhandled
  }

  // ---------------------------------------------------------------------
  // Scanning helpers

  /** First index at or after `i` that is neither ' ' nor '\t' (`[ \t]*`). */
  function BlankEnd(t: string, i: nat): (k: nat)
    requires i <= |t|
    ensures i <= k <= |t|
    ensures k < |t| ==> t[k] != ' ' && t[k] != '\t'
    ensures i < k ==> t[k - 1] == ' ' || t[k - 1] == '\t'
    ensures i < |t| && t[i] == '\n' ==> k == i
    decreases |t| - i
  {
    if i == |t| || (t[i] != ' ' && t[i] != '\t') then i else BlankEnd(t, i + 1)
  }

  lemma {:induction false} SpaceEndShift(t: string, j: nat)
    requires 1 + j <= |t|
    ensures SpaceEnd(t, 1 + j) == 1 + SpaceEnd(t[1..], j)
    decreases |t| - j
  {
    if 1 + j < |t| && IsSpace(t[1 + j]) {
      assert t[1..][j] == t[1 + j];
      SpaceEndShift(t, j + 1);
    }
  }

  lemma {:induction false} BlankEndShift(t: string, j: nat)
    requires 1 + j <= |t|
    ensures BlankEnd(t, 1 + j) == 1 + BlankEnd(t[1..], j)
    decreases |t| - j
  {
    if 1 + j < |t| && (t[1 + j] == ' ' || t[1 + j] == '\t') {
      assert t[1..][j] == t[1 + j];
      BlankEndShift(t, j + 1);
    }
  }

  lemma {:induction false} LineEndShift(t: string, j: nat)
    requires 1 + j <= |t|
    ensures LineEnd(t, 1 + j) == 1 + LineEnd(t[1..], j)
    decreases |t| - j
  {
    if 1 + j < |t| && t[1 + j] != '\n' {
      assert t[1..][j] == t[1 + j];
      LineEndShift(t, j + 1);
    }
  }

  lemma NewlineCountSplit(t: string, e: nat)
    requires e <= |t|
    ensures Count(t, '\n') == Count(t[..e], '\n') + Count(t[e..], '\n')
  {
    assert t == t[..e] + t[e..];
    CountAppend(t[..e], t[e..], '\n');
  }

  /** Removing `t[..e]` when it holds no '\n' keeps the newline count. */
  lemma NewlineFreePrefix(t: string, e: nat)
    requires e <= |t|
    requires forall m :: 0 <= m < e ==> t[m] != '\n'
    ensures Count(t[e..], '\n') == Count(t, '\n')
  {
    NewlineCountSplit(t, e);
    assert forall m :: 0 <= m < e ==> t[..e][m] == t[m];
    CountAbsent(t[..e], '\n');
  }

  // ---------------------------------------------------------------------
  // Block comments: `re.sub(r'/\*[\s\S]*?\*/', ...)` and
  // `re.sub(r'<!--[\s\S]*?-->', ...)`, each match replaced by
  // `'\n' * match.count('\n')`.

  /** Index just past the block comment that opens at the start of `t`, if
      `t` starts with `open` and some `close` begins after the whole opener. */
  function BlockEnd(t: string, open: string, close: string): (r: Option<nat>)
    requires |open| > 0
    ensures r.Some? ==> |open| + |close| <= r.value <= |t|
    ensures r.Some? ==> StartsAt(t, 0, open) && StartsAt(t, r.value - |close|, close)
  {
    if StartsAt(t, 0, open) then
      match FindFrom(t, close, |open|)
      case Some(j) => Some(j + |close|)
      case None => None
    else None
  }

  function StripBlocks(t: string, open: string, close: string): (r: string)
    requires |open| > 0
    ensures Count(r, '\n') == Count(t, '\n')
    ensures |r| <= |t|
    decreases |t|
  {
    if t == [] then ""
    else match BlockEnd(t, open, close)
      case Some(e) =>
        var rest := StripBlocks(t[e..], open, close);
        CountNewlines(Count(t[..e], '\n'));
        CountAppend(Newlines(Count(t[..e], '\n')), rest, '\n');
        NewlineCountSplit(t, e);
        CountBound(t[..e], '\n');
        Newlines(Count(t[..e], '\n')) + rest
      case None =>
        var rest := StripBlocks(t[1..], open, close);
        CountAppend([t[0]], rest, '\n');
        NewlineCountSplit(t, 1);
        [t[0]] + rest
  }

  lemma CountBound(s: string, c: char)
    ensures Count(s, c) <= |s|
  {
  }

  /** Some complete block comment occurs in `t`: an opener, and a closer
      that begins after the opener ends. */
  ghost predicate HasBlock(t: string, open: string, close: string)
  {
    exists i: nat, j: nat :: i + |open| <= j && StartsAt(t, i, open) && StartsAt(t, j, close)
  }

  lemma StartsAtShift(t: string, i: nat, pat: string)
    requires 0 < |t|
    ensures StartsAt(t, i + 1, pat) <==> StartsAt(t[1..], i, pat)
  {
    if i + 1 + |pat| <= |t| {
      assert t[1..][i..i + |pat|] == t[i + 1..i + 1 + |pat|];
    }
  }

  /** A matched block holds its opener, which has no '\n', so the newlines
      that replace it are fewer than its characters. */
  lemma BlockMatchShrinks(t: string, open: string, close: string, e: nat)
    requires |open| > 0 && '\n' !in open && BlockEnd(t, open, close) == Some(e)
    ensures Count(t[..e], '\n') < e
  {
    var m := t[..e];
    assert m[..|open|] == open;
    CountAbsent(open, '\n');
    NewlineCountSplit(m, |open|);
    CountBound(m[|open|..], '\n');
  }

  /** Where no block starts at the first character, a complete block occurs
      in `t` exactly when one occurs after that character. */
  lemma HasBlockStep(t: string, open: string, close: string)
    requires |open| > 0 && t != [] && BlockEnd(t, open, close).None?
    ensures HasBlock(t, open, close) <==> HasBlock(t[1..], open, close)
  {
    if HasBlock(t, open, close) {
      var i: nat, j: nat :| i + |open| <= j && StartsAt(t, i, open) && StartsAt(t, j, close);
      if i == 0 {
        assert false;
      }
      StartsAtShift(t, i - 1, open);
      StartsAtShift(t, j - 1, close);
      assert HasBlock(t[1..], open, close);
    }
    if HasBlock(t[1..], open, close) {
      var i: nat, j: nat :| i + |open| <= j && StartsAt(t[1..], i, open) && StartsAt(t[1..], j, close);
      StartsAtShift(t, i, open);
      StartsAtShift(t, j, close);
      assert HasBlock(t, open, close);
    }
  }

  /** Block stripping changes the text exactly when it holds a complete
      block comment. */
  lemma {:induction false} StripBlocksUnchangedIff(t: string, open: string, close: string)
    requires |open| > 0 && '\n' !in open
    ensures StripBlocks(t, open, close) == t <==> !HasBlock(t, open, close)
    decreases |t|
  {
    if t != [] {
      match BlockEnd(t, open, close)
      case Some(e) =>
        assert HasBlock(t, open, close) by {
          assert StartsAt(t, 0, open) && StartsAt(t, e - |close|, close);
        }
        BlockMatchShrinks(t, open, close, e);
        var rest := StripBlocks(t[e..], open, close);
        assert |StripBlocks(t, open, close)| == Count(t[..e], '\n') + |rest|;
      case None =>
        StripBlocksUnchangedIff(t[1..], open, close);
        HasBlockStep(t, open, close);
        assert StripBlocks(t, open, close) == [t[0]] + StripBlocks(t[1..], open, close);
        assert t == [t[0]] + t[1..];
    }
  }

  lemma BlocksCopyStep(t: string, open: string, close: string)
    requires |open| > 0 && t != [] && BlockEnd(t, open, close).None?
    ensures StripBlocks(t, open, close) == [t[0]] + StripBlocks(t[1..], open, close)
  {
  }

  /** One copied character joins the kept prefix `t[k..i]`. */
  lemma BlocksCopyFrom(t: string, k: nat, i: nat, mid: string, rest: string, open: string, close: string)
    requires |open| > 0 && k < i <= |t| && BlockEnd(t[k..], open, close).None?
    requires StripBlocks(t[k + 1..], open, close) == t[k + 1..i] + mid + rest
    ensures StripBlocks(t[k..], open, close) == t[k..i] + mid + rest
  {
    BlocksCopyStep(t[k..], open, close);
    DropDrop(t, k, 1);
    ConsSlice(t, k, i);
    ConsAssoc(t[k], t[k + 1..i] + mid, rest);
    ConsAssoc(t[k], t[k + 1..i], mid);
  }

  /** The leftmost-match argument from offset `k` on: no block starts in
      `[k, i)` and one spans `[i, e)`. */
  lemma {:induction false} BlocksFirstMatchFrom(t: string, k: nat, i: nat, e: nat, open: string, close: string)
    requires |open| > 0 && k <= i <= e <= |t| && BlockEnd(t[i..], open, close) == Some(e - i)
    requires forall j: nat :: k <= j < i ==> BlockEnd(t[j..], open, close).None?
    ensures StripBlocks(t[k..], open, close) ==
            t[k..i] + Newlines(Count(t[i..e], '\n')) + StripBlocks(t[e..], open, close)
    decreases i - k
  {
    if k < i {
      BlocksFirstMatchFrom(t, k + 1, i, e, open, close);
      BlocksCopyFrom(t, k, i, Newlines(Count(t[i..e], '\n')), StripBlocks(t[e..], open, close), open, close);
    } else {
      BlocksFirstMatchAt(t, i, e, open, close);
    }
  }

  lemma BlocksFirstMatchAt(t: string, i: nat, e: nat, open: string, close: string)
    requires |open| > 0 && i <= e <= |t| && BlockEnd(t[i..], open, close) == Some(e - i)
    ensures StripBlocks(t[i..], open, close) ==
            t[i..i] + Newlines(Count(t[i..e], '\n')) + StripBlocks(t[e..], open, close)
  {
    var u := t[i..];
    BlockAtStart(u, e - i, open, close);
    SuffixSlices(t, i, e);
    EmptyPrefix(t[i..i], Newlines(Count(t[i..e], '\n')), StripBlocks(t[e..], open, close));
  }

  lemma SuffixSlices(t: string, i: nat, e: nat)
    requires i <= e <= |t|
    ensures t[i..][..e - i] == t[i..e] && t[i..][e - i..] == t[e..]
  {
  }

  lemma EmptyPrefix(a: string, x: string, y: string)
    requires a == []
    ensures a + x + y == x + y
  {
  }

  lemma BlockAtStart(u: string, e: nat, open: string, close: string)
    requires |open| > 0 && e <= |u| && BlockEnd(u, open, close) == Some(e)
    ensures StripBlocks(u, open, close) == Newlines(Count(u[..e], '\n')) + StripBlocks(u[e..], open, close)
  {
  }

  /** At the leftmost position `i` where a complete block starts, the text
      before it is kept, the block (up to the end `e` of the first closer
      after its opener) becomes as many '\n' as it holds, and stripping
      goes on after it. */
  lemma StripBlocksFirstMatch(t: string, i: nat, e: nat, open: string, close: string)
    requires |open| > 0 && i <= e <= |t| && BlockEnd(t[i..], open, close) == Some(e - i)
    requires forall j: nat :: j < i ==> BlockEnd(t[j..], open, close).None?
    ensures StripBlocks(t, open, close) ==
            t[..i] + Newlines(Count(t[i..e], '\n')) + StripBlocks(t[e..], open, close)
  {
    BlocksFirstMatchFrom(t, 0, i, e, open, close);
    assert t[0..] == t && t[0..i] == t[..i];
  }

  lemma ConsSlice(t: string, i: nat, c: nat)
    requires i < c <= |t|
    ensures t[i..c] == [t[i]] + t[i + 1..c]
  {
  }

  // ---------------------------------------------------------------------
  // `re.sub(r'(?<!:)//.*', '', code)`: a "//" not directly after ':' is
  // removed up to, not including, the next '\n' (so a '\r' goes too).

  /** An unguarded "//" starts at `i`; `colonBefore` says whether the
      character just before `t` was ':'. */
  predicate SlashCommentAt(t: string, i: nat, colonBefore: bool)
  {
    StartsAt(t, i, "//") && (if i == 0 then !colonBefore else t[i - 1] != ':')
  }

  function StripSlashComments(t: string, colonBefore: bool): (r: string)
    ensures Count(r, '\n') == Count(t, '\n')
    ensures |r| <= |t|
    decreases |t|
  {
    if t == [] then ""
    else if SlashCommentAt(t, 0, colonBefore) then
      var e := LineEnd(t, 0);
      LineEndNoNewline(t, 0);
      NewlineFreePrefix(t, e);
      StripSlashComments(t[e..], t[e - 1] == ':')
    else
      var rest := StripSlashComments(t[1..], t[0] == ':');
      CountAppend([t[0]], rest, '\n');
      NewlineCountSplit(t, 1);
      [t[0]] + rest
  }

  lemma SlashShift(t: string, i: nat, colonBefore: bool)
    requires 0 < |t|
    ensures SlashCommentAt(t, i + 1, colonBefore) <==> SlashCommentAt(t[1..], i, t[0] == ':')
  {
    StartsAtShift(t, i, "//");
    if i > 0 && i < |t| - 1 { assert t[1..][i - 1] == t[i]; }
  }

  /** `//` removal changes the text exactly when an unguarded "//" occurs:
      a "//" directly after ':' is kept. */
  lemma NoSlashShift(t: string, colonBefore: bool, colon: bool)
    requires 0 < |t| && !SlashCommentAt(t, 0, colonBefore) && colon == (t[0] == ':')
    ensures (forall i: nat :: !SlashCommentAt(t, i, colonBefore)) <==>
            (forall i: nat :: !SlashCommentAt(t[1..], i, colon))
  {
    forall i: nat ensures SlashCommentAt(t, i + 1, colonBefore) <==> SlashCommentAt(t[1..], i, colon) {
      SlashShift(t, i, colonBefore);
    }
    if exists i: nat :: SlashCommentAt(t, i, colonBefore) {
      var i: nat :| SlashCommentAt(t, i, colonBefore);
      assert SlashCommentAt(t[1..], i - 1, colon);
    }
  }

  lemma {:induction false} StripSlashUnchangedIff(t: string, colonBefore: bool)
    ensures StripSlashComments(t, colonBefore) == t <==>
            forall i: nat :: !SlashCommentAt(t, i, colonBefore)
    decreases |t|
  {
    if t != [] {
      if SlashCommentAt(t, 0, colonBefore) {
        var e := LineEnd(t, 0);
        assert |StripSlashComments(t, colonBefore)| <= |t[e..]| < |t|;
      } else {
        var colon := t[0] == ':';
        StripSlashUnchangedIff(t[1..], colon);
        NoSlashShift(t, colonBefore, colon);
        assert t == [t[0]] + t[1..];
      }
    }
  }

  /** Index of the first "//" at or after `i` in `line` that does not
      follow ':', or `|line|`: where `(?<!:)//` first matches. */
  function SlashStart(line: string, i: nat): (k: nat)
    requires i <= |line|
    ensures i <= k <= |line|
    ensures k < |line| ==> SlashCommentAt(line, k, false)
    ensures forall j: nat :: i <= j < k ==> !SlashCommentAt(line, j, false)
    decreases |line| - i
  {
    if i == |line| || SlashCommentAt(line, i, false) then i else SlashStart(line, i + 1)
  }

  /** A line as `//` removal leaves it: cut at its first unguarded "//". */
  function SlashCut(line: string): string
  {
    line[..SlashStart(line, 0)]
  }

  function SlashCutLines(ls: seq<string>): (r: seq<string>)
    ensures |r| == |ls|
  {
    if ls == [] then [] else [SlashCut(ls[0])] + SlashCutLines(ls[1..])
  }

  /** What `//` removal produces from the '\n' at `e` on. */
  function SlashAfter(t: string, e: nat): string
    requires e <= |t|
  {
    if e < |t| then "\n" + StripSlashComments(t[e + 1..], false) else ""
  }

  /** A "//" lies within one line, so cutting the text at the end of the
      line does not change where it is found. */
  lemma SlashInLine(t: string, e: nat, j: nat)
    requires j < e <= |t| && (e == |t| || t[e] == '\n')
    ensures SlashCommentAt(t[..e], j, false) <==> SlashCommentAt(t, j, false)
  {
    if j + 2 <= e {
      assert t[..e][j..j + 2] == t[j..j + 2];
    }
    if j > 0 {
      assert t[..e][j - 1] == t[j - 1];
    }
  }

  /** At the end of a line the scanner copies the '\n' whatever the flag. */
  lemma SlashAtLineEnd(t: string, e: nat, colonBefore: bool)
    requires e <= |t| && (e == |t| || t[e] == '\n')
    ensures StripSlashComments(t[e..], colonBefore) == SlashAfter(t, e)
  {
    if e < |t| {
      assert t[e..][1..] == t[e + 1..];
    }
  }

  lemma LineEndDrop(t: string, i: nat)
    requires i <= |t|
    ensures LineEnd(t[i..], 0) == LineEnd(t, i) - i
    decreases |t| - i
  {
    if i < |t| && t[i] != '\n' {
      LineEndDrop(t, i + 1);
      LineEndShift(t[i..], 0);
      assert t[i..][1..] == t[i + 1..];
    }
  }

  lemma SlashSkipStep(u: string, colonBefore: bool)
    requires SlashCommentAt(u, 0, colonBefore)
    ensures var e := LineEnd(u, 0);
            0 < e && StripSlashComments(u, colonBefore) == StripSlashComments(u[e..], u[e - 1] == ':')
  {
  }

  /** At an unguarded "//" the scanner drops the rest of the line. */
  lemma SlashSkipLine(t: string, i: nat, e: nat)
    requires i < e <= |t| && e == LineEnd(t, i) && SlashCommentAt(t, i, false)
    ensures StripSlashComments(t[i..], i > 0 && t[i - 1] == ':') == SlashAfter(t, e)
  {
    var u := t[i..];
    var colon := i > 0 && t[i - 1] == ':';
    SlashCommentDrop(t, i);
    LineEndDrop(t, i);
    SlashSkipStep(u, colon);
    var after := u[e - i - 1] == ':';
    assert StripSlashComments(u, colon) == StripSlashComments(u[e - i..], after);
    SuffixSlices(t, i, e);
    SlashAtLineEnd(t, e, after);
  }

  lemma SlashCommentDrop(t: string, i: nat)
    requires i < |t| && SlashCommentAt(t, i, false)
    ensures SlashCommentAt(t[i..], 0, i > 0 && t[i - 1] == ':')
  {
    assert t[i..][0..2] == t[i..i + 2];
  }

  lemma DropDrop(t: string, i: nat, k: nat)
    requires i + k <= |t|
    ensures t[i..][k..] == t[i + k..]
  {
  }

  /** Elsewhere in a line the scanner copies one character. */
  lemma SlashCopyAt(t: string, i: nat)
    requires i < |t| && !SlashCommentAt(t, i, false)
    ensures StripSlashComments(t[i..], i > 0 && t[i - 1] == ':') ==
            [t[i]] + StripSlashComments(t[i + 1..], t[i] == ':')
  {
    var u := t[i..];
    if i + 2 <= |t| {
      assert u[0..2] == t[i..i + 2];
    }
    assert !SlashCommentAt(u, 0, i > 0 && t[i - 1] == ':');
    assert u[1..] == t[i + 1..];
  }

  /** Copying a character that starts no comment moves the statement of
      `SlashLineFrom` one position left. */
  lemma SlashCopyLine(t: string, i: nat, e: nat)
    requires i < |t| && i < e && e == LineEnd(t, i) && !SlashCommentAt(t, i, false)
    requires StripSlashComments(t[i + 1..], t[i] == ':') ==
             t[i + 1..SlashStart(t[..e], i + 1)] + SlashAfter(t, e)
    ensures StripSlashComments(t[i..], i > 0 && t[i - 1] == ':') ==
            t[i..SlashStart(t[..e], i)] + SlashAfter(t, e)
  {
    SlashInLine(t, e, i);
    var c := SlashStart(t[..e], i);
    assert c == SlashStart(t[..e], i + 1);
    SlashCopyAt(t, i);
    ConsSlice(t, i, c);
    ConsAssoc(t[i], t[i + 1..c], SlashAfter(t, e));
  }

  /** From position `i` of a line on (with the look-behind flag taken from
      `t[i - 1]`), the scanner keeps the line up to its first unguarded "//"
      and then goes on after the '\n'. */
  lemma {:induction false} SlashLineFrom(t: string, i: nat, e: nat)
    requires i <= |t| && e == LineEnd(t, i)
    ensures StripSlashComments(t[i..], i > 0 && t[i - 1] == ':') ==
            t[i..SlashStart(t[..e], i)] + SlashAfter(t, e)
    decreases e - i
  {
    if i == e {
      SlashAtLineEnd(t, e, i > 0 && t[i - 1] == ':');
    } else if SlashCommentAt(t, i, false) {
      SlashInLine(t, e, i);
      SlashSkipLine(t, i, e);
    } else {
      assert LineEnd(t, i + 1) == e;
      SlashLineFrom(t, i + 1, e);
      SlashCopyLine(t, i, e);
    }
  }

  lemma SlashCutLinesCons(x: string, rest: seq<string>)
    ensures SlashCutLines([x] + rest) == [SlashCut(x)] + SlashCutLines(rest)
  {
    assert ([x] + rest)[1..] == rest;
  }

  /** `//` removal is the line-by-line rewrite: split at '\n', cut every
      line at its first "//" that does not follow ':', join again. */
  lemma {:induction false} StripSlashByLines(s: string)
    ensures StripSlashComments(s, false) == JoinLines(SlashCutLines(Lines(s)))
    decreases |s|
  {
    var e := LineEnd(s, 0);
    SlashLineFrom(s, 0, e);
    assert s[0..] == s;
    assert s[0..SlashStart(s[..e], 0)] == SlashCut(s[..e]);
    if e < |s| {
      var rest := Lines(s[e + 1..]);
      StripSlashByLines(s[e + 1..]);
      LinesStep(s, e);
      SlashCutLinesCons(s[..e], rest);
      JoinLinesCons(SlashCut(s[..e]), SlashCutLines(rest));
    } else {
      assert s[..e] == s;
    }
  }

  // ---------------------------------------------------------------------
  // `re.sub(r'#.*', '', code)` (.php): every '#' to end of line, no guard.

  function StripHashAll(t: string): (r: string)
    ensures Count(r, '\n') == Count(t, '\n')
    ensures '#' !in r
    ensures |r| <= |t|
    decreases |t|
  {
    if t == [] then ""
    else if t[0] == '#' then
      var e := LineEnd(t, 0);
      LineEndNoNewline(t, 0);
      NewlineFreePrefix(t, e);
      StripHashAll(t[e..])
    else
      var rest := StripHashAll(t[1..]);
      CountAppend([t[0]], rest, '\n');
      NewlineCountSplit(t, 1);
      [t[0]] + rest
  }

  lemma {:induction false} StripHashAllUnchangedIff(t: string)
    ensures StripHashAll(t) == t <==> '#' !in t
    decreases |t|
  {
    if t != [] {
      StripHashAllUnchangedIff(t[1..]);
      assert t == [t[0]] + t[1..];
    }
  }

  /** Index of the first '#' at or after `i` in `line`, or `|line|`. */
  function HashStart(line: string, i: nat): (k: nat)
    requires i <= |line|
    ensures i <= k <= |line|
    ensures k < |line| ==> line[k] == '#'
    ensures forall j :: i <= j < k ==> line[j] != '#'
    decreases |line| - i
  {
    if i == |line| || line[i] == '#' then i else HashStart(line, i + 1)
  }

  /** A line as `#.*` removal leaves it: everything before its first '#'. */
  function HashCut(line: string): string
  {
    line[..HashStart(line, 0)]
  }

  function HashCutLines(ls: seq<string>): (r: seq<string>)
    ensures |r| == |ls|
  {
    if ls == [] then [] else [HashCut(ls[0])] + HashCutLines(ls[1..])
  }

  /** What `#.*` removal produces from the '\n' at `e` on. */
  function HashAfter(t: string, e: nat): string
    requires e <= |t|
  {
    if e < |t| then "\n" + StripHashAll(t[e + 1..]) else ""
  }

  lemma HashAtLineEnd(t: string, e: nat)
    requires e <= |t| && (e == |t| || t[e] == '\n')
    ensures StripHashAll(t[e..]) == HashAfter(t, e)
  {
    if e < |t| {
      assert t[e..][1..] == t[e + 1..];
    }
  }

  lemma HashSkipStep(u: string)
    requires u != [] && u[0] == '#'
    ensures var e := LineEnd(u, 0); StripHashAll(u) == StripHashAll(u[e..])
  {
  }

  /** From a '#' on, the rest of the line goes. */
  lemma HashSkipLine(t: string, i: nat, e: nat)
    requires i < e <= |t| && e == LineEnd(t, i) && t[i] == '#'
    ensures StripHashAll(t[i..]) == HashAfter(t, e)
  {
    var u := t[i..];
    LineEndDrop(t, i);
    assert u[0] == '#';
    HashSkipStep(u);
    assert StripHashAll(u) == StripHashAll(u[e - i..]);
    assert u[e - i..] == t[e..];
    HashAtLineEnd(t, e);
  }

  /** From position `i` of a line on, `#.*` removal keeps the line up to
      its first '#' and then goes on after the '\n'. */
  lemma {:induction false} HashLineFrom(t: string, i: nat, e: nat)
    requires i <= |t| && e == LineEnd(t, i)
    ensures StripHashAll(t[i..]) == t[i..HashStart(t[..e], i)] + HashAfter(t, e)
    decreases e - i
  {
    if i == e {
      HashAtLineEnd(t, e);
    } else {
      assert t[..e][i] == t[i];
      if t[i] == '#' {
        HashSkipLine(t, i, e);
      } else {
        var c := HashStart(t[..e], i);
        HashLineFrom(t, i + 1, e);
        DropDrop(t, i, 1);
        ConsSlice(t, i, c);
        ConsAssoc(t[i], t[i + 1..c], HashAfter(t, e));
      }
    }
  }

  lemma HashCutLinesCons(x: string, rest: seq<string>)
    ensures HashCutLines([x] + rest) == [HashCut(x)] + HashCutLines(rest)
  {
    assert ([x] + rest)[1..] == rest;
  }

  /** `#.*` removal is the line-by-line rewrite: split at '\n', cut every
      line at its first '#', join again. */
  lemma {:induction false} StripHashAllByLines(s: string)
    ensures StripHashAll(s) == JoinLines(HashCutLines(Lines(s)))
    decreases |s|
  {
    var e := LineEnd(s, 0);
    HashLineFrom(s, 0, e);
    assert s[0..] == s;
    assert s[0..HashStart(s[..e], 0)] == HashCut(s[..e]);
    if e < |s| {
      var rest := Lines(s[e + 1..]);
      StripHashAllByLines(s[e + 1..]);
      LinesStep(s, e);
      HashCutLinesCons(s[..e], rest);
      JoinLinesCons(HashCut(s[..e]), HashCutLines(rest));
    } else {
      assert s[..e] == s;
    }
  }

  // ---------------------------------------------------------------------
  // `re.sub(r'^[ \t]*#.*', '', code, flags=re.MULTILINE)` (.py): a line
  // whose first character other than ' ' and '\t' is '#' is emptied; its
  // '\n' stays.

  /** `^[ \t]*#` matches at `i`: `i` starts a line (`lineStart` says whether
      the position before `t` was the start of the text or just after a
      '\n') and the first non-blank character from there is '#'. */
  predicate HashLineAt(t: string, i: nat, lineStart: bool)
  {
    i < |t| && (if i == 0 then lineStart else t[i - 1] == '\n') &&
    var k := BlankEnd(t, i); k < |t| && t[k] == '#'
  }

  function StripHashLines(t: string, lineStart: bool): (r: string)
    ensures Count(r, '\n') == Count(t, '\n')
    ensures |r| <= |t|
    decreases |t|
  {
    if t == [] then ""
    else if HashLineAt(t, 0, lineStart) then
      var e := LineEnd(t, 0);
      LineEndNoNewline(t, 0);
      NewlineFreePrefix(t, e);
      StripHashLines(t[e..], false)
    else
      var rest := StripHashLines(t[1..], t[0] == '\n');
      CountAppend([t[0]], rest, '\n');
      NewlineCountSplit(t, 1);
      [t[0]] + rest
  }

  lemma HashLineShift(t: string, i: nat, lineStart: bool)
    requires 0 < |t|
    ensures HashLineAt(t, i + 1, lineStart) <==> HashLineAt(t[1..], i, t[0] == '\n')
  {
    if i + 1 < |t| {
      BlankEndShift(t, i);
      var k := BlankEnd(t[1..], i);
      if k < |t[1..]| { assert t[1..][k] == t[k + 1]; }
      if i > 0 { assert t[1..][i - 1] == t[i]; }
    }
  }

  lemma NoHashLineShift(t: string, lineStart: bool, nl: bool)
    requires 0 < |t| && !HashLineAt(t, 0, lineStart) && nl == (t[0] == '\n')
    ensures (forall i: nat :: !HashLineAt(t, i, lineStart)) <==>
            (forall i: nat :: !HashLineAt(t[1..], i, nl))
  {
    forall i: nat ensures HashLineAt(t, i + 1, lineStart) <==> HashLineAt(t[1..], i, nl) {
      HashLineShift(t, i, lineStart);
    }
    if exists i: nat :: HashLineAt(t, i, lineStart) {
      var i: nat :| HashLineAt(t, i, lineStart);
      assert HashLineAt(t[1..], i - 1, nl);
    }
  }

  lemma {:induction false} StripHashLinesUnchangedIff(t: string, lineStart: bool)
    ensures StripHashLines(t, lineStart) == t <==> forall i: nat :: !HashLineAt(t, i, lineStart)
    decreases |t|
  {
    if t != [] {
      if HashLineAt(t, 0, lineStart) {
        var e := LineEnd(t, 0);
        assert t[BlankEnd(t, 0)] == '#';
        assert e > 0;
        assert |StripHashLines(t, lineStart)| <= |t[e..]| < |t|;
      } else {
        var nl := t[0] == '\n';
        StripHashLinesUnchangedIff(t[1..], nl);
        NoHashLineShift(t, lineStart, nl);
        assert t == [t[0]] + t[1..];
      }
    }
  }

  /** A line whose first character other than ' ' and '\t' is '#'. */
  predicate IsHashLine(line: string)
  {
    var k := BlankEnd(line, 0); k < |line| && line[k] == '#'
  }

  /** A line as the full-line pass leaves it. */
  function CleanLine(line: string): string
  {
    if IsHashLine(line) then "" else line
  }

  function CleanLines(ls: seq<string>): (r: seq<string>)
    ensures |r| == |ls|
  {
    if ls == [] then [] else [CleanLine(ls[0])] + CleanLines(ls[1..])
  }

  lemma BlankEndPrefix(t: string, e: nat, i: nat)
    requires i <= e <= |t|
    requires BlankEnd(t, i) < e
    ensures BlankEnd(t[..e], i) == BlankEnd(t, i)
    decreases e - i
  {
    if t[i] == ' ' || t[i] == '\t' {
      BlankEndPrefix(t, e, i + 1);
    }
  }

  lemma BlankEndPrefixAll(t: string, e: nat, i: nat)
    requires i <= e <= |t|
    requires BlankEnd(t, i) >= e
    ensures BlankEnd(t[..e], i) == e
    decreases e - i
  {
    if i < e {
      BlankEndPrefixAll(t, e, i + 1);
    }
  }

  /** One copying step of the full-line scanner. */
  lemma HashLinesCopyStep(t: string, lineStart: bool)
    requires t != [] && !HashLineAt(t, 0, lineStart)
    ensures StripHashLines(t, lineStart) == [t[0]] + StripHashLines(t[1..], t[0] == '\n')
  {
  }

  /** What the full-line pass produces from the '\n' at `e` on. */
  function AfterLine(t: string, e: nat): string
    requires e <= |t|
  {
    if e < |t| then "\n" + StripHashLines(t[e + 1..], true) else ""
  }

  lemma AfterLineShift(t: string, e: nat)
    requires 0 < e <= |t|
    ensures AfterLine(t[1..], e - 1) == AfterLine(t, e)
  {
    if e < |t| {
      assert t[1..][e..] == t[e + 1..];
    }
  }

  /** The scanner inside a line (not at its start) copies up to the '\n'. */
  lemma {:induction false} HashLinesMidLine(t: string, e: nat)
    requires e == LineEnd(t, 0)
    ensures StripHashLines(t, false) == t[..e] + AfterLine(t, e)
    decreases |t|
  {
    if t != [] {
      if t[0] != '\n' {
        LineEndShift(t, 0);
        HashLinesMidLine(t[1..], e - 1);
        AfterLineShift(t, e);
        MidLineStep(t, e);
      } else {
        HashLinesCopyStep(t, false);
      }
    }
  }

  lemma MidLineStep(t: string, e: nat)
    requires 0 < e <= |t| && t[0] != '\n'
    requires StripHashLines(t[1..], false) == t[1..][..e - 1] + AfterLine(t, e)
    ensures StripHashLines(t, false) == t[..e] + AfterLine(t, e)
  {
    var a, b := t[1..][..e - 1], AfterLine(t, e);
    HashLinesCopyStep(t, false);
    TakeShift(t, e - 1);
    ConsAssoc(t[0], a, b);
  }

  /** `[ \t]*` never runs past a '\n'. */
  lemma BlankEndStops(t: string, i: nat, e: nat)
    requires i <= e < |t| && t[e] == '\n'
    ensures BlankEnd(t, i) <= e
    decreases e - i
  {
    if i < e && (t[i] == ' ' || t[i] == '\t') {
      BlankEndStops(t, i + 1, e);
    }
  }

  /** Whether the first line of `t` is a hash line decides whether the
      pattern matches at the start of `t`. */
  lemma HashLinePrefix(t: string, e: nat)
    requires e == LineEnd(t, 0)
    ensures IsHashLine(t[..e]) <==> HashLineAt(t, 0, true)
  {
    if BlankEnd(t, 0) < e {
      BlankEndPrefix(t, e, 0);
    } else {
      BlankEndPrefixAll(t, e, 0);
      if e < |t| {
        BlankEndStops(t, 0, e);
      }
    }
  }

  /** A hash line at the start of `t` is dropped, its '\n' kept. */
  lemma HashLinesSkipLine(t: string, e: nat)
    requires e == LineEnd(t, 0) && HashLineAt(t, 0, true)
    ensures StripHashLines(t, true) == AfterLine(t, e)
  {
    assert StripHashLines(t, true) == StripHashLines(t[e..], false);
    HashLinesMidLine(t[e..], 0);
    assert t[e..][..0] == "";
    if e < |t| {
      assert t[e..][1..] == t[e + 1..];
    }
  }

  /** The full-line pass at a line start handles exactly one line, then
      goes on with the next one. */
  lemma {:induction false} HashLinesOneLine(t: string, e: nat)
    requires e == LineEnd(t, 0)
    ensures StripHashLines(t, true) == CleanLine(t[..e]) + AfterLine(t, e)
  {
    HashLinePrefix(t, e);
    if t == [] {
    } else if HashLineAt(t, 0, true) {
      HashLinesSkipLine(t, e);
    } else {
      HashLinesCopyStep(t, true);
      HashLinesCopyStep(t, false);
      HashLinesMidLine(t, e);
    }
  }

  lemma CleanLinesCons(x: string, rest: seq<string>)
    ensures CleanLines([x] + rest) == [CleanLine(x)] + CleanLines(rest)
  {
    assert ([x] + rest)[1..] == rest;
  }

  /** The full-line pass is the line-by-line rewrite: split at '\n', empty
      every line whose first non-blank character is '#', join again. */
  lemma {:induction false} StripHashLinesByLines(s: string)
    ensures StripHashLines(s, true) == JoinLines(CleanLines(Lines(s)))
    decreases |s|
  {
    var e := LineEnd(s, 0);
    HashLinesOneLine(s, e);
    if e < |s| {
      var rest := Lines(s[e + 1..]);
      StripHashLinesByLines(s[e + 1..]);
      LinesStep(s, e);
      CleanLinesCons(s[..e], rest);
      JoinLinesCons(CleanLine(s[..e]), CleanLines(rest));
    } else {
      assert s[..e] == s;
    }
  }

  // ---------------------------------------------------------------------
  // `re.sub(r'(?m)([^\'"])\s+#.*', r'\1', code)` (.py): a character other
  // than a quote, then a non-empty run of whitespace (which may include
  // '\n'), then '#' up to the end of its line; only the first character
  // is kept.

  predicate IsQuote(c: char)
  {
    c == '\'' || c == '"'
  }

  /** The inline-comment pattern matches at `i`. */
  predicate InlineAt(t: string, i: nat)
  {
    i < |t| && !IsQuote(t[i]) &&
    var k := SpaceEnd(t, i + 1); i + 1 < k < |t| && t[k] == '#'
  }

  /** Index just past an inline-comment match at `i`. */
  function InlineEnd(t: string, i: nat): (e: nat)
    requires InlineAt(t, i)
    ensures i + 3 <= e <= |t|
  {
    LineEnd(t, SpaceEnd(t, i + 1))
  }

  function StripInline(t: string): (r: string)
    ensures |r| <= |t|
    decreases |t|
  {
    if t == [] then ""
    else if InlineAt(t, 0) then [t[0]] + StripInline(t[InlineEnd(t, 0)..])
    else [t[0]] + StripInline(t[1..])
  }

  lemma InlineShift(t: string, i: nat)
    requires 0 < |t|
    ensures InlineAt(t, i + 1) <==> InlineAt(t[1..], i)
    ensures InlineAt(t, i + 1) ==> InlineEnd(t, i + 1) == 1 + InlineEnd(t[1..], i)
  {
    if i + 1 < |t| {
      SpaceEndShift(t, i + 1);
      var k := SpaceEnd(t[1..], i + 1);
      if k < |t[1..]| {
        assert t[1..][k] == t[k + 1];
        LineEndShift(t, k);
      }
      assert t[1..][i] == t[i + 1];
    }
  }

  /** Past a position where the pattern does not match, "no match anywhere"
      is the same statement about the text and about its tail. */
  lemma NoInlineShift(t: string)
    requires 0 < |t| && !InlineAt(t, 0)
    ensures (forall i: nat :: !InlineAt(t, i)) <==> (forall i: nat :: !InlineAt(t[1..], i))
  {
    forall i: nat ensures InlineAt(t, i + 1) <==> InlineAt(t[1..], i) {
      InlineShift(t, i);
    }
    if exists i: nat :: InlineAt(t, i) {
      var i: nat :| InlineAt(t, i);
      assert InlineAt(t[1..], i - 1);
    }
  }

  /** Inline stripping changes the text exactly when the pattern matches
      somewhere. */
  lemma {:induction false} StripInlineUnchangedIff(t: string)
    ensures StripInline(t) == t <==> forall i: nat :: !InlineAt(t, i)
    decreases |t|
  {
    if t != [] {
      if InlineAt(t, 0) {
        assert |StripInline(t)| <= 1 + |t[InlineEnd(t, 0)..]| < |t|;
      } else {
        StripInlineUnchangedIff(t[1..]);
        NoInlineShift(t);
        assert t == [t[0]] + t[1..];
      }
    }
  }

  lemma InlineCopyStep(t: string)
    requires t != [] && !InlineAt(t, 0)
    ensures StripInline(t) == [t[0]] + StripInline(t[1..])
  {
  }

  lemma NoInlineBefore(t: string, i: nat)
    requires 0 < i <= |t|
    requires forall j: nat :: j < i ==> !InlineAt(t, j)
    ensures forall j: nat :: j < i - 1 ==> !InlineAt(t[1..], j)
  {
    forall j: nat | j < i - 1 ensures !InlineAt(t[1..], j) {
      InlineShift(t, j);
    }
  }

  /** One step of the leftmost-match argument: a non-matching first
      character is copied in front of what the tail produces. */
  lemma FirstMatchStep(t: string, i: nat, e: nat)
    requires 0 < i < |t| && 1 <= e <= |t| && !InlineAt(t, 0)
    requires StripInline(t[1..]) == t[1..][..i] + StripInline(t[1..][e - 1..])
    ensures StripInline(t) == t[..i + 1] + StripInline(t[e..])
  {
    var u := t[1..];
    var a, b := u[..i], StripInline(t[e..]);
    InlineCopyStep(t);
    DropShift(t, e);
    ConsAssoc(t[0], a, b);
    TakeShift(t, i);
  }

  /** At the leftmost match `i`, everything up to and including the
      character before the whitespace run is kept, and the run, the '#' and
      the rest of that line are dropped. */
  lemma {:induction false} StripInlineFirstMatch(t: string, i: nat)
    requires InlineAt(t, i)
    requires forall j: nat :: j < i ==> !InlineAt(t, j)
    ensures StripInline(t) == t[..i + 1] + StripInline(t[InlineEnd(t, i)..])
    decreases i
  {
    if i > 0 {
      InlineShift(t, i - 1);
      NoInlineBefore(t, i);
      StripInlineFirstMatch(t[1..], i - 1);
      FirstMatchStep(t, i, InlineEnd(t, i));
    } else {
      assert t[..1] == [t[0]];
    }
  }

  // ---------------------------------------------------------------------
  // Dispatch

  /** The .py rule: full-line comments first, then inline ones. */
  function StripPython(code: string): string
  {
    StripInline(StripHashLines(code, true))
  }

  /** Every '#' directly follows a character that is not whitespace (so no
      '#' is first on its line either). */
  predicate HashesAttached(s: string)
  {
    forall i :: 0 <= i < |s| && s[i] == '#' ==> i > 0 && !IsSpace(s[i - 1])
  }

  lemma AttachedNoHashLine(s: string, i: nat)
    requires HashesAttached(s)
    ensures !HashLineAt(s, i, true)
  {
    if HashLineAt(s, i, true) {
      assert false;
    }
  }

  lemma AttachedNoInline(s: string, i: nat)
    requires HashesAttached(s)
    ensures !InlineAt(s, i)
  {
    if InlineAt(s, i) {
      SpaceEndLast(s, i + 1);
      assert false;
    }
  }

  /** Text whose every '#' is glued to a preceding non-whitespace
      character is left alone by the .py rule. */
  lemma StripPythonKeepsAttachedHashes(s: string)
    requires HashesAttached(s)
    ensures StripPython(s) == s
  {
    forall i: nat ensures !HashLineAt(s, i, true) {
      AttachedNoHashLine(s, i);
    }
    StripHashLinesUnchangedIff(s, true);
    forall i: nat ensures !InlineAt(s, i) {
      AttachedNoInline(s, i);
    }
    StripInlineUnchangedIff(s);
  }

  /** As on line 15 of test/test_python.py: a '#' inside a string
      literal that follows a space is taken for a comment, and the rest of
      the line goes. */
  lemma StripInlineCutsHashInString()
    ensures StripInline("\"a #b\"") == "\"a"
  {
    var t := "\"a #b\"";
    assert !InlineAt(t, 0);
    assert SpaceEnd(t, 2) == 3;
    assert InlineAt(t, 1);
    assert InlineEnd(t, 1) == 6;
    StripInlineFirstMatch(t, 1);
  }

  /** The guard may itself be the first blank of the run: after a quoted
      string, a '#' two blanks away is still cut, and the guard blank stays.
      A quote protects a '#' only when exactly one blank lies between. */
  lemma StripInlineCutsAfterQuote(t: string)
    requires t == "s = 'a'  # note"
    ensures StripInline(t) == "s = 'a' "
  {
    QuoteSampleNoEarlierMatch(t);
    QuoteSampleMatch(t);
    StripInlineFirstMatch(t, 7);
    assert t[|t|..] == [] && t[..8] == "s = 'a' ";
  }

  lemma QuoteSampleNoEarlierMatch(t: string)
    requires t == "s = 'a'  # note"
    ensures forall j: nat :: j < 7 ==> !InlineAt(t, j)
  {
    forall j: nat | j < 7 ensures !InlineAt(t, j) {
      if j == 4 || j == 6 {
        assert IsQuote(t[j]);
      } else if j == 0 || j == 2 {
        assert SpaceEnd(t, j + 1) == j + 2;
      } else {
        assert SpaceEnd(t, j + 1) == j + 1;
      }
    }
  }

  lemma QuoteSampleMatch(t: string)
    requires t == "s = 'a'  # note"
    ensures InlineAt(t, 7) && InlineEnd(t, 7) == |t|
  {
    assert SpaceEnd(t, 9) == 9;
    assert SpaceEnd(t, 8) == 9;
    assert '\n' !in t;
  }

  // C-style comment removal is not idempotent. In "//*x*/*y*/" the block
  // rule runs first and takes "/*x*/", which starts at the second '/'; what
  // remains is the block "/*y*/", which a second pass removes.
  lemma CStyleRemovalNotIdempotent(code: string, ext: string)
    requires code == "//*x*/*y*/" && ext == ".js"
    ensures RemoveCommentsByType(code, ext) == "/*y*/"
    ensures RemoveCommentsByType(RemoveCommentsByType(code, ext), ext) == ""
  {
    assert FamilyOf(ext) == CStyle;
    BlocksOfSample(code);
    var once := StripBlocks(code, "/*", "*/");
    SlashFreeSample(once);
    BlockOnlySample(once);
    assert StripSlashComments(StripBlocks(once, "/*", "*/"), false) == "" by {
      assert StripBlocks(once, "/*", "*/") == [];
    }
  }

  lemma BlocksOfSample(t: string)
    requires t == "//*x*/*y*/"
    ensures StripBlocks(t, "/*", "*/") == "/*y*/"
  {
    SampleNoBlockAtStart();
    SampleBlockAtOne();
    SampleSlices(t);
    StripBlocksFirstMatch(t, 1, 6, "/*", "*/");
    SampleTailKept();
    SampleJoin(t[..1], Newlines(Count(t[1..6], '\n')), t[6..]);
  }

  lemma SampleSlices(t: string)
    requires t == "//*x*/*y*/"
    ensures t[0..] == "//*x*/*y*/" && t[1..] == "/*x*/*y*/"
    ensures t[..1] == "/" && t[1..6] == "/*x*/" && t[6..] == "*y*/"
  {
  }

  lemma SampleJoin(a: string, m: string, b: string)
    requires a == "/" && b == "*y*/" && m == Newlines(Count("/*x*/", '\n'))
    ensures a + m + b == "/*y*/"
  {
    assert Count("/*x*/", '\n') == 0;
  }

  lemma SampleNoBlockAtStart()
    ensures BlockEnd("//*x*/*y*/", "/*", "*/").None?
  {
    var t := "//*x*/*y*/";
    assert t[0..2][1] == '/';
  }

  lemma SampleBlockAtOne()
    ensures BlockEnd("/*x*/*y*/", "/*", "*/") == Some(5)
  {
    var u := "/*x*/*y*/";
    assert u[0..2] == "/*" && u[3..5] == "*/";
    assert u[2..4][0] == 'x';
    assert FindFrom(u, "*/", 2) == Some(3);
  }

  lemma SampleTailKept()
    ensures StripBlocks("*y*/", "/*", "*/") == "*y*/"
  {
    var t := "*y*/";
    forall i: nat, j: nat ensures !(i + 2 <= j && StartsAt(t, i, "/*") && StartsAt(t, j, "*/")) {
      if i + 2 <= |t| {
        assert t[i..i + 2][0] == t[i];
      }
    }
    StripBlocksUnchangedIff(t, "/*", "*/");
  }

  lemma SlashFreeSample(t: string)
    requires t == "/*y*/"
    ensures StripSlashComments(t, false) == t
  {
    forall i: nat ensures !SlashCommentAt(t, i, false) {
      if i + 2 <= |t| {
        assert t[i..i + 2][0] == t[i] && t[i..i + 2][1] == t[i + 1];
      }
    }
    StripSlashUnchangedIff(t, false);
  }

  lemma BlockOnlySample(t: string)
    requires t == "/*y*/"
    ensures StripBlocks(t, "/*", "*/") == ""
  {
    assert StartsAt(t, 0, "/*") && StartsAt(t, 3, "*/");
    assert !StartsAt(t, 2, "*/") by {
      assert t[2..4][0] == 'y';
    }
    assert FindFrom(t, "*/", 2) == Some(3);
    BlockAtStart(t, 5, "/*", "*/");
    assert Count("/*y*/", '\n') == 0;
    assert t[..5] == t && t[5..] == [];
  }

  /** `remove_comments_by_type(code, ext)` */
  function RemoveCommentsByType(code: string, ext: string): (r: string)
    ensures FamilyOf(ext) in {CStyle, Markup, Php} ==> Count(r, '\n') == Count(code, '\n')
    ensures FamilyOf(ext) == Php ==> '#' !in r
    ensures FamilyOf(ext) == Unhandled ==> r == code
    ensures FamilyOf(ext) == Hash ==> r == StripInline(JoinLines(CleanLines(Lines(code))))
    ensures FamilyOf(ext) == CStyle ==> r == StripSlashComments(StripBlocks(code, "/*", "*/"), false)
    ensures FamilyOf(ext) == Markup ==> r == StripBlocks(code, "<!--", "-->")
    ensures FamilyOf(ext) == Php ==>
              r == StripHashAll(StripSlashComments(StripBlocks(code, "/*", "*/"), false))
  {
    match FamilyOf(ext)
    case Hash =>
      StripHashLinesByLines(code);
      StripPython(code)
    case CStyle =>
      StripSlashComments(StripBlocks(code, "/*", "*/"), false)
    case Markup =>
      StripBlocks(code, "<!--", "-->")
    case Php =>
      StripHashAll(StripSlashComments(StripBlocks(code, "/*", "*/"), false))
    case Unhandled =>
      code
  }
}
