/** Blank-line consolidation (`remove_extra_empty_lines_smart`): LF
    normalisation, `str.strip()`, then every run of two or more '\n'
    becomes exactly "\n\n". */
module BlankLines {
  import opened Chars
  import opened Eol

  // ---------------------------------------------------------------------
  // `str.strip()`

  /** The end of `s[i..j]` once trailing whitespace is dropped, never
      below `i`. */
  function TrailEnd(s: string, i: nat, j: nat): (k: nat)
    requires i <= j <= |s|
    ensures i <= k <= j
    decreases j
  {
    if j == i || !IsSpace(s[j - 1]) then j else TrailEnd(s, i, j - 1)
  }

  lemma {:induction false} TrailEndSkips(s: string, i: nat, j: nat)
    requires i <= j <= |s|
    ensures forall k :: TrailEnd(s, i, j) <= k < j ==> IsSpace(s[k])
    ensures i < TrailEnd(s, i, j) ==> !IsSpace(s[TrailEnd(s, i, j) - 1])
    decreases j
  {
    if j > i && IsSpace(s[j - 1]) {
      TrailEndSkips(s, i, j - 1);
    }
  }

  /** `s.strip()`: leading and trailing whitespace (Python's `isspace`)
      removed. */
  function Strip(s: string): string
  {
    var i := SpaceEnd(s, 0);
    s[i..TrailEnd(s, i, |s|)]
  }

  /** What `strip` removes, before and after what it keeps, is whitespace. */
  lemma StripDropsOnlySpace(s: string)
    ensures forall k :: 0 <= k < SpaceEnd(s, 0) ==> IsSpace(s[k])
    ensures forall k :: TrailEnd(s, SpaceEnd(s, 0), |s|) <= k < |s| ==> IsSpace(s[k])
  {
    SpaceEndSkips(s, 0);
    TrailEndSkips(s, SpaceEnd(s, 0), |s|);
  }

  /** The stripped text is empty or has non-whitespace at both ends. */
  predicate TrimmedEnds(r: string)
  {
    r == [] || (!IsSpace(r[0]) && !IsSpace(r[|r| - 1]))
  }

  /** What `strip` keeps starts and ends with non-whitespace. */
  lemma StripTrimmed(s: string)
    ensures TrimmedEnds(Strip(s))
  {
    var i := SpaceEnd(s, 0);
    SpaceEndSkips(s, 0);
    TrailEndSkips(s, i, |s|);
  }

  /** Text that already starts and ends with non-whitespace is unchanged. */
  lemma StripFixed(s: string)
    requires TrimmedEnds(s)
    ensures Strip(s) == s
  {
    if s != [] {
      assert SpaceEnd(s, 0) == 0;
      assert TrailEnd(s, 0, |s|) == |s|;
    }
  }

  /** Every character `strip` keeps comes from its input. */
  lemma StripSubset(s: string, c: char)
    ensures c in Strip(s) ==> c in s
  {
    var i := SpaceEnd(s, 0);
    var j := TrailEnd(s, i, |s|);
    if c in Strip(s) {
      var k :| 0 <= k < j - i && s[i..j][k] == c;
      assert s[i + k] == c;
    }
  }

  // ---------------------------------------------------------------------
  // `re.sub(r'\n{2,}', '\n\n', s)`

  /** First index at or after `i` that is not '\n': where a greedy `\n*`
      starting at `i` stops. */
  function NewlineRunEnd(s: string, i: nat): (k: nat)
    requires i <= |s|
    ensures i <= k <= |s|
    ensures k < |s| ==> s[k] != '\n'
    ensures i < k ==> s[k - 1] == '\n'
    decreases |s| - i
  {
    if i == |s| || s[i] != '\n' then i else NewlineRunEnd(s, i + 1)
  }

  /** Leftmost, greedy, non-overlapping replacement of each run of two or
      more '\n' by exactly two. */
  function Collapse(s: string): (r: string)
    ensures |s| > 0 ==> |r| > 0
    decreases |s|
  {
    if s == [] then ""
    else if |s| >= 2 && s[0] == '\n' && s[1] == '\n' then
      "\n\n" + Collapse(s[NewlineRunEnd(s, 2)..])
    else
      [s[0]] + Collapse(s[1..])
  }

  /** The first and last characters survive collapsing. */
  lemma {:induction false} CollapseEnds(s: string)
    ensures s != [] ==> Collapse(s)[0] == s[0] && Collapse(s)[|Collapse(s)| - 1] == s[|s| - 1]
    decreases |s|
  {
    if s == [] {
    } else if |s| >= 2 && s[0] == '\n' && s[1] == '\n' {
      var k := NewlineRunEnd(s, 2);
      CollapseEnds(s[k..]);
    } else {
      CollapseEnds(s[1..]);
    }
  }

  /** No three consecutive '\n' (at most one empty line in a row). */
  predicate NoTripleNewline(r: string)
  {
    forall k :: 0 <= k < |r| - 2 ==> !(r[k] == '\n' && r[k + 1] == '\n' && r[k + 2] == '\n')
  }

  lemma NoTripleCons(c: char, x: string)
    requires NoTripleNewline(x)
    requires c == '\n' && |x| > 0 ==> x[0] != '\n' || |x| == 1 || x[1] != '\n'
    ensures NoTripleNewline([c] + x)
  {
    var r := [c] + x;
    forall k | 0 <= k < |r| - 2
      ensures !(r[k] == '\n' && r[k + 1] == '\n' && r[k + 2] == '\n')
    {
      if k > 0 {
        assert r[k] == x[k - 1] && r[k + 1] == x[k] && r[k + 2] == x[k + 1];
      }
    }
  }

  lemma NoTriplePair(x: string)
    requires NoTripleNewline(x)
    requires |x| > 0 ==> x[0] != '\n'
    ensures NoTripleNewline("\n\n" + x)
  {
    NoTripleCons('\n', x);
    NoTripleCons('\n', "\n" + x);
    assert "\n\n" + x == ['\n'] + (['\n'] + x);
  }

  /** No run of three '\n' survives. */
  lemma {:induction false} CollapseNoTriple(s: string)
    ensures NoTripleNewline(Collapse(s))
    decreases |s|
  {
    if s != [] {
      if |s| >= 2 && s[0] == '\n' && s[1] == '\n' {
        var x := s[NewlineRunEnd(s, 2)..];
        CollapseNoTriple(x);
        NoTriplePair(Collapse(x));
      } else {
        CollapseNoTriple(s[1..]);
        NoTripleCons(s[0], Collapse(s[1..]));
      }
    }
  }

  lemma NoTripleTail(x: string)
    requires NoTripleNewline(x) && |x| > 0
    ensures NoTripleNewline(x[1..])
  {
    var t := x[1..];
    forall k | 0 <= k < |t| - 2
      ensures !(t[k] == '\n' && t[k + 1] == '\n' && t[k + 2] == '\n')
    {
      assert t[k] == x[k + 1] && t[k + 1] == x[k + 2] && t[k + 2] == x[k + 3];
    }
  }

  /** Text without three '\n' in a row is its own collapse: a run of exactly
      two is replaced by itself. */
  lemma {:induction false} CollapseFixed(x: string)
    requires NoTripleNewline(x)
    ensures Collapse(x) == x
    decreases |x|
  {
    if x != [] {
      NoTripleTail(x);
      if |x| >= 2 && x[0] == '\n' && x[1] == '\n' {
        assert |x| > 2 ==> x[2] != '\n';
        assert NewlineRunEnd(x, 2) == 2;
        NoTripleTail(x[1..]);
        assert x[1..][1..] == x[2..];
        CollapseFixed(x[2..]);
        assert x == "\n\n" + x[2..];
      } else {
        CollapseFixed(x[1..]);
        assert x == [x[0]] + x[1..];
      }
    }
  }

  /** A run of '\n' from `i` that stops at `n` ends there. */
  lemma {:induction false} RunEndAt(s: string, i: nat, n: nat)
    requires i <= n <= |s| && (n == |s| || s[n] != '\n')
    requires forall k :: i <= k < n ==> s[k] == '\n'
    ensures NewlineRunEnd(s, i) == n
    decreases n - i
  {
    if i < n {
      RunEndAt(s, i + 1, n);
    }
  }

  /** A run inside `x` that stops before `x` ends is not lengthened by what
      follows `x`. */
  lemma {:induction false} RunEndAppend(x: string, z: string, i: nat)
    requires i < |x| && x[|x| - 1] != '\n'
    ensures NewlineRunEnd(x + z, i) == NewlineRunEnd(x, i)
    decreases |x| - i
  {
    assert (x + z)[i] == x[i];
    if x[i] == '\n' {
      RunEndAppend(x, z, i + 1);
    }
  }

  lemma CollapsePairStep(s: string)
    requires |s| >= 2 && s[0] == '\n' && s[1] == '\n'
    ensures Collapse(s) == "\n\n" + Collapse(s[NewlineRunEnd(s, 2)..])
  {
  }

  lemma CollapseCopyStep(s: string)
    requires s != [] && !(|s| >= 2 && s[0] == '\n' && s[1] == '\n')
    ensures Collapse(s) == [s[0]] + Collapse(s[1..])
  {
  }

  /** Runs never cross a boundary whose left side does not end in '\n', so
      collapsing distributes over it. */
  lemma {:induction false} CollapseAppend(x: string, z: string)
    requires x == [] || x[|x| - 1] != '\n'
    ensures Collapse(x + z) == Collapse(x) + Collapse(z)
    decreases |x|
  {
    if x == [] {
      assert x + z == z;
    } else if |x| >= 2 && x[0] == '\n' && x[1] == '\n' {
      var k := NewlineRunEnd(x, 2);
      CollapseAppend(x[k..], z);
      AppendPairStep(x, z);
    } else {
      CollapseAppend(x[1..], z);
      AppendCopyStep(x, z);
    }
  }

  lemma DropOfAppend(x: string, z: string, k: nat)
    requires k <= |x|
    ensures (x + z)[k..] == x[k..] + z
  {
  }

  lemma AppendPairStep(x: string, z: string)
    requires |x| >= 2 && x[0] == '\n' && x[1] == '\n' && x[|x| - 1] != '\n'
    requires Collapse(x[NewlineRunEnd(x, 2)..] + z) == Collapse(x[NewlineRunEnd(x, 2)..]) + Collapse(z)
    ensures Collapse(x + z) == Collapse(x) + Collapse(z)
  {
    var s, k := x + z, NewlineRunEnd(x, 2);
    assert s[0] == x[0] && s[1] == x[1];
    RunEndAppend(x, z, 2);
    DropOfAppend(x, z, k);
    CollapsePairStep(s);
    CollapsePairStep(x);
    ConcatAssoc("\n\n", Collapse(x[k..]), Collapse(z));
  }

  lemma AppendCopyStep(x: string, z: string)
    requires x != [] && !(|x| >= 2 && x[0] == '\n' && x[1] == '\n') && x[|x| - 1] != '\n'
    requires Collapse(x[1..] + z) == Collapse(x[1..]) + Collapse(z)
    ensures Collapse(x + z) == Collapse(x) + Collapse(z)
  {
    var s := x + z;
    assert s[0] == x[0];
    assert |x| >= 2 ==> s[1] == x[1];
    DropOfAppend(x, z, 1);
    CollapseCopyStep(s);
    CollapseCopyStep(x);
    ConsAssoc(x[0], Collapse(x[1..]), Collapse(z));
  }

  /** A run of `n` '\n' at the start becomes "\n\n" when `n >= 2` and
      stays a single '\n' otherwise. */
  lemma CollapseRun(n: nat, y: string)
    requires n >= 1 && (y == [] || y[0] != '\n')
    ensures Collapse(Newlines(n) + y) == (if n >= 2 then "\n\n" else "\n") + Collapse(y)
  {
    var s := Newlines(n) + y;
    if n >= 2 {
      RunEndAt(s, 2, n);
      assert s[n..] == y;
    } else {
      assert s[1..] == y;
    }
  }

  /** The whole effect of collapsing around one run: the text on both sides
      is collapsed on its own, and the run in between is two '\n' (one
      empty line survives) when it had two or more, one '\n' otherwise. */
  lemma CollapseRuns(x: string, n: nat, y: string)
    requires n >= 1
    requires x == [] || x[|x| - 1] != '\n'
    requires y == [] || y[0] != '\n'
    ensures Collapse(x + Newlines(n) + y) ==
            Collapse(x) + (if n >= 2 then "\n\n" else "\n") + Collapse(y)
  {
    var run := Newlines(n) + y;
    ConcatAssoc(x, Newlines(n), y);
    CollapseAppend(x, run);
    CollapseRun(n, y);
    if n >= 2 {
      ConcatAssoc(Collapse(x), "\n\n", Collapse(y));
    } else {
      ConcatAssoc(Collapse(x), "\n", Collapse(y));
    }
  }

  lemma ConcatAssoc(a: string, b: string, c: string)
    ensures a + (b + c) == a + b + c
  {
  }

  /** The text with every '\n' deleted. */
  function DropNewlines(s: string): (r: string)
    ensures '\n' !in r
  {
    if s == [] then ""
    else (if s[0] == '\n' then "" else [s[0]]) + DropNewlines(s[1..])
  }

  lemma DropNewlinesCons(c: char, x: string)
    ensures DropNewlines([c] + x) == (if c == '\n' then "" else [c]) + DropNewlines(x)
  {
    assert ([c] + x)[1..] == x;
  }

  /** Skipping a run of '\n' deletes nothing else. */
  lemma {:induction false} DropNewlinesRun(s: string, i: nat)
    requires i <= |s|
    ensures DropNewlines(s[i..]) == DropNewlines(s[NewlineRunEnd(s, i)..])
    decreases |s| - i
  {
    if i < |s| && s[i] == '\n' {
      DropNewlinesRun(s, i + 1);
      assert s[i..] == [s[i]] + s[i + 1..];
      DropNewlinesCons(s[i], s[i + 1..]);
    }
  }

  /** Collapsing only ever removes '\n': every other character stays, in
      order. */
  lemma {:induction false} CollapseKeepsText(s: string)
    ensures DropNewlines(Collapse(s)) == DropNewlines(s)
    decreases |s|
  {
    if s != [] {
      if |s| >= 2 && s[0] == '\n' && s[1] == '\n' {
        var x := s[NewlineRunEnd(s, 2)..];
        CollapseKeepsText(x);
        KeepsTextPair(s, Collapse(x));
      } else {
        CollapseKeepsText(s[1..]);
        KeepsTextCopy(s, Collapse(s[1..]));
      }
    }
  }

  lemma KeepsTextPair(s: string, y: string)
    requires |s| >= 2 && s[0] == '\n' && s[1] == '\n'
    requires DropNewlines(y) == DropNewlines(s[NewlineRunEnd(s, 2)..])
    ensures DropNewlines("\n\n" + y) == DropNewlines(s)
  {
    DropNewlinesRun(s, 0);
    assert s[0..] == s;
    DropNewlinesCons('\n', "\n" + y);
    DropNewlinesCons('\n', y);
    assert "\n\n" + y == ['\n'] + (['\n'] + y);
  }

  lemma KeepsTextCopy(s: string, y: string)
    requires s != [] && DropNewlines(y) == DropNewlines(s[1..])
    ensures DropNewlines([s[0]] + y) == DropNewlines(s)
  {
    DropNewlinesCons(s[0], y);
    DropNewlinesCons(s[0], s[1..]);
    assert s == [s[0]] + s[1..];
  }

  /** A character other than '\n' occurs in a text exactly when it occurs
      once the '\n' are deleted. */
  lemma {:induction false} InDropNewlines(s: string, c: char)
    requires c != '\n'
    ensures c in s <==> c in DropNewlines(s)
    decreases |s|
  {
    if s != [] {
      InDropNewlines(s[1..], c);
      assert s == [s[0]] + s[1..];
    }
  }

  // ---------------------------------------------------------------------
  // `remove_extra_empty_lines_smart`

  /** `remove_extra_empty_lines_smart(code)`. The result is LF-only, has no
      leading or trailing whitespace and never three '\n' in a row, and with
      the '\n' deleted it is the stripped LF text with the '\n' deleted. */
  function RemoveExtraEmptyLines(code: string): (r: string)
    ensures code == "" ==> r == ""
    ensures '\r' !in r
    ensures NoTripleNewline(r)
    ensures TrimmedEnds(r)
    ensures DropNewlines(r) == DropNewlines(Strip(ToLf(code)))
  {
    if code == "" then ""
    else
      var s := Strip(ToLf(code));
      StripTrimmed(ToLf(code));
      StripSubset(ToLf(code), '\r');
      CollapseNoTriple(s);
      CollapseKeepsText(s);
      CollapseEnds(s);
      InDropNewlines(s, '\r');
      InDropNewlines(Collapse(s), '\r');
      Collapse(s)
  }

  /** Running the consolidation on its own output changes nothing. */
  lemma RemoveExtraEmptyLinesIdempotent(code: string)
    ensures RemoveExtraEmptyLines(RemoveExtraEmptyLines(code)) == RemoveExtraEmptyLines(code)
  {
    var r := RemoveExtraEmptyLines(code);
    if r != "" {
      ToLfNoCr(r);
      StripFixed(r);
      CollapseFixed(r);
    }
  }

  /** In the whole consolidation, an LF text whose two sides of a run of
      '\n' are non-empty and start and end with non-whitespace keeps one
      empty line for a run of two or more and a bare line break for a single
      '\n'. */
  lemma RemoveExtraEmptyLinesKeepsBlank(x: string, n: nat, y: string)
    requires n >= 1 && x != [] && y != []
    requires '\r' !in x && '\r' !in y
    requires !IsSpace(x[0]) && !IsSpace(y[|y| - 1])
    requires x[|x| - 1] != '\n' && y[0] != '\n'
    ensures RemoveExtraEmptyLines(x + Newlines(n) + y) ==
            Collapse(x) + (if n >= 2 then "\n\n" else "\n") + Collapse(y)
  {
    var s := x + Newlines(n) + y;
    assert '\r' !in s by {
      assert forall k :: 0 <= k < n ==> Newlines(n)[k] != '\r';
    }
    ToLfNoCr(s);
    assert s[0] == x[0] && s[|s| - 1] == y[|y| - 1];
    StripFixed(s);
    CollapseRuns(x, n, y);
  }
}
