/** Character classes and small sequence helpers shared by the text transforms. */
module Chars {

  datatype Option<+T> = None | Some(value: T)

  /** Python's `str.isspace`, which is what `\s` in a str pattern and
      `str.strip()` without arguments both test. */
  predicate IsSpace(c: char)
  {
    ('\t' <= c <= '\r') || ('\U{1C}' <= c <= '\U{1F}') || c == ' ' ||
    c == '\U{85}' || c == '\U{A0}' || c == '\U{1680}' ||
    ('\U{2000}' <= c <= '\U{200A}') || c == '\U{2028}' || c == '\U{2029}' ||
    c == '\U{202F}' || c == '\U{205F}' || c == '\U{3000}'
  }

  /** Number of occurrences of `c` in `s`. */
  function Count(s: string, c: char): nat
  {
    if s == [] then 0 else (if s[0] == c then 1 else 0) + Count(s[1..], c)
  }

  lemma CountAppend(a: string, b: string, c: char)
    ensures Count(a + b, c) == Count(a, c) + Count(b, c)
  {
    if a != [] {
      assert (a + b)[0] == a[0];
      assert (a + b)[1..] == a[1..] + b;
      CountAppend(a[1..], b, c);
    } else {
      assert a + b == b;
    }
  }

  lemma CountAbsent(s: string, c: char)
    ensures c !in s <==> Count(s, c) == 0
  {
    if s != [] {
      CountAbsent(s[1..], c);
      assert s == [s[0]] + s[1..];
    }
  }

  /** `'\n' * n` */
  function Newlines(n: nat): (r: string)
    ensures |r| == n
    ensures forall k :: 0 <= k < n ==> r[k] == '\n'
  {
    if n == 0 then "" else "\n" + Newlines(n - 1)
  }

  lemma CountNewlines(n: nat)
    ensures Count(Newlines(n), '\n') == n
  {
    if n > 0 {
      CountNewlines(n - 1);
    }
  }

  /** `pat` occurs in `s` at index `i`. */
  predicate StartsAt(s: string, i: int, pat: string)
  {
    0 <= i && i + |pat| <= |s| && s[i..i + |pat|] == pat
  }

  /** The index of the first '\n' at or after `i`, or `|s|`: where a `.*`
      that starts at `i` stops, since `.` matches everything except '\n'. */
  function LineEnd(s: string, i: nat): (j: nat)
    requires i <= |s|
    ensures i <= j <= |s|
    ensures j < |s| ==> s[j] == '\n'
    decreases |s| - i
  {
    if i == |s| || s[i] == '\n' then i else LineEnd(s, i + 1)
  }

  /** No '\n' lies between `i` and `LineEnd(s, i)`. */
  lemma LineEndNoNewline(s: string, i: nat)
    requires i <= |s|
    ensures forall k :: i <= k < LineEnd(s, i) ==> s[k] != '\n'
    decreases |s| - i
  {
    if i < |s| && s[i] != '\n' {
      LineEndNoNewline(s, i + 1);
    }
  }

  /** First index at or after `i` that is not a Python whitespace
      character: where a greedy `\s*` starting at `i` stops. */
  function SpaceEnd(t: string, i: nat): (k: nat)
    requires i <= |t|
    ensures i <= k <= |t|
    decreases |t| - i
  {
    if i == |t| || !IsSpace(t[i]) then i else SpaceEnd(t, i + 1)
  }

  /** A non-empty `\s*` run ends with whitespace. */
  lemma SpaceEndLast(t: string, i: nat)
    requires i <= |t|
    ensures i < SpaceEnd(t, i) ==> IsSpace(t[SpaceEnd(t, i) - 1])
    decreases |t| - i
  {
    if i < |t| && IsSpace(t[i]) {
      SpaceEndLast(t, i + 1);
    }
  }

  /** `\s*` from `i` covers only whitespace and stops at the first
      character that is not. */
  lemma {:induction false} SpaceEndSkips(t: string, i: nat)
    requires i <= |t|
    ensures forall k :: i <= k < SpaceEnd(t, i) ==> IsSpace(t[k])
    ensures SpaceEnd(t, i) < |t| ==> !IsSpace(t[SpaceEnd(t, i)])
    decreases |t| - i
  {
    if i < |t| && IsSpace(t[i]) {
      SpaceEndSkips(t, i + 1);
    }
  }

  /** The first index at or after `k` where `pat` starts, if there is one:
      the end of a lazy `[\s\S]*?` followed by `pat`. */
  function FindFrom(t: string, pat: string, k: nat): (r: Option<nat>)
    ensures r.Some? ==> k <= r.value && StartsAt(t, r.value, pat)
    ensures r.Some? ==> forall j :: k <= j < r.value ==> !StartsAt(t, j, pat)
    ensures r.None? ==> forall j :: k <= j ==> !StartsAt(t, j, pat)
    decreases |t| - k
  {
    if k + |pat| > |t| then None
    else if t[k..k + |pat|] == pat then Some(k)
    else FindFrom(t, pat, k + 1)
  }

  /** `s.split('\n')` */
  function Lines(s: string): (ls: seq<string>)
    ensures |ls| > 0
    decreases |s|
  {
    var e := LineEnd(s, 0);
    if e == |s| then [s] else [s[..e]] + Lines(s[e + 1..])
  }

  /** `'\n'.join(ls)` */
  function JoinLines(ls: seq<string>): string
  {
    if |ls| == 0 then "" else if |ls| == 1 then ls[0] else ls[0] + ("\n" + JoinLines(ls[1..]))
  }

  lemma LinesStep(s: string, e: nat)
    requires e == LineEnd(s, 0) && e < |s|
    ensures Lines(s) == [s[..e]] + Lines(s[e + 1..])
  {
  }

  lemma JoinLinesCons(x: string, ls: seq<string>)
    requires |ls| >= 1
    ensures JoinLines([x] + ls) == x + ("\n" + JoinLines(ls))
  {
    var xs := [x] + ls;
    assert xs[0] == x && xs[1..] == ls && |xs| > 1;
  }

  lemma ConsAssoc(x: char, a: string, b: string)
    ensures [x] + (a + b) == ([x] + a) + b
  {
  }

  lemma TakeShift(t: string, i: nat)
    requires i < |t|
    ensures t[..i + 1] == [t[0]] + t[1..][..i]
  {
  }

  lemma DropShift(t: string, k: nat)
    requires 1 <= k <= |t|
    ensures t[1..][k - 1..] == t[k..]
  {
  }

  /** ASCII lower-casing of one character. */
  function Lower(c: char): char
  {
    if 'A' <= c <= 'Z' then (c as int + 32) as char else c
  }

  function LowerStr(s: string): (r: string)
    ensures |r| == |s|
    ensures forall k :: 0 <= k < |s| ==> r[k] == Lower(s[k])
  {
    if s == [] then "" else [Lower(s[0])] + LowerStr(s[1..])
  }
}
