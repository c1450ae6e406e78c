/** Shell-style basename patterns as `fnmatch.fnmatch` reads them on POSIX
    (case-sensitive): `*` any run, `?` any one character, `[...]` a set,
    `[!...]` its complement, everything else literal. */
module Glob {
  import opened Chars

  /** One member of a bracket set: a character or an inclusive range. A
      range whose ends are reversed contains nothing. */
  datatype Item = Single(c: char) | Range(lo: char, hi: char)

  datatype Token = Star | AnyChar | Lit(c: char) | Set(negated: bool, items: seq<Item>)

  predicate ItemHas(item: Item, c: char)
  {
    match item
    case Single(x) => c == x
    case Range(lo, hi) => lo <= c <= hi
  }

  predicate SetHas(negated: bool, items: seq<Item>, c: char)
  {
    negated != (exists k :: 0 <= k < |items| && ItemHas(items[k], c))
  }

  /** The inside of a bracket set, after the optional '!': `a-z` is a range
      when a character follows the '-', a '-' first or last is literal, and
      after a range the next '-' is literal. */
  function ParseItems(s: string): seq<Item>
    decreases |s|
  {
    if s == [] then []
    else if |s| >= 3 && s[1] == '-' then [Range(s[0], s[2])] + ParseItems(s[3..])
    else [Single(s[0])] + ParseItems(s[1..])
  }

  /** Index of the first ']' at or after `j`, if any. */
  function CloseAt(p: string, j: nat): (r: nat)
    requires j <= |p|
    ensures j <= r <= |p|
    ensures r < |p| ==> p[r] == ']'
    decreases |p| - j
  {
    if j == |p| || p[j] == ']' then j else CloseAt(p, j + 1)
  }

  /** Where the set opened by the '[' just before index `i` closes: a '!'
      right after the '[' negates, and a ']' right after that is a member.
      `None` when no ']' closes it, and the '[' is then literal. */
  function SetClose(p: string, i: nat): (r: Option<nat>)
    requires i <= |p|
    ensures r.Some? ==> i < r.value < |p| && p[r.value] == ']'
  {
    var j0 := if i < |p| && p[i] == '!' then i + 1 else i;
    var j1 := if j0 < |p| && p[j0] == ']' then j0 + 1 else j0;
    var j := CloseAt(p, j1);
    if j < |p| then Some(j) else None
  }

  /** The pattern as `fnmatch.translate` reads it, one token per unit. */
  function Tokens(p: string): seq<Token>
    decreases |p|
  {
    if p == [] then []
    else if p[0] == '*' then [Star] + Tokens(p[1..])
    else if p[0] == '?' then [AnyChar] + Tokens(p[1..])
    else if p[0] == '[' then
      match SetClose(p, 1)
      case None => [Lit('[')] + Tokens(p[1..])
      case Some(j) =>
        var negated := p[1] == '!';
        var body := if negated then p[2..j] else p[1..j];
        [Set(negated, ParseItems(body))] + Tokens(p[j + 1..])
    else [Lit(p[0])] + Tokens(p[1..])
  }

  /** The whole of `name` matches the tokens (the translated regex is
      anchored at both ends, and its `.` matches every character). */
  predicate Matches(ts: seq<Token>, name: string)
    decreases |ts|, |name|
  {
    if ts == [] then name == []
    else match ts[0]
      case Star => Matches(ts[1..], name) || (name != [] && Matches(ts, name[1..]))
      case AnyChar => name != [] && Matches(ts[1..], name[1..])
      case Lit(c) => name != [] && name[0] == c && Matches(ts[1..], name[1..])
      case Set(neg, items) => name != [] && SetHas(neg, items, name[0]) && Matches(ts[1..], name[1..])
  }

  /** `fnmatch.fnmatch(name, pattern)` */
  predicate FnMatch(name: string, pattern: string)
  {
    Matches(Tokens(pattern), name)
  }

  // ---------------------------------------------------------------------
  // Properties

  /** No character is special. */
  predicate Plain(s: string)
  {
    forall k :: 0 <= k < |s| ==> s[k] != '*' && s[k] != '?' && s[k] != '['
  }

  function LitTokens(s: string): seq<Token>
  {
    if s == [] then [] else [Lit(s[0])] + LitTokens(s[1..])
  }

  lemma {:induction false} PlainTokens(s: string)
    requires Plain(s)
    ensures Tokens(s) == LitTokens(s)
    decreases |s|
  {
    if s != [] {
      assert s[0] != '*' && s[0] != '?' && s[0] != '[';
      assert Plain(s[1..]) by {
        forall k | 0 <= k < |s[1..]| ensures s[1..][k] != '*' && s[1..][k] != '?' && s[1..][k] != '[' {
          assert s[1..][k] == s[k + 1];
        }
      }
      PlainTokens(s[1..]);
    }
  }

  /** Literal tokens match exactly their own text. */
  lemma {:induction false} LitTokensMatch(s: string, name: string)
    ensures Matches(LitTokens(s), name) <==> name == s
    decreases |s|
  {
    if s != [] {
      var ts := LitTokens(s);
      assert ts[0] == Lit(s[0]) && ts[1..] == LitTokens(s[1..]);
      if name != [] {
        LitTokensMatch(s[1..], name[1..]);
        if name[0] == s[0] && name[1..] == s[1..] {
          assert name == [name[0]] + name[1..];
          assert s == [s[0]] + s[1..];
        }
      }
    }
  }

  /** A pattern without special characters matches only itself. */
  lemma PlainMatchesItself(s: string, name: string)
    requires Plain(s)
    ensures FnMatch(name, s) <==> name == s
  {
    PlainTokens(s);
    LitTokensMatch(s, name);
  }

  /** A leading star matches when the rest matches some suffix. */
  lemma {:induction false} StarMatches(ts: seq<Token>, name: string)
    ensures Matches([Star] + ts, name) <==> exists k :: 0 <= k <= |name| && Matches(ts, name[k..])
    decreases |name|
  {
    var st := [Star] + ts;
    assert st[0] == Star && st[1..] == ts;
    assert name[0..] == name;
    if name != [] {
      StarMatches(ts, name[1..]);
      forall k | 1 <= k <= |name| ensures name[1..][k - 1..] == name[k..] {
      }
      if exists k :: 0 <= k <= |name| && Matches(ts, name[k..]) {
        var k :| 0 <= k <= |name| && Matches(ts, name[k..]);
        if k > 0 {
          assert Matches(ts, name[1..][k - 1..]);
        }
      }
    }
  }

  /** `*` followed by literal text (as in "*.log" or "*.min.js") matches
      exactly the names that end with that text. */
  lemma StarSuffix(suffix: string, name: string)
    requires Plain(suffix)
    ensures FnMatch(name, "*" + suffix) <==> |suffix| <= |name| && name[|name| - |suffix|..] == suffix
  {
    var p := "*" + suffix;
    assert p[0] == '*' && p[1..] == suffix;
    PlainTokens(suffix);
    assert Tokens(p) == [Star] + LitTokens(suffix);
    StarMatches(LitTokens(suffix), name);
    forall k | 0 <= k <= |name| ensures Matches(LitTokens(suffix), name[k..]) <==> name[k..] == suffix {
      LitTokensMatch(suffix, name[k..]);
    }
    if |suffix| <= |name| && name[|name| - |suffix|..] == suffix {
      assert Matches(LitTokens(suffix), name[|name| - |suffix|..]);
    }
  }

  /** `[!...]` matches one character exactly when `[...]` with the same
      members does not. */
  lemma NegatedSet(items: seq<Item>, c: char)
    ensures Matches([Set(true, items)], [c]) <==> !Matches([Set(false, items)], [c])
  {
    assert [c][1..] == [];
  }

  /** A '[' that no ']' closes is an ordinary character. */
  lemma UnclosedBracketIsLiteral()
    ensures FnMatch("[a", "[a") && !FnMatch("a", "[a")
  {
    assert SetClose("[a", 1).None?;
    assert Tokens("[a") == [Lit('[')] + Tokens("a");
  }

  /** A reversed range is empty, and so is a set made only of one. */
  lemma ReversedRangeIsEmpty(c: char)
    ensures !FnMatch([c], "[z-a]")
  {
    var p := "[z-a]";
    assert SetClose(p, 1) == Some(4);
    assert p[1..4] == "z-a";
    assert ParseItems("z-a") == [Range('z', 'a')];
    assert Tokens(p) == [Set(false, [Range('z', 'a')])] + Tokens(p[5..]);
  }

  /** The default pattern "*.min.js" drops minified scripts but not a
      backup of one, nor an ordinary script. */
  lemma MinifiedScriptExamples()
    ensures FnMatch("app.min.js", "*.min.js")
    ensures !FnMatch("app.min.js.bak", "*.min.js")
    ensures !FnMatch("app.js", "*.min.js")
  {
    MinifiedScriptMatches();
    MinifiedBackupMisses();
    PlainScriptMisses();
  }

  lemma MinifiedScriptMatches()
    ensures FnMatch("app.min.js", "*.min.js")
  {
    var suffix := ".min.js";
    assert Plain(suffix);
    StarSuffix(suffix, "app.min.js");
    assert "app.min.js"[3..] == suffix;
  }

  lemma MinifiedBackupMisses()
    ensures !FnMatch("app.min.js.bak", "*.min.js")
  {
    var suffix := ".min.js";
    assert Plain(suffix);
    StarSuffix(suffix, "app.min.js.bak");
    assert "app.min.js.bak"[7..][1] != suffix[1];
  }

  lemma PlainScriptMisses()
    ensures !FnMatch("app.js", "*.min.js")
  {
    var suffix := ".min.js";
    assert Plain(suffix);
    StarSuffix(suffix, "app.js");
  }

  /** A backup of a minified script is dropped by the default "*.bak". */
  lemma BackupOfMinifiedScript()
    ensures FnMatch("keep.min.js.bak", "*.bak")
  {
    var suffix := ".bak";
    assert Plain(suffix);
    StarSuffix(suffix, "keep.min.js.bak");
    assert "keep.min.js.bak"[11..] == suffix;
  }
}
