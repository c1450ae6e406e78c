/** The built-in pretty-printers (`format_internal_basic`). The JSON and
    XML libraries are parameters: each maps a text to its pretty-printed
    form, or to `None` when it raises. */
module Formatter {
  import opened Chars
  import opened BlankLines

  /** `json.dumps(json.loads(s), indent=2, sort_keys=True)` and
      `xml.dom.minidom.parseString(s).toprettyxml(indent="  ")`. */
  datatype Libraries = Libraries(json: string -> Option<string>, xml: string -> Option<string>)

  // ---------------------------------------------------------------------
  // `re.sub(r'<\?xml.*?\?>\s*', '', s, flags=re.IGNORECASE | re.DOTALL)`

  /** `<?xml`, with `xml` in any case, starts `t`. */
  predicate DeclOpen(t: string)
  {
    |t| >= 5 && t[0] == '<' && t[1] == '?' &&
    Lower(t[2]) == 'x' && Lower(t[3]) == 'm' && Lower(t[4]) == 'l'
  }

  /** Index just past a declaration match at the start of `t`: the first
      "?>" after `<?xml`, then any whitespace. */
  function DeclEnd(t: string): (r: Option<nat>)
    ensures r.Some? ==> 7 <= r.value <= |t|
  {
    if !DeclOpen(t) then None
    else match FindFrom(t, "?>", 5)
      case None => None
      case Some(j) => Some(SpaceEnd(t, j + 2))
  }

  function StripDecls(t: string): (r: string)
    ensures |r| <= |t|
    decreases |t|
  {
    if t == [] then ""
    else match DeclEnd(t)
      case Some(e) => StripDecls(t[e..])
      case None => [t[0]] + StripDecls(t[1..])
  }

  /** Declaration removal changes the text exactly when a declaration
      (an `<?xml` closed by a later "?>") occurs in it. */
  lemma {:induction false} StripDeclsUnchangedIff(t: string)
    ensures StripDecls(t) == t <==> forall i :: 0 <= i <= |t| ==> DeclEnd(t[i..]).None?
    decreases |t|
  {
    if t != [] {
      if DeclEnd(t).Some? {
        assert t[0..] == t;
        assert |StripDecls(t)| <= |t[DeclEnd(t).value..]| < |t|;
      } else {
        StripDeclsUnchangedIff(t[1..]);
        NoDeclShift(t);
        DeclCopyStep(t);
        ConsUnchanged(t, StripDecls(t[1..]));
      }
    } else {
      assert t[0..] == t;
    }
  }

  lemma DeclCopyStep(t: string)
    requires t != [] && DeclEnd(t).None?
    ensures StripDecls(t) == [t[0]] + StripDecls(t[1..])
  {
  }

  /** Copying the first character leaves `t` unchanged exactly when the
      rest is unchanged. */
  lemma ConsUnchanged(t: string, x: string)
    requires t != []
    ensures [t[0]] + x == t <==> x == t[1..]
  {
    if x == t[1..] {
      assert t == [t[0]] + t[1..];
    }
    if [t[0]] + x == t {
      assert ([t[0]] + x)[1..] == x;
    }
  }

  lemma NoDeclShift(t: string)
    requires t != [] && DeclEnd(t).None?
    ensures (forall i :: 0 <= i <= |t| ==> DeclEnd(t[i..]).None?) <==>
            (forall i :: 0 <= i <= |t[1..]| ==> DeclEnd(t[1..][i..]).None?)
  {
    forall i | 0 <= i <= |t[1..]| ensures t[1..][i..] == t[i + 1..] {
    }
    if forall i :: 0 <= i <= |t| ==> DeclEnd(t[i..]).None? {
      forall i | 0 <= i <= |t[1..]| ensures DeclEnd(t[1..][i..]).None? {
        assert DeclEnd(t[i + 1..]).None?;
      }
    } else {
      var i :| 0 <= i <= |t| && DeclEnd(t[i..]).Some?;
      assert t[0..] == t;
      assert DeclEnd(t[1..][i - 1..]).Some?;
    }
  }

  // ---------------------------------------------------------------------
  // `'\n'.join(line for line in s.splitlines() if line.strip())`

  /** The characters `str.splitlines` breaks at. */
  predicate IsLineBoundary(c: char)
  {
    c == '\n' || c == '\r' || c == '\U{0B}' || c == '\U{0C}' ||
    c == '\U{1C}' || c == '\U{1D}' || c == '\U{1E}' || c == '\U{85}' ||
    c == '\U{2028}' || c == '\U{2029}'
  }

  predicate NoBoundary(line: string)
  {
    forall k :: 0 <= k < |line| ==> !IsLineBoundary(line[k])
  }

  /** First line boundary at or after `i`, or `|s|`. */
  function BoundaryAt(s: string, i: nat): (k: nat)
    requires i <= |s|
    ensures i <= k <= |s|
    ensures k < |s| ==> IsLineBoundary(s[k])
    decreases |s| - i
  {
    if i == |s| || IsLineBoundary(s[i]) then i else BoundaryAt(s, i + 1)
  }

  lemma {:induction false} BoundaryAtSkips(s: string, i: nat)
    requires i <= |s|
    ensures forall k :: i <= k < BoundaryAt(s, i) ==> !IsLineBoundary(s[k])
    decreases |s| - i
  {
    if i < |s| && !IsLineBoundary(s[i]) {
      BoundaryAtSkips(s, i + 1);
    }
  }

  /** `s.splitlines()`: "\r\n" counts as one break, and a break at the very
      end does not start another line. */
  function SplitLines(s: string): (ls: seq<string>)
    decreases |s|
  {
    if s == [] then []
    else
      var e := BoundaryAt(s, 0);
      if e == |s| then [s]
      else
        var next := if s[e] == '\r' && e + 1 < |s| && s[e + 1] == '\n' then e + 2 else e + 1;
        [s[..e]] + SplitLines(s[next..])
  }

  /** No piece of `splitlines` holds a line boundary. */
  lemma {:induction false} SplitLinesNoBoundary(s: string)
    ensures forall line :: line in SplitLines(s) ==> NoBoundary(line)
    decreases |s|
  {
    if s != [] {
      var e := BoundaryAt(s, 0);
      BoundaryAtSkips(s, 0);
      if e < |s| {
        var next := if s[e] == '\r' && e + 1 < |s| && s[e + 1] == '\n' then e + 2 else e + 1;
        SplitLinesNoBoundary(s[next..]);
        assert NoBoundary(s[..e]);
      } else {
        assert s[..e] == s;
      }
    }
  }

  /** The lines that are not blank after `strip`. */
  function KeepNonBlank(ls: seq<string>): (r: seq<string>)
    ensures forall line :: line in r ==> line in ls && Strip(line) != ""
  {
    if ls == [] then []
    else (if Strip(ls[0]) != "" then [ls[0]] else []) + KeepNonBlank(ls[1..])
  }

  /** The clean-up applied to the library's XML output: declaration
      removed, outer whitespace stripped, blank lines dropped. */
  function TidyXml(pretty: string): string
  {
    JoinLines(KeepNonBlank(SplitLines(Strip(StripDecls(pretty)))))
  }

  /** Splitting a join of '\n'-free lines at '\n' gives the lines back. */
  lemma {:induction false} LinesOfJoin(ls: seq<string>)
    requires |ls| > 0
    requires forall line :: line in ls ==> '\n' !in line
    ensures Lines(JoinLines(ls)) == ls
    decreases |ls|
  {
    var x := ls[0];
    if |ls| == 1 {
      LineEndNoNewlineFree(x, "");
      assert x + "" == x;
    } else {
      LinesOfJoin(ls[1..]);
      JoinLinesCons(x, ls[1..]);
      assert ls == [x] + ls[1..];
      LinesOfJoinStep(x, ls[1..]);
    }
  }

  lemma LinesOfJoinStep(x: string, rest: seq<string>)
    requires '\n' !in x && |rest| > 0
    requires Lines(JoinLines(rest)) == rest
    ensures Lines(x + ("\n" + JoinLines(rest))) == [x] + rest
  {
    var j := JoinLines(rest);
    var s := x + ("\n" + j);
    LineEndNoNewlineFree(x, "\n" + j);
    LinesStep(s, |x|);
    assert s[..|x|] == x && s[|x| + 1..] == j;
  }

  /** In `x + y`, the first '\n' is the one `y` starts with when `x` has
      none. */
  lemma LineEndNoNewlineFree(x: string, y: string)
    requires '\n' !in x
    requires y == [] || y[0] == '\n'
    ensures LineEnd(x + y, 0) == |x|
  {
    var s := x + y;
    forall k | 0 <= k < |x| ensures s[k] != '\n' {
      assert s[k] == x[k];
    }
    LineEndFrom(s, 0, |x|);
  }

  lemma {:induction false} LineEndFrom(s: string, i: nat, e: nat)
    requires i <= e <= |s|
    requires forall k :: i <= k < e ==> s[k] != '\n'
    requires e == |s| || s[e] == '\n'
    ensures LineEnd(s, i) == e
    decreases e - i
  {
    if i < e {
      LineEndFrom(s, i + 1, e);
    }
  }

  /** The lines of the tidied XML are exactly the non-blank, break-free
      lines kept from the library's output. */
  lemma TidyXmlLines(pretty: string)
    ensures var ls := KeepNonBlank(SplitLines(Strip(StripDecls(pretty))));
            forall line :: line in ls ==> NoBoundary(line) && Strip(line) != ""
    ensures var r := TidyXml(pretty);
            r != "" ==> forall line :: line in Lines(r) ==> NoBoundary(line) && Strip(line) != ""
  {
    var ls := KeepNonBlank(SplitLines(Strip(StripDecls(pretty))));
    SplitLinesNoBoundary(Strip(StripDecls(pretty)));
    if ls != [] {
      LinesOfJoin(ls);
    }
  }

  // ---------------------------------------------------------------------
  // `format_internal_basic`

  /** `format_internal_basic(code, ext)`: the pretty-printed text and
      whether a formatter ran. On failure, and for every extension other
      than ".json" and ".xml", the text comes back unchanged. */
  function FormatInternalBasic(code: string, ext: string, libs: Libraries): (r: (string, bool))
    ensures !r.1 ==> r.0 == code
    ensures ext != ".json" && ext != ".xml" ==> !r.1
    ensures ext == ".json" ==> (r.1 <==> libs.json(code).Some?)
    ensures ext == ".json" && r.1 ==> r.0 == libs.json(code).value
    ensures ext == ".xml" && Strip(StripDecls(code)) == "" ==> r == ("", true)
    ensures ext == ".xml" && Strip(StripDecls(code)) != "" ==> (r.1 <==> libs.xml(Strip(StripDecls(code))).Some?)
    ensures ext == ".xml" && Strip(StripDecls(code)) != "" && r.1 ==>
              r.0 == TidyXml(libs.xml(Strip(StripDecls(code))).value)
  {
    if ext == ".json" then
      match libs.json(code)
      case Some(out) => (out, true)
      case None => (code, false)
    else if ext == ".xml" then
      var noDecl := Strip(StripDecls(code));
      if noDecl == "" then ("", true)
      else
        match libs.xml(noDecl)
        case Some(pretty) => (TidyXml(pretty), true)
        case None => (code, false)
    else
      (code, false)
  }

  /** Successful XML formatting yields lines that are none of them blank
      and none of them holding a break other than the '\n' between them. */
  lemma FormatXmlClean(code: string, libs: Libraries)
    requires FormatInternalBasic(code, ".xml", libs).1
    ensures var text := FormatInternalBasic(code, ".xml", libs).0;
            text != "" ==> forall line :: line in Lines(text) ==> NoBoundary(line) && Strip(line) != ""
  {
    var noDecl := Strip(StripDecls(code));
    if noDecl != "" {
      TidyXmlLines(libs.xml(noDecl).value);
    }
  }

  /** A file holding nothing but an XML declaration formats to the empty
      text, whatever the library would do. */
  lemma DeclarationOnly(libs: Libraries)
    ensures FormatInternalBasic("<?XML version=\"1.0\"?>\n", ".xml", libs) == ("", true)
  {
    DeclarationOnlyStripped();
    assert Strip("") == "";
  }

  lemma DeclarationOnlyStripped()
    ensures StripDecls("<?XML version=\"1.0\"?>\n") == ""
  {
    var t := "<?XML version=\"1.0\"?>\n";
    assert DeclOpen(t);
    DeclarationOnlyClose();
    assert SpaceEnd(t, 21) == 22;
    assert DeclEnd(t) == Some(22) && t[22..] == [];
  }

  lemma DeclarationOnlyClose()
    ensures FindFrom("<?XML version=\"1.0\"?>\n", "?>", 5) == Some(19)
  {
    var t := "<?XML version=\"1.0\"?>\n";
    assert t[19..21] == "?>";
    assert forall i :: 5 <= i < 19 ==> t[i] != '?';
    FindFromFirstChar(t, "?>", 5, 19);
  }

  /** `pat` is found at `j` when its first character occurs nowhere in
      `[k, j)`. */
  lemma {:induction false} FindFromFirstChar(t: string, pat: string, k: nat, j: nat)
    requires |pat| > 0 && k <= j && StartsAt(t, j, pat)
    requires forall i :: k <= i < j ==> t[i] != pat[0]
    ensures FindFrom(t, pat, k) == Some(j)
    decreases j - k
  {
    if k < j {
      assert t[k..k + |pat|][0] == t[k];
      FindFromFirstChar(t, pat, k + 1, j);
    }
  }
}
