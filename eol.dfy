/** Line-ending conversion (`normalize_eol`). */
module Eol {
  import opened Chars

  /** `s.replace('\r\n', '\n')`: leftmost, non-overlapping occurrences. */
  function ReplaceCrLf(s: string): (r: string)
    ensures Count(r, '\n') == Count(s, '\n')
  {
    if s == [] then ""
    else if |s| >= 2 && s[0] == '\r' && s[1] == '\n' then "\n" + ReplaceCrLf(s[2..])
    else [s[0]] + ReplaceCrLf(s[1..])
  }

  /** `s.replace(c, rep)` for a single character `c`. */
  function ReplaceChar(s: string, c: char, rep: string): (r: string)
    ensures c !in rep ==> c !in r
  {
    if s == [] then ""
    else (if s[0] == c then rep else [s[0]]) + ReplaceChar(s[1..], c, rep)
  }

  /** Both replacements of lines 59 and 120: every "\r\n" and then every
      remaining '\r' becomes '\n'. */
  function ToLf(s: string): (r: string)
    ensures '\r' !in r
  {
    ReplaceChar(ReplaceCrLf(s), '\r', "\n")
  }

  /** Every '\n' is the second half of a "\r\n" and every '\r' the first half. */
  predicate CrlfForm(s: string)
  {
    forall i :: 0 <= i < |s| ==> CrlfAt(s, i)
  }

  predicate CrlfAt(s: string, i: nat)
    requires i < |s|
  {
    (s[i] == '\n' ==> i > 0 && s[i - 1] == '\r') &&
    (s[i] == '\r' ==> i + 1 < |s| && s[i + 1] == '\n')
  }

  /** `normalize_eol(code, eol)`: LF first, then "\r\n" when the target is
      exactly "CRLF"; any other target leaves LF. */
  function NormalizeEol(code: string, eol: string): (r: string)
    ensures eol == "CRLF" ==> CrlfForm(r)
    ensures eol != "CRLF" ==> '\r' !in r
    ensures ToLf(r) == ToLf(code)
    ensures Count(ToLf(r), '\n') == Count(ToLf(code), '\n')
  {
    var lf := ToLf(code);
    ToLfIdempotent(code);
    if eol == "CRLF" then
      CrlfOfLf(lf);
      ToLfOfCrlf(lf);
      ReplaceChar(lf, '\n', "\r\n")
    else
      lf
  }

  lemma CrlfFormAppend(a: string, b: string)
    requires CrlfForm(a) && CrlfForm(b)
    ensures CrlfForm(a + b)
  {
    var ab := a + b;
    forall i | 0 <= i < |ab|
      ensures CrlfAt(ab, i)
    {
      if i < |a| {
        assert ab[i] == a[i];
        assert CrlfAt(a, i);
        if i > 0 { assert ab[i - 1] == a[i - 1]; }
        if i + 1 < |a| { assert ab[i + 1] == a[i + 1]; }
      } else {
        var j := i - |a|;
        assert ab[i] == b[j];
        assert CrlfAt(b, j);
        if j > 0 { assert ab[i - 1] == b[j - 1]; }
        if j + 1 < |b| { assert ab[i + 1] == b[j + 1]; }
      }
    }
  }

  /** Rewriting every '\n' of an LF text as "\r\n" yields CRLF form. */
  lemma {:induction false} CrlfOfLf(x: string)
    requires '\r' !in x
    ensures CrlfForm(ReplaceChar(x, '\n', "\r\n"))
  {
    if x != [] {
      assert '\r' !in x[1..] by { assert forall k :: 0 <= k < |x| - 1 ==> x[1..][k] == x[k + 1]; }
      CrlfOfLf(x[1..]);
      var head := if x[0] == '\n' then "\r\n" else [x[0]];
      assert CrlfForm(head);
      CrlfFormAppend(head, ReplaceChar(x[1..], '\n', "\r\n"));
    }
  }

  /** Text without '\r' is left alone by both LF replacements. */
  lemma {:induction false} ToLfNoCr(x: string)
    requires '\r' !in x
    ensures ReplaceCrLf(x) == x && ReplaceChar(x, '\r', "\n") == x && ToLf(x) == x
  {
    if x != [] {
      assert x == [x[0]] + x[1..];
      ToLfNoCr(x[1..]);
    }
  }

  /** LF normalisation is idempotent. */
  lemma ToLfIdempotent(s: string)
    ensures ToLf(ToLf(s)) == ToLf(s)
  {
    ToLfNoCr(ToLf(s));
  }

  /** LF-normalising a CRLF rendering gives back the LF text. */
  lemma {:induction false} ToLfOfCrlf(x: string)
    requires '\r' !in x
    ensures ReplaceCrLf(ReplaceChar(x, '\n', "\r\n")) == x
    ensures ToLf(ReplaceChar(x, '\n', "\r\n")) == x
  {
    if x != [] {
      assert x == [x[0]] + x[1..];
      ToLfOfCrlf(x[1..]);
      var rest := ReplaceChar(x[1..], '\n', "\r\n");
      if x[0] == '\n' {
        assert ReplaceChar(x, '\n', "\r\n") == "\r\n" + rest;
        assert ("\r\n" + rest)[2..] == rest;
      } else {
        assert ReplaceChar(x, '\n', "\r\n") == [x[0]] + rest;
        assert ([x[0]] + rest)[1..] == rest;
        if |rest| > 0 && rest[0] == '\n' {
          CrlfOfLf(x[1..]);
        }
      }
    }
    ToLfNoCr(x);
  }

  /** Converting twice to the same target changes nothing the second time. */
  lemma NormalizeEolIdempotent(code: string, eol: string)
    ensures NormalizeEol(NormalizeEol(code, eol), eol) == NormalizeEol(code, eol)
  {
    var r := NormalizeEol(code, eol);
    ToLfIdempotent(code);
    assert ToLf(r) == ToLf(code);
  }
}
