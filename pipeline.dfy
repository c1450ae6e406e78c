/** The cleaning steps of `process_single_file`, in their fixed order:
    comments, blank lines, built-in formatting, line endings. */
module Pipeline {
  import opened Chars
  import opened Eol
  import opened Comments
  import opened BlankLines
  import opened Formatter

  /** The options the worker receives: the two check boxes and the chosen
      line ending (absent means the default). */
  datatype Options = Options(removeComments: bool, removeEmptyLines: bool, setEol: Option<string>)

  /** `options.get("set_eol", "CRLF")` */
  function TargetEol(opts: Options): string
  {
    match opts.setEol
    case Some(eol) => eol
    case None => "CRLF"
  }

  /** The text after the enabled cleaning steps and the formatter, before
      line endings are converted; the formatter's output is used only
      when it reports success. */
  function Cleaned(code: string, ext: string, opts: Options, libs: Libraries): string
  {
    var c1 := if opts.removeComments then RemoveCommentsByType(code, ext) else code;
    var c2 := if opts.removeEmptyLines then RemoveExtraEmptyLines(c1) else c1;
    var formatted := FormatInternalBasic(c2, ext, libs);
    if formatted.1 then formatted.0 else c2
  }

  /** The text `process_single_file` returns for decoded file contents. Its
      line endings are all in the target form, and apart from line endings
      it is the cleaned text. */
  function ProcessText(code: string, ext: string, opts: Options, libs: Libraries): (r: string)
    ensures TargetEol(opts) == "CRLF" ==> CrlfForm(r)
    ensures TargetEol(opts) != "CRLF" ==> '\r' !in r
    ensures ToLf(r) == ToLf(Cleaned(code, ext, opts, libs))
  {
    NormalizeEol(Cleaned(code, ext, opts, libs), TargetEol(opts))
  }

  /** With no cleaning step enabled and no formatter for the extension,
      only the line endings change. */
  lemma ProcessTextOnlyEol(code: string, ext: string, opts: Options, libs: Libraries)
    requires !opts.removeComments && !opts.removeEmptyLines
    requires ext != ".json" && ext != ".xml"
    ensures ProcessText(code, ext, opts, libs) == NormalizeEol(code, TargetEol(opts))
  {
  }

  /** Comment removal is skipped for an extension no family claims, even
      when it is enabled. */
  lemma UnhandledIgnoresComments(code: string, ext: string, opts: Options, libs: Libraries)
    requires FamilyOf(ext) == Unhandled
    ensures ProcessText(code, ext, opts, libs) ==
            ProcessText(code, ext, opts.(removeComments := false), libs)
  {
  }

  /** With blank-line collapsing on and no formatter, the output's LF form
      is the collapsed text: no run of three '\n', nothing blank at either
      end, so no trailing newline. */
  lemma ProcessTextCollapsed(code: string, ext: string, opts: Options, libs: Libraries)
    requires opts.removeEmptyLines
    requires ext != ".json" && ext != ".xml"
    ensures var lf := ToLf(ProcessText(code, ext, opts, libs));
            NoTripleNewline(lf) && TrimmedEnds(lf)
  {
    var c1 := if opts.removeComments then RemoveCommentsByType(code, ext) else code;
    ToLfNoCr(RemoveExtraEmptyLines(c1));
  }

  /** Converting line endings of collapsed text and collapsing again gives
      the collapsed text back. */
  lemma CollapseAfterEol(r: string, eol: string)
    requires r == RemoveExtraEmptyLines(r)
    requires '\r' !in r && TrimmedEnds(r) && NoTripleNewline(r)
    ensures RemoveExtraEmptyLines(NormalizeEol(r, eol)) == r
  {
    var n := NormalizeEol(r, eol);
    ToLfNoCr(r);
    assert ToLf(n) == r;
    if r != "" {
      assert n != "";
      StripFixed(r);
      CollapseFixed(r);
    }
  }

  /** With comment removal on, processing is not idempotent for a C-style
      file: a second run over the output of the first changes it again. */
  lemma ProcessTextNotIdempotent(code: string, ext: string, opts: Options, libs: Libraries)
    requires code == "//*x*/*y*/" && ext == ".js" && opts == Options(true, false, Some("LF"))
    ensures ProcessText(code, ext, opts, libs) == "/*y*/"
    ensures ProcessText(ProcessText(code, ext, opts, libs), ext, opts, libs) == ""
  {
    CStyleRemovalNotIdempotent(code, ext);
    var once := RemoveCommentsByType(code, ext);
    CommentsOnlyLf(code, ext, opts, libs);
    ToLfNoCr(once);
    CommentsOnlyLf(once, ext, opts, libs);
    ToLfNoCr(RemoveCommentsByType(once, ext));
  }

  /** With only comment removal on, no formatter and an "LF" target, the
      result is the LF form of the comment-free text. */
  lemma CommentsOnlyLf(code: string, ext: string, opts: Options, libs: Libraries)
    requires opts == Options(true, false, Some("LF")) && ext != ".json" && ext != ".xml"
    ensures ProcessText(code, ext, opts, libs) == ToLf(RemoveCommentsByType(code, ext))
  {
  }

  /** Without comment removal and without a formatter, processing its own
      output changes nothing: the steps that run are all idempotent and
      commute with the final line-ending conversion. */
  lemma ProcessTextIdempotent(code: string, ext: string, opts: Options, libs: Libraries)
    requires !opts.removeComments || FamilyOf(ext) == Unhandled
    requires ext != ".json" && ext != ".xml"
    ensures var once := ProcessText(code, ext, opts, libs);
            ProcessText(once, ext, opts, libs) == once
  {
    var eol := TargetEol(opts);
    var once := ProcessText(code, ext, opts, libs);
    if opts.removeEmptyLines {
      var r := RemoveExtraEmptyLines(code);
      RemoveExtraEmptyLinesIdempotent(code);
      CollapseAfterEol(r, eol);
      assert once == NormalizeEol(r, eol);
      assert Cleaned(once, ext, opts, libs) == r;
    } else {
      NormalizeEolIdempotent(code, eol);
    }
  }

  /** `process_single_file` on the outcome of reading the file: nothing
      when it could not be read, otherwise the text read and the text
      produced. */
  function ProcessSingleFile(read: Option<string>, ext: string, opts: Options, libs: Libraries): (r: (Option<string>, Option<string>))
    ensures read.None? ==> r == (None, None)
    ensures read.Some? ==> r.0 == read && r.1.Some?
  {
    match read
    case None => (None, None)
    case Some(code) => (Some(code), Some(ProcessText(code, ext, opts, libs)))
  }
}
