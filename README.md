# Code Finisher core, modelled in Dafny

Code Finisher (`Ultimate_Code_Finisher.py`) is a desktop tool that cleans
source files in bulk. The user picks a file or a directory. A worker finds
the files to clean, sends each one through a fixed pipeline, and keeps two
caches: the text as read and the cleaned text of every file that changed.
The user can then preview, save or undo the changes. The pipeline steps are:

1. comment removal, chosen by extension family;
2. blank-line consolidation;
3. the built-in JSON/XML pretty-printer;
4. line-ending conversion.

This project models the non-GUI core of that tool. It covers these parts:

- **Text transforms** (pure functions on `string`). Each `re.sub` becomes a
  left-to-right scanner with Python's leftmost, non-overlapping semantics.
  - `normalize_eol` is module `Eol`.
  - `remove_comments_by_type` is `Comments`, with the shared scanning
    helpers in `Chars`.
  - `remove_extra_empty_lines_smart` is `BlankLines`.
  - `format_internal_basic` is `Formatter`. The JSON and XML libraries are
    function parameters.
  - The step order of `process_single_file` is `Pipeline`.
- **Binary sniffer** (`is_likely_binary`): module `Binary`, a predicate on
  the outcome of reading a file's bytes.
- **File discovery** (the walk in `processing_thread_worker`): module
  `Discovery`.
  - The directory tree is a datatype of ordered listings.
  - Ignore patterns are split into directory names and basename globs.
  - `fnmatch` is module `Glob`.
  - The walk prunes directories and counts every file it lists. It is an
    imperative method proved against a functional specification of the
    top-down `os.walk`.
- **The application state** (module `Cleaner`, class `App`).
  - The fields are the two caches, an event log that stands for the UI
    message queue, and a map for the files on disk.
  - The methods are the batch loop with its one-shot commit, the worker,
    start-processing with its reset, save, undo, and the cache part of
    reset.
  - The functions are the button states and the cache lookup.
  - The batch is stated over any per-file step that, like
    `process_single_file`, yields processed text only from text it read.
    The worker runs it with `Processing`, which is that function with the
    chosen options.

The code decides wherever a plain description of the tool would say
otherwise:

- Blank-line consolidation strips the whole text (line 126), so its result
  never ends in a newline: a file whose text ends in `"\n"` loses that
  final `"\n"` (`Pipeline.ProcessTextCollapsed`).
- Comment removal is not idempotent for the C-style and PHP families, so
  processing a file twice can change it twice. For `".js"` with comment
  removal on, `"//*x*/*y*/"` becomes `"/*y*/"`, because the block rule
  runs first (lines 82-86) and takes a block that starts at the second
  `/`, and a second run gives `""` (`Pipeline.ProcessTextNotIdempotent`).
- Undo clears the processed cache before copying the originals into it
  (lines 675-676). It replaces the cache; it does not merge into it.
- `start_processing_action` empties both caches before the worker runs
  (line 430). The worker merges into the processed cache (line 539), but
  after a run started from the button, for a folder, a single file or a
  missing selection alike, that cache holds only that run's changes
  (`App.StartProcessing`).
- The `.py` inline rule needs at least one whitespace character before the
  `#` (line 78). Its guard is the character before the whitespace the rule
  removes, and it may itself be whitespace. So a quote protects a `#` only
  when exactly one whitespace character separates them: `s = 'a'  # note`
  still loses its comment and keeps one blank (`Comments.StripInlineCutsAfterQuote`).
- `.hpp` and `.m` have C-style comment rules (line 80), but they are not in
  the supported extensions (lines 28-31), so those rules never run.
- A directory pattern has every `/` and `\` removed, not only the trailing
  one (line 464).
- The ignore patterns apply to directory walks only. A single selected file
  is checked for its extension and for binary content alone (lines
  494-501).

## Model

| member | source | states |
|---|---|---|
| Chars.LineEndNoNewline | Ultimate_Code_Finisher.py:76 | a `.*` run stops at the first '\n' and covers no '\n' |
| Chars.SpaceEndSkips | Ultimate_Code_Finisher.py:78 | a greedy `\s*` covers only Python whitespace and stops at the first non-whitespace character |
| Chars.FindFrom | Ultimate_Code_Finisher.py:86 | a lazy `[\s\S]*?` followed by a closer ends at the first occurrence of the closer; none occurs before it, and `None` means none occurs at all |
| Chars.LowerStr | Ultimate_Code_Finisher.py:474 | lower-casing keeps the length and lower-cases each character in place |
| Eol.ReplaceCrLf | Ultimate_Code_Finisher.py:59 | replacing "\r\n" by "\n" keeps the number of '\n' |
| Eol.ReplaceChar | Ultimate_Code_Finisher.py:59 | after replacing a character by text that lacks it, the character is gone |
| Eol.ToLf | Ultimate_Code_Finisher.py:59 | the LF normalisation leaves no '\r' |
| Eol.NormalizeEol | Ultimate_Code_Finisher.py:55-63 | for target "CRLF" every '\n' follows a '\r' and every '\r' precedes a '\n'; for any other target no '\r' remains; LF-normalising the result gives the LF-normalised input |
| Eol.CrlfOfLf | Ultimate_Code_Finisher.py:62 | rewriting each '\n' of '\r'-free text as "\r\n" gives CRLF form |
| Eol.ToLfNoCr | Ultimate_Code_Finisher.py:59 | text without '\r' is left alone by both replacements |
| Eol.ToLfIdempotent | Ultimate_Code_Finisher.py:59 | LF normalisation is idempotent |
| Eol.ToLfOfCrlf | Ultimate_Code_Finisher.py:55-63 | LF-normalising the CRLF rendering of LF text gives that text back |
| Eol.NormalizeEolIdempotent | Ultimate_Code_Finisher.py:55-63 | converting twice to the same target equals converting once |
| Comments.FamilyOf | Ultimate_Code_Finisher.py:74-97 | the hash rule applies exactly to ".py", the C-style rule exactly to the fourteen extensions of line 80, the markup rule exactly to ".html" and ".xml", the PHP rule exactly to ".php" |
| Comments.BlockEnd | Ultimate_Code_Finisher.py:86 | a block match starts with the opener and ends with a closer that does not overlap it |
| Comments.StripBlocks | Ultimate_Code_Finisher.py:82-86 | replacing each block comment by its own newlines keeps the '\n' count and never lengthens the text |
| Comments.StripBlocksUnchangedIff | Ultimate_Code_Finisher.py:86 | block removal changes the text exactly when it holds an opener and, after the opener ends, a closer |
| Comments.StripBlocksFirstMatch | Ultimate_Code_Finisher.py:82-86 | at the leftmost position where a complete block starts, the text before it is kept, the block up to the first closer after its opener becomes exactly its own '\n's, and removal continues after it |
| Comments.StripSlashComments | Ultimate_Code_Finisher.py:88 | `//` removal keeps the '\n' count and never lengthens the text |
| Comments.StripSlashUnchangedIff | Ultimate_Code_Finisher.py:88 | `//` removal changes the text exactly when some "//" is not preceded by ':' |
| Comments.SlashStart | Ultimate_Code_Finisher.py:88 | the search finds the first "//" of a line that is not preceded by ':' (no earlier position qualifies), or the end of the line |
| Comments.SlashLineFrom | Ultimate_Code_Finisher.py:88 | from any position of a line, `//` removal keeps the line up to its first unguarded "//" and resumes after the '\n' |
| Comments.StripSlashByLines | Ultimate_Code_Finisher.py:88 | `//` removal is the same as splitting at '\n', cutting each line at its first "//" not preceded by ':', and joining again, so "http://x // c" keeps "http://x " |
| Comments.StripHashAll | Ultimate_Code_Finisher.py:105 | the PHP `#` rule leaves no '#' and keeps the '\n' count |
| Comments.StripHashAllUnchangedIff | Ultimate_Code_Finisher.py:105 | the PHP `#` rule changes the text exactly when it holds a '#' |
| Comments.HashStart | Ultimate_Code_Finisher.py:105 | the search finds the first '#' of a line, or the end of the line |
| Comments.HashLineFrom | Ultimate_Code_Finisher.py:105 | from any position of a line, the PHP `#` rule keeps the line up to its first '#' and resumes after the '\n' |
| Comments.StripHashAllByLines | Ultimate_Code_Finisher.py:105 | the PHP `#` rule is the same as splitting at '\n', keeping of each line only what comes before its first '#', and joining again |
| Comments.StripHashLines | Ultimate_Code_Finisher.py:76 | the full-line rule keeps the '\n' count and never lengthens the text |
| Comments.StripHashLinesUnchangedIff | Ultimate_Code_Finisher.py:76 | the full-line rule changes the text exactly when some line starts with blanks and then '#' |
| Comments.HashLinesMidLine | Ultimate_Code_Finisher.py:76 | away from a line start the rule copies up to the next '\n' |
| Comments.StripHashLinesByLines | Ultimate_Code_Finisher.py:75-76 | the full-line rule is the same as splitting at '\n', emptying each line whose first non-blank character is '#', and joining again |
| Comments.StripInline | Ultimate_Code_Finisher.py:78 | the inline rule never lengthens the text |
| Comments.StripInlineUnchangedIff | Ultimate_Code_Finisher.py:78 | the inline rule changes the text exactly when a non-quote character, whitespace and then '#' occur |
| Comments.StripInlineFirstMatch | Ultimate_Code_Finisher.py:78 | at the leftmost match the guard character is kept and everything from the whitespace to the end of the line goes |
| Comments.StripPythonKeepsAttachedHashes | Ultimate_Code_Finisher.py:74-78 | text whose every '#' directly follows non-whitespace is left unchanged by the .py rule |
| Comments.StripInlineCutsHashInString | Ultimate_Code_Finisher.py:78 | a '#' after a space inside a string literal is taken for a comment (an input shaped like test/test_python.py:15) |
| Comments.StripInlineCutsAfterQuote | Ultimate_Code_Finisher.py:78 | the guard may be the first blank of the run: a comment two blanks after a closing quote is still removed, and the guard blank is kept |
| Comments.RemoveCommentsByType | Ultimate_Code_Finisher.py:65-108 | each family applies its own rules in the source's order: .py the line-wise full-line rule then the inline rule; C-style block removal then `//` removal; markup `<!-- -->` removal; PHP block, `//` and then `#` removal; an unhandled extension comes back unchanged. C-style, markup and PHP keep the '\n' count, and PHP output has no '#' |
| Comments.CStyleRemovalNotIdempotent | Ultimate_Code_Finisher.py:82-88 | the block rule, run before the `//` rule, leaves a block behind that a second pass removes: the C-style removal is not idempotent |
| BlankLines.StripDropsOnlySpace | Ultimate_Code_Finisher.py:126 | what `strip` removes at both ends is whitespace |
| BlankLines.StripTrimmed | Ultimate_Code_Finisher.py:126 | the stripped text is empty or has non-whitespace at both ends |
| BlankLines.StripFixed | Ultimate_Code_Finisher.py:126 | text already trimmed at both ends is its own strip |
| BlankLines.StripSubset | Ultimate_Code_Finisher.py:126 | every character `strip` keeps comes from its input |
| BlankLines.Collapse | Ultimate_Code_Finisher.py:126 | collapsing keeps a non-empty text non-empty |
| BlankLines.CollapseEnds | Ultimate_Code_Finisher.py:126 | the first and last characters survive collapsing |
| BlankLines.CollapseAppend | Ultimate_Code_Finisher.py:126 | no run crosses a boundary whose left side does not end in '\n', so collapsing the two sides separately gives the same text |
| BlankLines.CollapseRun | Ultimate_Code_Finisher.py:126 | a leading run of two or more '\n' becomes "\n\n", and a single '\n' stays |
| BlankLines.CollapseRuns | Ultimate_Code_Finisher.py:126 | around any maximal run of '\n', both sides are collapsed on their own and the run becomes "\n\n" (one empty line kept) if it had two or more '\n', and "\n" otherwise |
| BlankLines.CollapseNoTriple | Ultimate_Code_Finisher.py:126 | no three '\n' in a row survive collapsing |
| BlankLines.CollapseFixed | Ultimate_Code_Finisher.py:126 | text without three '\n' in a row is its own collapse |
| BlankLines.CollapseKeepsText | Ultimate_Code_Finisher.py:126 | collapsing removes only '\n': with all '\n' deleted, input and output agree |
| BlankLines.RemoveExtraEmptyLines | Ultimate_Code_Finisher.py:114-127 | "" gives ""; the result has no '\r', no three '\n' in a row, nothing blank at either end (so no trailing newline), and apart from '\n' it is the stripped LF-normalised input |
| BlankLines.RemoveExtraEmptyLinesIdempotent | Ultimate_Code_Finisher.py:114-127 | consolidating twice equals consolidating once |
| BlankLines.RemoveExtraEmptyLinesKeepsBlank | Ultimate_Code_Finisher.py:114-127 | in the whole consolidation, a run of '\n' between trimmed LF text keeps exactly one empty line if it had two or more '\n', and a bare line break otherwise |
| Formatter.StripDecls | Ultimate_Code_Finisher.py:146 | removing XML declarations never lengthens the text |
| Formatter.StripDeclsUnchangedIff | Ultimate_Code_Finisher.py:146 | declaration removal changes the text exactly when a `<?xml ... ?>` (any case) occurs in it |
| Formatter.SplitLinesNoBoundary | Ultimate_Code_Finisher.py:155 | no piece of `splitlines` holds a line boundary |
| Formatter.KeepNonBlank | Ultimate_Code_Finisher.py:155 | the kept lines are lines of the input that are not blank |
| Formatter.TidyXmlLines | Ultimate_Code_Finisher.py:151-155 | the tidied XML consists of non-blank lines with no line boundary, joined by '\n' |
| Formatter.FormatInternalBasic | Ultimate_Code_Finisher.py:129-163 | failure returns the input unchanged; only ".json" and ".xml" can succeed; JSON succeeds exactly when the library does and then returns the library's text; XML that is empty after declaration removal gives ("", true), and otherwise succeeds exactly when the library parses the stripped text and then returns the tidied library output |
| Formatter.FormatXmlClean | Ultimate_Code_Finisher.py:143-156 | successful XML formatting yields no blank line and no stray line boundary |
| Formatter.DeclarationOnly | Ultimate_Code_Finisher.py:146-147 | a file holding only an XML declaration formats to "" with success, whatever the library does |
| Pipeline.ProcessText | Ultimate_Code_Finisher.py:571-592 | the output's line endings are in the target form (default "CRLF"), and apart from line endings it is the cleaned text |
| Pipeline.ProcessTextOnlyEol | Ultimate_Code_Finisher.py:571-592 | with both options off and no formatter, only the line endings change |
| Pipeline.UnhandledIgnoresComments | Ultimate_Code_Finisher.py:575-576 | for an extension without a comment family, the comment option makes no difference |
| Pipeline.ProcessTextCollapsed | Ultimate_Code_Finisher.py:579-590 | with consolidation on and no formatter, the output's LF form has no three '\n' in a row and nothing blank at either end |
| Pipeline.CollapseAfterEol | Ultimate_Code_Finisher.py:114-127 | consolidating the converted form of consolidated text gives that text back |
| Pipeline.ProcessTextIdempotent | Ultimate_Code_Finisher.py:571-592 | without comment removal and without a formatter, processing the output again changes nothing |
| Pipeline.ProcessTextNotIdempotent | Ultimate_Code_Finisher.py:82-88 | with comment removal on, a `.js` text is changed by a first run and changed again by a second run over the first run's output |
| Pipeline.ProcessSingleFile | Ultimate_Code_Finisher.py:543-598 | an unreadable file gives (None, None); a readable one gives the text read and a processed text |
| Binary.NonTextCount | Ultimate_Code_Finisher.py:50 | the count of non-text bytes is at most the chunk length |
| Binary.Chunk | Ultimate_Code_Finisher.py:45 | at most 1024 bytes are looked at |
| Binary.UnreadableOrEmptyIsText | Ultimate_Code_Finisher.py:41-53 | an unreadable or empty file is not binary |
| Binary.NulMeansBinary | Ultimate_Code_Finisher.py:47 | a NUL byte among the first 1024 bytes makes the file binary |
| Binary.RatioTest | Ultimate_Code_Finisher.py:49-51 | without NUL the verdict is exactly "non-text bytes / chunk length > 0.3" |
| Binary.OnlyChunkMatters | Ultimate_Code_Finisher.py:45 | bytes after the first 1024 never change the verdict |
| Binary.AllTextIsText | Ultimate_Code_Finisher.py:49-51 | a file made only of text bytes is not binary |
| Glob.PlainMatchesItself | Ultimate_Code_Finisher.py:480 | a pattern without `*`, `?` or `[` matches exactly the name equal to it |
| Glob.StarMatches | Ultimate_Code_Finisher.py:480 | a leading `*` matches exactly when the rest matches some suffix of the name |
| Glob.StarSuffix | Ultimate_Code_Finisher.py:480 | `*` followed by plain text matches exactly the names ending with that text |
| Glob.NegatedSet | Ultimate_Code_Finisher.py:480 | `[!...]` matches a character exactly when `[...]` does not |
| Glob.UnclosedBracketIsLiteral | Ultimate_Code_Finisher.py:480 | a '[' that no ']' closes is an ordinary character |
| Glob.ReversedRangeIsEmpty | Ultimate_Code_Finisher.py:480 | a reversed range matches nothing |
| Glob.MinifiedScriptExamples | Ultimate_Code_Finisher.py:38 | "*.min.js" matches "app.min.js" but neither "app.min.js.bak" nor "app.js" |
| Glob.BackupOfMinifiedScript | Ultimate_Code_Finisher.py:34 | "*.bak" matches "keep.min.js.bak" |
| Discovery.NameExt | Ultimate_Code_Finisher.py:474 | the extension is empty or a suffix of the name that starts with its only '.' |
| Discovery.ExtOfJoin | Ultimate_Code_Finisher.py:473-474 | the extension of a joined path is the file name's |
| Discovery.JoinPathExamples | Ultimate_Code_Finisher.py:467-473 | joining at the root "/" adds no second '/', and below an ordinary directory each component is separated by one '/' |
| Discovery.DotFileHasNoExt | Ultimate_Code_Finisher.py:474 | ".py" as a whole name has no extension |
| Discovery.ExtIsLowered | Ultimate_Code_Finisher.py:474 | "main.PY" has extension ".py" |
| Discovery.UnprocessedCStyleExtensions | Ultimate_Code_Finisher.py:28-31 | ".hpp" and ".m" are not supported extensions |
| Discovery.DropSeps | Ultimate_Code_Finisher.py:464 | a directory token holds no '/' and no '\' |
| Discovery.DirNames | Ultimate_Code_Finisher.py:464 | no directory token holds a '/' |
| Discovery.FileGlobs | Ultimate_Code_Finisher.py:465 | the globs are the patterns that do not end in a separator |
| Discovery.SplitIgnoreCounts | Ultimate_Code_Finisher.py:464-465 | every pattern goes to exactly one list: a token if it ends in '/' or '\', a glob otherwise |
| Discovery.SelectAppend | Ultimate_Code_Finisher.py:478-486 | selecting from two walk segments is selecting from each in turn |
| Discovery.SelectSound | Ultimate_Code_Finisher.py:478-486 | only walked files that pass all four tests are selected |
| Discovery.SelectComplete | Ultimate_Code_Finisher.py:478-486 | every walked file that passes all four tests is selected |
| Discovery.OutsideMembers | Ultimate_Code_Finisher.py:467-469 | the files outside the pruned directories are exactly the listed files below no pruned directory |
| Discovery.WalkOutsidePruned | Ultimate_Code_Finisher.py:467-469 | no walked file lies below a pruned directory |
| Discovery.WalkUnder | Ultimate_Code_Finisher.py:476 | a file reached through some directories carries them as the prefix of its path |
| Discovery.WalkIsPrunedFullWalk | Ultimate_Code_Finisher.py:467-469 | pruning during the walk gives, in order, the files of the full walk that lie below no pruned directory |
| Discovery.JobExtSupported | Ultimate_Code_Finisher.py:473-485 | the path each job is processed under still has a supported extension |
| Discovery.WalkDir | Ultimate_Code_Finisher.py:467-486 | the walk returns the selected files of the pruned top-down walk in order, and counts every file it lists |
| Discovery.WalkSubdirsOf | Ultimate_Code_Finisher.py:467-469 | descending into the unpruned sub-directories in order yields their selected files and file counts |
| Discovery.VisitSubdir | Ultimate_Code_Finisher.py:469 | a pruned sub-directory adds nothing; an unpruned one adds its own walk |
| Discovery.ScanFiles | Ultimate_Code_Finisher.py:471-486 | the file loop of one directory counts each file and keeps the candidates in order |
| Discovery.Discover | Ultimate_Code_Finisher.py:461-501 | a directory gives its selected files and the number of files listed; a single file is processed exactly when its extension is supported and it is not binary, and is otherwise an invalid selection; anything else gives nothing |
| Discovery.DiscoveredFiles | Ultimate_Code_Finisher.py:461-486 | a directory run processes, in walk order, the candidates of the whole tree that lie below no ignored directory, so nothing under e.g. "node_modules/" at any depth; a file is processed if and only if it is in the full tree and passes all four tests |
| Cleaner.BaseNameIsLastComponent | Ultimate_Code_Finisher.py:518 | the base name is a suffix of the path without '/' |
| Cleaner.ChangedMapsAgree | Ultimate_Code_Finisher.py:522-526 | the two change maps have the same files, and each holds differing texts |
| Cleaner.ChangedAreJobs | Ultimate_Code_Finisher.py:517-526 | every changed file is a job that changed, and the maps hold that job's texts |
| Cleaner.ChangedHoldsJobs | Ultimate_Code_Finisher.py:517-526 | conversely, every job that changed has its path in both maps |
| Cleaner.LastChangeWins | Ultimate_Code_Finisher.py:522-526 | a changed job with no later changed job for the same path has its own read and processed texts in the maps |
| Cleaner.ChangedNoneIff | Ultimate_Code_Finisher.py:526-541 | the maps are empty exactly when the reported count is zero |
| Cleaner.LfTextChangesUnderCrlf | Ultimate_Code_Finisher.py:552-563 | a text read with newline translation has no '\r', so with CRLF chosen every such text with a line break is reported changed |
| Cleaner.ProcessingChange | Ultimate_Code_Finisher.py:520-526 | an unreadable file never changes; a readable one changes exactly when processing alters its text |
| Cleaner.ChangedInTargetForm | Ultimate_Code_Finisher.py:589-590 | every text a run leaves to be saved has its line endings in the chosen form |
| Cleaner.CountIsListboxEntries | Ultimate_Code_Finisher.py:529-541 | the count reported at the end equals the number of list entries queued |
| Cleaner.OneStepPerJob | Ultimate_Code_Finisher.py:517-533 | the batch advances the progress bar once per file, up to the announced maximum |
| Cleaner.CommitKeepsPairs | Ultimate_Code_Finisher.py:537-539 | after the commit every original still has a different processed text |
| Cleaner.WrittenVerbatim | Ultimate_Code_Finisher.py:627-647 | each saved file holds its cached text verbatim; every other file is untouched |
| Cleaner.SaveAllSucceeds | Ultimate_Code_Finisher.py:620-657 | saving only cached paths with no failing write saves them all and raises no alert |
| Cleaner.App.constructor | Ultimate_Code_Finisher.py:176-177 | both caches start empty |
| Cleaner.App.ButtonStates | Ultimate_Code_Finisher.py:721-731 | save is enabled exactly when something is cached to save, and undo exactly when the last run changed something, unless forced off; in a consistent state undo is never offered without save |
| Cleaner.App.ContentFromCache | Ultimate_Code_Finisher.py:746-753 | no or empty path gives nothing; a cached path gives exactly its cached texts, an uncached one nothing; in a valid state an original comes with a different processed text |
| Cleaner.App.ResetCaches | Ultimate_Code_Finisher.py:706-712 | both caches are emptied and both buttons are then off |
| Cleaner.App.Undo | Ultimate_Code_Finisher.py:659-679 | nothing changes without originals or confirmation; otherwise the processed cache becomes exactly the originals and the originals are emptied, so a second undo does nothing |
| Cleaner.App.ProcessFile | Ultimate_Code_Finisher.py:561-569 | an unreadable file raises the "Read Error" alert; the texts are the step's |
| Cleaner.App.VisitFile | Ultimate_Code_Finisher.py:517-533 | one file queues its progress messages and, if it changed, its list entry, and records it in both local maps |
| Cleaner.App.RunJobs | Ultimate_Code_Finisher.py:511-533 | the loop queues each file's messages in order and leaves the caches alone; the local maps end up holding exactly the changed files |
| Cleaner.App.ProcessBatch | Ultimate_Code_Finisher.py:510-541 | the batch queues the maximum, every file's messages and the final count; the originals cache is replaced by this run's changes, the processed cache is merged with them, and the caches stay consistent; every changed file is in both caches, and undo is offered exactly when the count is not zero |
| Cleaner.App.Worker | Ultimate_Code_Finisher.py:456-541 | an invalid selection and an empty selection each queue an alert and a zero count and leave the caches alone; otherwise the batch runs on the discovered files |
| Cleaner.App.StartProcessing | Ultimate_Code_Finisher.py:424-456 | the caches hold exactly this run's changes: those of the discovered files for a folder, of the one file for a supported text file, and none for a missing target or a rejected file; they stay consistent |
| Cleaner.App.SaveFiles | Ultimate_Code_Finisher.py:620-657 | saved + errors is the number of paths; each path with a cached text whose write succeeds is written verbatim; a missing text or a failed write is an error |

## Left out

- The Qt interface is not modelled: windows, menus, dialogs, the preview
  panes, the queue-polling timer and the loading animation. The
  confirmation dialogs of save and undo become a `confirmed` flag, or the
  call itself.
- Diff highlighting (`highlight_differences`) is left out. It depends on
  `difflib`'s matching heuristic and does not change what is saved.
- Threading, the queue and the 5 ms sleep are left out. The worker is a
  sequential method, and the queue is the `events` log in queue order.
- Real file I/O is not modelled.
  - Reading becomes a given outcome per file: the bytes for the binary
    test, and the decoded text or `None`.
  - The encoding fallback chain (lines 549-569) is not modelled. Only its
    result matters.
  - Writing becomes a `disk` map and a `writeOk` oracle.
  - `os.makedirs` is left out.
- `os.walk` is a tree of ordered listings. A listing error, symbolic links,
  and the "Directory Error" path (lines 488-492) are left out.
- Paths use '/' as their only separator, and `os.path.join` follows POSIX
  (`Discovery.PathJoin`). On Windows, `os.path.join`,
  `splitext` and `fnmatch` case folding would differ.
- The JSON and XML libraries are uninterpreted function parameters. Their
  exceptions are `None`.
- The catch-all exception handlers are left out: the comment-regex handler
  (lines 110-112), the "Processing Error" handler (lines 594-598) and the
  "Save Error" exception text. No modelled step raises. A failed write is
  the `writeOk` oracle.
- Message texts and display paths are left out. Events carry their kind,
  counts, title and path, not their message strings. The list's display
  path (lines 851-857) is not modelled.
- `save_all_changes_action` (lines 600-618) is left out. It is a dialog
  around `App.SaveFiles` over the processed cache's keys, which
  `Cleaner.SaveAllSucceeds` covers.
- The "No Selection" warning of `start_processing_action` is left out: it
  is a dialog.
- Of `reset_ui_state`, only the two caches are modelled; the rest is
  widget state.
- `Discovery.ExtIsLowered`: lower-casing is ASCII-only. This is exact for
  every extension the code compares against, but not for Python's
  `str.lower` on arbitrary text.
- One `fnmatch` edge case is not modelled. `fnmatch.translate` drops
  reversed ranges from a set, and if what is left then starts with '!',
  it reads the set as negated (or, for a lone '!', as any character).
  For example, "[z-a!x]" would become "any character but x". The model
  treats that '!' as an ordinary member. Ordinary reversed ranges are
  modelled: they match nothing.
- `Pipeline.ProcessTextIdempotent`: idempotence is proved only without
  comment removal and without a formatter. With comment removal on, the
  C-style rules are not idempotent (`Pipeline.ProcessTextNotIdempotent`);
  the PHP family runs the same two rules first. Nothing is known about
  whether the libraries are idempotent.
- `Cleaner.App.Worker`: for a directory target it states the batch over
  `Processing(opts, libs)`. The link from the batch to the text functions
  is `Cleaner.ProcessingChange`.
- Dictionary key order of the caches is not modelled; they are maps.
- Files are read in text mode with newline translation (lines 552 and
  563), so the text read holds no '\r'. `FileEntry.text` and `Job.text`
  stand for that translated text; the datatypes do not enforce the
  absence of '\r'. `Cleaner.LfTextChangesUnderCrlf` states the
  consequence for the default CRLF target. Saving after an undo writes
  this translated text, not the file's original bytes.
- `Cleaner.WrittenVerbatim`: a failed write is modelled as failing before
  anything reaches the file, so the file keeps its old content. In the
  source, `open(..., 'w')` (line 644) truncates the file before the write
  (line 645), so a failure after the open leaves it empty or partly
  written.
- `Cleaner.App.SaveFiles`: the same holds for the `disk` state it leaves
  after a failed write.
- `Cleaner.App.ContentFromCache`: called without a path, the source falls
  back to the path of the selected list item (line 749). The list
  selection is not modelled; `None` stands for "no item selected".
