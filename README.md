# MarkdownPlus in Dafny

A model of the core of MarkdownPlus, a Kirby CMS plugin that extends the
cebe `MarkdownExtra` parser with extra block types, extra inline markers and
a pre- and post-processing pipeline. The model covers:

- **Block types.** For AsciiTables (`|===`), DivBlocks (`:::`, `@@@`, …),
  tabulators (`>>`), definition lists and "bang" ordered lists (`3!.`) it
  models the `identify*` test on a line, the `consume*` walk over the line
  array and the `render*` step. The parent parser's `compile` and
  `compileParagraph` are function parameters (`Host.Engine`). The static
  table, image and tabulator counters are fields of the class
  `Compiler.MarkdownPlus`, whose methods bump them.
- **Inline parsers.** The eight delimited markers (`~~`, `~`, `^^`, `^`, `==`,
  `++`, `__`, double backtick) plus images, links and icons. Each parser
  returns the element it read and the number of characters consumed.
- **Pre- and post-processing rewrites.** These are backslash shielding,
  the cebe list fix-up, `{: … }` attribute injection and ` BR ` line breaks.
- **`MdPlusHelper` helpers.**
  - The `{: … }` argument language (`parseInlineBlockArguments`,
    `_parseMetaCmds`, `_assembleHtmlAttrs`).
  - The base64 shield codec (`shieldStr`, `unshieldStr`).
  - The nesting-aware matcher (`strPosMatching` and its helpers).
  - The comment strippers.
  - Small text and path utilities.
- **`Permission::evaluate`.** The visitor facts are inputs.

Strings are `seq<char>`, one character standing for one byte of the PHP
string. Each regular expression is written out as an explicit scan. PCRE's
`.` never matches a line feed, and `x`-mode spaces are ignored. The
visitor, the active language, the clock and the permission oracle are a
parameter of type `Attributes.Env`.

Where a loop of the source could fail to end, or a branch does what its
authors evidently did not intend, the model keeps an as-written member next
to a corrected one (see "## Findings"). Which one the rest of the model uses
differs:

- The argument reader (`Attributes.ParseInlineBlockArguments`), the comment
  strippers (`Comments.RemoveCStyleComments`, `Matching.RemoveHtmlComments`),
  the tag lists (`TagLists`) and the compiler's embedded DivBlocks use the
  corrected definitions.
- `Inject.CatchAndInjectTagAttributes` keeps the as-written reading: a
  leading instruction applies to the first line after it only, and extra
  attributes are keyed by their position. The definition-list rendering
  (`DefLists.RenderDefinitionList`) calls it and inherits that reading.
- `Escapes.HandleShieldedCharacters` keeps the as-written loop, which stops
  at a backslash at position 0 and at a shielded `0`.
- `DivBlocks` and `DefLists.IdentifyDefinitionList` take the reading as a
  parameter, and lemmas compare the two.

Modules, one per component: `PhpStrings` (the PHP string functions used),
`Wrappers`, `LazyMatch`, `Base64`, `Shield`, `Attributes`, `Permission`,
`TagLists`, `Tables`, `TableRender`, `DivBlocks`, `Tabulator`, `DefLists`,
`OrderedLists`, `Inline`, `Images`, `Links`, `Icons`, `Escapes`,
`CebeFixes`, `Inject`, `Matching`, `Comments`, `TextUtil`, `Paths`, `Host`
and `Compiler`.

## Model

| member | source | states |
|---|---|---|
| Permission.TruthyLower | src/Permission.php:35-40 | lowercasing a query keeps its PHP truthiness, so the emptiness test may come before or after `strtolower` |
| Permission.EvaluateWords | src/Permission.php:35-61 | an empty query, `nobody` and `noone` deny; `anybody` and `anyone` grant, whatever the visitor; a query holding `localhost` grants a local visitor without debug override when `allowOnLocalhost` is set |
| Permission.Evaluate | src/Permission.php:33-97 | `evaluate`: the fixed words, then the local-host shortcut, then the user rule; `EvaluateWords`, `ByRule` and the query lemmas state what it grants |
| Permission.ByRule | src/Permission.php:57-96 | past the fixed words and the local-host shortcut, the user rule alone decides |
| Permission.LoginQueries | src/Permission.php:75-80 | `notloggedin` and `anon` grant exactly the visitors not logged in; any other query holding `loggedin` grants exactly the logged-in ones, so the `m[1] === 'loggedin'` test is never reached |
| Permission.KeyArg | src/Permission.php:81-88 | the word `/^key(\w+)/` captures: the non-empty run of word characters right after the key, ended by the end of the query or a non-word character |
| Permission.UserQuery | src/Permission.php:81-86 | `user=x` grants a logged-in user named `x` and nobody else; `user=anon` grants exactly the visitors not logged in |
| Permission.RoleQuery | src/Permission.php:88-91 | `role=x` grants a logged-in user whose role is `x` and nobody else |
| Permission.ImplicitQuery | src/Permission.php:93-95 | a plain word grants a logged-in user whose name, e-mail or role it is, and nobody else |
| Permission.AnonUserQuery | src/Permission.php:81-86 | `user=anon` grants a remote visitor who is not logged in |
| Permission.AnonOtherQuery | src/Permission.php:75-96 | any other query grants such a visitor only when it is one of the anonymous words |
| Permission.AnonymousVisitor | src/Permission.php:33-97 | a remote visitor nobody is logged in as is granted by the anonymous queries only |
| Base64.ToBytes | src/MdPlusHelper.php:214 | the characters as bytes; a byte string is left as it is |
| Base64.Digit | src/MdPlusHelper.php:214 | the alphabet character of a six-bit value, which decodes back to that value |
| Base64.Sextets | src/MdPlusHelper.php:214 | four six-bit values per group of three bytes, two or three for a final short group (RFC 4648 section 4) |
| Base64.DecodeValues | src/MdPlusHelper.php:242 | four values join into three bytes; a final pair or triple yields one or two bytes |
| Base64.GroupBits | src/MdPlusHelper.php:214-242 | splitting three bytes into four six-bit values and joining them again gives the bytes back |
| Base64.DecodeSextets | src/MdPlusHelper.php:214-242 | joining the six-bit values of an encoding gives the bytes back |
| Base64.DecodeUnpadded | src/MdPlusHelper.php:214-242 | decoding undoes encoding when the padding is left off |
| Base64.StripPadding | src/MdPlusHelper.php:214 | `rtrim(…, '=')` removes exactly the padding of section 3.2 of RFC 4648 |
| Base64.RoundTrip | src/MdPlusHelper.php:214-249 | `base64_decode(rtrim(base64_encode($s), '='))` is `$s` for every byte string |
| Shield.TagAt | src/MdPlusHelper.php:239-240 | the first alternative of the tag group that occurs at the position, and no earlier one does |
| Shield.CloseFrom | src/MdPlusHelper.php:240 | the lazy `(.*?)` stops at the first closing tag on the line and never crosses a line feed |
| Shield.Hits | src/MdPlusHelper.php:240-247 | `preg_match_all`: matches left to right, none overlapping, each resuming where the last one ended |
| Shield.EscapedTagAt | src/MdPlusHelper.php:239 | a match of `(&lt;\|<)(/?)(names)(&gt;\|>)` at the head is replaced by `<$2$3>` |
| Shield.ShieldText | src/MdPlusHelper.php:211-222 | a shield starts with `<` and holds no `&` |
| Shield.ShieldStr | src/MdPlusHelper.php:211-222 | the base64 text without padding between the tags of the kind the options pick; `ShieldText`, `EncodedIsPlain` and `LiteralRoundTrip` state its properties |
| Shield.UnshieldStr | src/MdPlusHelper.php:232-255 | literal shields decoded when asked, then md shields compiled; `LiteralRoundTrip`, `LiteralKeptWhenOff` and `MdAlwaysCompiled` state what it gives |
| Shield.EncodedIsPlain | src/MdPlusHelper.php:214 | the base64 payload holds neither `<`, `&` nor a line feed |
| Shield.NoLtUnchanged | src/MdPlusHelper.php:234-236 | a text without `<` is returned as it is |
| Shield.LiteralRoundTrip | src/MdPlusHelper.php:211-255 | a block or inline shield of a text holding no md shield unshields back to that text |
| Shield.LiteralKeptWhenOff | src/MdPlusHelper.php:238-246 | with `unshieldLiteral === false`, a block or inline shield stays as it is |
| Shield.MdAlwaysCompiled | src/MdPlusHelper.php:247-253 | an md shield is replaced by the compiled decoded text whether or not literal unshielding is on |
| Shield.BlockNotInline | src/MdPlusHelper.php:215-221 | the options' first character picks one kind; the tags of a block shield are not those of an inline shield |
| Shield.EscapedRoundTrip | src/MdPlusHelper.php:239-244 | a block shield whose opening tag was HTML-escaped on the way is still restored |
| Shield.EscapedKept | src/MdPlusHelper.php:234-236 | a block shield with both tags escaped holds no `<` and is returned as it is |
| Shield.NormaliseNoEntity | src/MdPlusHelper.php:239 | the tag normalisation leaves a text without `&` alone |
| Attributes.QuotedValue | src/MdPlusHelper.php:312-313 | `/^(['"])(.*?)\1(.*)/` on one line: the value up to the next same quote, and what follows it |
| Attributes.KeyRest | src/MdPlusHelper.php:310-322 | the text of the line after `key:` or `key=` and the spaces after it: it starts at the first non-space and ends at the line feed or the end |
| Attributes.ValueScan | src/MdPlusHelper.php:310-330 | a quoted value gives its inner text (quotes kept for an attribute) and the text after the closing quote; otherwise the longest run of non-space non-`;` (style) or word (attribute) characters and the text after it |
| Attributes.LetterScan | src/MdPlusHelper.php:307-338 | a `key:` is the style declaration and a `key=` the attribute whose value `ValueScan` reads after the key, with no token exactly when that value is missing; any other letter run is a word of text and the rest of its line |
| Attributes.MetaToken | src/MdPlusHelper.php:415-421 | the `!` command lowercased; after its optional `=`/`:` and white space, the argument is the run of non-spaces and the rest is what follows it and its spaces (the rest unchanged when no argument is read) |
| Attributes.ArgSplit | src/MdPlusHelper.php:418-420 | `/^(\S+)\s*(.*)/`: the argument is the non-space prefix, ended by the end or a space, and the rest starts after the spaces following it; no argument leaves the text as it is |
| Attributes.TagToken | src/MdPlusHelper.php:342-347 | `<tag`: the longest word run after `<` and the rest of its line; no tag (and the text unchanged) exactly when no word character follows; `rtrim($tag,'>')` removes nothing from a word |
| Attributes.NameToken | src/MdPlusHelper.php:348-358 | `#id` and `.class`: the longest `[\w-]` run after the sign and the rest of its line; nothing (and the text unchanged) exactly when the run is empty |
| Attributes.QuoteToken | src/MdPlusHelper.php:362-376 | quoted text up to the first closing quote; without one, nothing is read |
| Attributes.PunctToken | src/MdPlusHelper.php:340-377 | the token a non-letter starts: `<` reads a tag, `#` and `.` a name, `!` a command, a quote quoted text; a character matching no branch is skipped alone |
| Attributes.QuotedTextAsWritten | src/MdPlusHelper.php:364 | `substr($str, 0, $p-1)` loses the character before the closing quote |
| Attributes.QuotedText | src/MdPlusHelper.php:364 | the quoted text up to the closing quote, nothing lost |
| Attributes.NextToken | src/MdPlusHelper.php:304-378 | one turn of the reading loop; the text left is always shorter, so the corrected loop ends |
| Attributes.Hide | src/MdPlusHelper.php:456 | `display:none;` is appended to the style, after a space when there is one |
| Attributes.ApplyMeta | src/MdPlusHelper.php:413-476 | a `!` command on the arguments so far: `literal` and `inline` set their flag; `user`, `role`, `visible`, `visibility` keep the arguments when the oracle grants and set tag `skip` otherwise; `lang` sets the language, skips when it is not the active one, and is the source's error without languages; `off` hides; `showtill`/`showfrom` schedule; an unknown command changes nothing |
| Attributes.Gate | src/MdPlusHelper.php:425-441 | a granted gate leaves the arguments as they are; a refused one sets tag `skip` and changes nothing else |
| Attributes.LangCmd | src/MdPlusHelper.php:446-453 | `!lang` fails without an active language, else records the language and skips unless it is the active one |
| Attributes.Schedule | src/MdPlusHelper.php:458-473 | an expired `showtill` or a future `showfrom` sets language `none`, tag `skip` and hides the element, changing nothing else; otherwise the arguments are unchanged |
| Attributes.VisibleNeverHides | src/MdPlusHelper.php:437-456 | `visible` is caught by the permission branch, so the `off`-or-`visible` branch never sees it |
| Attributes.RoleHidesFromAnonymous | src/MdPlusHelper.php:431-435 | `!role=x` sets tag `skip` for a remote visitor nobody is logged in as, whatever `x` |
| Attributes.VisibleWords | src/MdPlusHelper.php:437-441 | `!visible=anybody` keeps the element; `!visible=nobody` and an empty `!visible` set tag `skip` |
| Attributes.ScheduleHides | src/MdPlusHelper.php:458-472 | `showtill` hides exactly when its time is past and `showfrom` exactly when it is still to come; otherwise the arguments are unchanged |
| Attributes.AssembleHtmlAttrs | src/MdPlusHelper.php:487-508 | `id`, `class`, `style`, then the misc attributes, each only when non-empty, and the array of the same entries |
| Attributes.PositionalText | src/MdPlusHelper.php:503-505 | the misc attributes are written as `' ' . implode(' ', $attr)` |
| Attributes.Finish | src/MdPlusHelper.php:379-400 | the style is trimmed, unset flags become null and the attribute text is assembled |
| Attributes.ParseInlineBlockArguments | src/MdPlusHelper.php:295-401 | the loop reads the argument string token by token and returns what the fold of the tokens gives |
| Attributes.ReadToken | src/MdPlusHelper.php:304-306 | the text is left-trimmed and its head token taken off, the rest read after it |
| Attributes.ParseArgsFields | src/MdPlusHelper.php:295-401 | the parse fails only for `!lang` without an active language; otherwise each field is what its tokens give |
| Attributes.RunFails | src/MdPlusHelper.php:446-450 | performing tokens fails exactly when a `!lang` command meets no active language |
| Attributes.RunId | src/MdPlusHelper.php:348-352 | the last `#id` wins; without one the id stays |
| Attributes.RunClasses | src/MdPlusHelper.php:353-358 | classes are joined with single spaces, in order |
| Attributes.RunStyle | src/MdPlusHelper.php:309-318 | without meta commands the style is the `k:v; ` declarations, in order |
| Attributes.RunAttr | src/MdPlusHelper.php:320-330 | the misc attributes are those of the `key=value` tokens, in order, the value quoted as written or in `'` |
| Attributes.RunText | src/MdPlusHelper.php:331-375 | text is the words and quoted strings joined by single spaces, in order |
| Attributes.RunFlags | src/MdPlusHelper.php:422-444 | `!literal` and `!inline` anywhere set their flag and nothing clears it |
| Attributes.StallsIff | src/MdPlusHelper.php:309-330 | a key stalls exactly when no value can be read after its separator |
| Attributes.AsWrittenShrinks | src/MdPlusHelper.php:304-378 | a turn of the loop as written that does not stall consumes something |
| Attributes.StepAgrees | src/MdPlusHelper.php:304-378 | a turn that neither stalls nor reads a quote is the same as written and mended |
| Attributes.LexAgrees | src/MdPlusHelper.php:295-401 | a string the loop as written reads through without quoted text is read the same as written and mended |
| Attributes.StallNeverEnds | src/MdPlusHelper.php:304-330 | a stalled key stops the loop as written from ever ending |
| Attributes.StallExamples | src/MdPlusHelper.php:310-330 | `color:`, `k=` and `k='v` stall |
| Attributes.QuoteAsWritten | src/MdPlusHelper.php:362-376 | the character before the closing quote is lost as written and kept when mended |
| Attributes.QuoteExample | src/MdPlusHelper.php:370-375 | `'ab'` yields the text `a` as written and `ab` mended |
| TagLists.CommaListHas | src/MarkdownPlus.php:23-24 | `,t,` occurs in a comma-terminated list exactly when `t` is one of its words after the first |
| TagLists.InlineTagAsWrittenMisses | src/MarkdownPlus.php:23-24 | the `",$tag,"` search never finds `a` (no comma before it) nor `output` (stuck to a stray quote) |
| TagLists.InlineTagIff | src/MarkdownPlus.php:367 | the intended search finds a comma-free tag exactly when it is one of the inline elements |
| TagLists.SingletonAsWrittenMisreads | src/MarkdownPlus.php:21 | the substring test counts `p` as a singleton, being part of `input` |
| TagLists.SingletonIff | src/MarkdownPlus.php:21 | the intended test holds exactly for the twelve singleton elements |
| TagLists.ClosingTagAsWrittenOfP | src/MarkdownPlus.php:456 | as written a `p` element loses its closing tag |
| TagLists.ClosingTagIff | src/MarkdownPlus.php:456-497 | only the singleton elements go without a closing tag |
| Tables.FenceArgsOf | src/MarkdownPlus.php:134-137 | the arguments written after `\|===` and its spaces are read back |
| Tables.ConsumeAsciiTable | src/MarkdownPlus.php:127-148 | the lines strictly between the fence and the next `\|===` line are the content; the index returned is that line's, or the line count |
| Tables.SplitCellsOf | src/MarkdownPlus.php:248 | a line is split at each ` \|`: the piece before it comes back and the split goes on after it |
| Tables.SplitCellsNone | src/MarkdownPlus.php:248 | a text without ` \|` is one piece |
| Tables.SpanPieceCells | src/MarkdownPlus.php:250-257 | a `>`-led piece is cut at every `\|`; joined with `\|` its cells give the piece back |
| Tables.UnescapeEscaped | src/MarkdownPlus.php:260 | reading a cell undoes the escaping of its bars |
| Tables.RuleArgsBraced | src/MarkdownPlus.php:233-238 | a `\|---` rule with `{:a}` hands `a` to the argument parser |
| Tables.TableStep | src/MarkdownPlus.php:229-270 | one line: a rule opens a row with its attributes, a `\|` line appends cells, any other line continues the last cell |
| Tables.CellStep | src/MarkdownPlus.php:246-269 | a continuation line with no cell open in the row is the source's error |
| Tables.ParseTableSource | src/MarkdownPlus.php:219-276 | the loop over the lines builds the table the steps give and the widest column index seen |
| Tables.ParseTable | src/MarkdownPlus.php:219-276 | the table the steps give, with the widest row's cell count (at least one) and a row count; `ParsedShape` states those counts |
| Tables.TableTurn | src/MarkdownPlus.php:229-270 | one line of the loop is one step on the table so far |
| Tables.RuleTurn | src/MarkdownPlus.php:231-244 | a rule adds an empty row with the attributes its arguments give |
| Tables.CellTurn | src/MarkdownPlus.php:246-269 | a cell line or a continuation line, as the step says |
| Tables.AppendCells | src/MarkdownPlus.php:249-262 | each piece's cells are appended in order |
| Tables.AppendPiece | src/MarkdownPlus.php:250-261 | the parts of a `>`-led piece one by one, or the piece unescaped as one cell |
| Tables.StepWidest | src/MarkdownPlus.php:231-270 | a rule adds an empty row; any other line keeps the row count and leaves the last row with a cell |
| Tables.ErrSticks | src/MarkdownPlus.php:265-267 | once a line fails the table fails with its message |
| Tables.TableRows | src/MarkdownPlus.php:241-273 | the table has one row more than it has rules |
| Tables.ParsedShape | src/MarkdownPlus.php:270-275 | `nRows` is the rules plus one, `nCols` the widest row's cell count, at least one |
| Tables.FirstLineNeedsBar | src/MarkdownPlus.php:264-267 | a first line that neither starts with `\|` nor is a rule is an error |
| Tables.LineAfterRuleNeedsBar | src/MarkdownPlus.php:242-267 | the same holds right after a rule |
| Tables.UnwrapOne | src/MarkdownPlus.php:286 | `{:a}` in the caption is read as `a` |
| Tables.UnwrapPlain | src/MarkdownPlus.php:286 | a caption without `{` is left alone |
| Tables.StripOne | src/MarkdownPlus.php:295 | a quoted class list is dropped from the attribute text |
| Tables.StripPlain | src/MarkdownPlus.php:295 | attribute text without `=` keeps all it has |
| Tables.SuppressedIff | src/MarkdownPlus.php:287-291 | a table is suppressed exactly when its caption parses to tag `skip` or to a language that is not the active one |
| Tables.PlainTableHead | src/MarkdownPlus.php:304-306 | an empty caption gives the default id `mdp-table-N` and classes `mdp-table mdp-table-N` |
| Tables.CaptionTableHead | src/MarkdownPlus.php:287-303 | a truthy caption gives the parsed caption's text and attributes |
| Tables.CaptionHeadShape | src/MarkdownPlus.php:294-303 | the numbered classes come first in the class list, the parsed ones after, and the numbered id first unless the caption named one |
| TableRender.RowTds | src/MarkdownPlus.php:189-204 | the cells written for a row and the span the next one gets: a `>` cell writes nothing and widens the next |
| TableRender.RowCover | src/MarkdownPlus.php:189-204 | the written cells tile the columns up to the last non-`>` cell; the pending span counts the `>` cells after it |
| TableRender.HeaderRow | src/MarkdownPlus.php:170-182 | a header row is written exactly when the first cell starts with `#`, without the `#`; the body then starts at row 1 |
| TableRender.RenderShape | src/MarkdownPlus.php:155-212 | a table renders as nothing exactly when its caption suppresses it; a shown one opens with its attributes and caption and closes its body |
| TableRender.ShownShape | src/MarkdownPlus.php:167-211 | a shown table is never empty |
| TableRender.RenderTable | src/MarkdownPlus.php:155-212 | the table parsed and rendered with its attributes; `RenderShape` and `ShownShape` state what it writes |
| Compiler.MarkdownPlus.constructor | src/MarkdownPlus.php:30-32 | the table and tabulator counters start at 1, the image counter at 0 |
| Compiler.MarkdownPlus.PrepareTableAttributes | src/MarkdownPlus.php:282-308 | takes the next table number, bumps only that counter, and returns the caption and attributes for that number |
| Compiler.MarkdownPlus.RenderAsciiTable | src/MarkdownPlus.php:155-212 | the table as rendered; a table takes a number only when its source parses |
| Compiler.MarkdownPlus.RenderShown | src/MarkdownPlus.php:167-211 | opening tag and caption, the header when the first cell starts with `#`, the body rows, closing tags |
| Compiler.MarkdownPlus.RenderHeader | src/MarkdownPlus.php:175-181 | one `<th>` per column, numbered from 1 |
| Compiler.MarkdownPlus.RenderBody | src/MarkdownPlus.php:186-206 | the body rows in order, each with its row attributes |
| Compiler.MarkdownPlus.RenderRow | src/MarkdownPlus.php:189-204 | the colspan loop of one row gives the cells `RowTds` describes |
| Compiler.MarkdownPlus.RenderImage | src/MarkdownPlus.php:987-1027 | bumps the image counter and writes the image's HTML |
| Compiler.MarkdownPlus.ConsumeDivBlock | src/MarkdownPlus.php:336-424 | the block and the index the scan gives; an error for a line without a fence |
| Compiler.MarkdownPlus.ScanBlockLines | src/MarkdownPlus.php:384-406 | the line loop keeps the depth and content the scan function gives |
| Compiler.MarkdownPlus.CompileEmbeddedDivBlock | src/MarkdownPlus.php:431-465 | the corrected embedded-block expansion |
| Compiler.MarkdownPlus.EmbedAll | src/MarkdownPlus.php:436-463 | the line loop is the fold of `EmbedStep` over the lines |
| Compiler.MarkdownPlus.RenderTabulator | src/MarkdownPlus.php:563-588 | takes the next tabulator number and writes one wrapper per row and the widths as a shielded style |
| Compiler.MarkdownPlus.RenderTabRows | src/MarkdownPlus.php:569-583 | the row wrappers and the width declarations of all rows, in order |
| Compiler.MarkdownPlus.RenderTabRow | src/MarkdownPlus.php:570-582 | row `n`: its wrapper around its cells, the last one marked, and its width declarations |
| Compiler.MarkdownPlus.RenderTabCells | src/MarkdownPlus.php:573-581 | the cells of a row and the declarations of the columns that have a width |
| DivBlocks.IdentifyByRun | src/MarkdownPlus.php:318-328 | a line opens a DivBlock exactly when its run of markers is three to ten long and followed by spaces and more text |
| DivBlocks.IdentifyDivBlock | src/MarkdownPlus.php:318-328 | a line opens a DivBlock when its first character is a fence marker that opens it; `IdentifyByRun` states when that is |
| DivBlocks.MarkerRun | src/MarkdownPlus.php:324 | the greedy `M{3,10}` takes the run of markers, capped at ten |
| DivBlocks.TripleFrom | src/MarkdownPlus.php:353 | the unanchored `(M{3,10})` matches at the first three markers in a row |
| DivBlocks.OpeningLen | src/MarkdownPlus.php:353-363 | a line with three markers has an opening fence, the run found first |
| DivBlocks.IdentifiedOpens | src/MarkdownPlus.php:318-363 | an identified line's fence is its whole leading run of markers |
| DivBlocks.MdpScan | src/MarkdownPlus.php:384-406 | an mdp-style block collects the lines up to its first fence: a bare fence closes the block and is consumed; one with text is given back to open the next block |
| DivBlocks.BraceScan | src/MarkdownPlus.php:356-404 | a `{`-style block stays open while the depth is positive, closes on the bare fence that brings it to zero, and collects every line before it |
| DivBlocks.BraceClose | src/MarkdownPlus.php:397-401 | a bare fence at depth one ends the scan |
| DivBlocks.BraceStep | src/MarkdownPlus.php:386-405 | any other line is collected and moves the depth by its nesting effect |
| DivBlocks.TextStep | src/MarkdownPlus.php:405 | a line without the fence is collected and changes nothing else |
| DivBlocks.AssembledBlock | src/MarkdownPlus.php:366-422 | a block's fields come from its arguments; its content unshields to the collected text, literally or through the compiler |
| DivBlocks.ConsumeParts | src/MarkdownPlus.php:336-424 | consuming fails exactly when the line has no fence, its arguments fail, or an inline block's embedded blocks fail |
| DivBlocks.EmbedPlain | src/MarkdownPlus.php:436-447 | lines that open no block are copied, each with a line feed |
| DivBlocks.EmbeddedPlain | src/MarkdownPlus.php:431-465 | a text none of whose lines opens a block comes back with a line feed added |
| DivBlocks.EmbedInside | src/MarkdownPlus.php:459-461 | inside a block, lines not starting with its fence are collected without line feeds |
| DivBlocks.EmbedBlock | src/MarkdownPlus.php:449-458 | a closed block is written as one element holding its collected lines |
| DivBlocks.EmbedDrops | src/MarkdownPlus.php:436-464 | a block never closed is dropped at the end |
| DivBlocks.FencesOf | src/MarkdownPlus.php:440-442 | as written the fence is the text after the markers; corrected it is the markers |
| DivBlocks.EmbeddedAsWrittenDropsBlock | src/MarkdownPlus.php:440-449 | as written `@@@ .box`, a line and `@@@` write nothing |
| DivBlocks.EmbeddedKeepsBlock | src/MarkdownPlus.php:431-465 | corrected, the same lines write the block |
| DivBlocks.CorrectedFence | src/MarkdownPlus.php:440-449 | the corrected reader closes a fence line with arguments by its bare fence |
| DivBlocks.AsCorrected | src/MarkdownPlus.php:431-465 | a single-line block between a fence line and its bare fence is written |
| DivBlocks.RenderKeeps | src/MarkdownPlus.php:471-505 | a hidden block (`skip` or another language) renders as nothing; a shown one keeps its content |
| DivBlocks.WrappedLayout | src/MarkdownPlus.php:499-503 | the content follows the opening tag, and the closing tag follows the content |
| DivBlocks.RenderWraps | src/MarkdownPlus.php:493-503 | a block with a tag or attributes opens with its element (`div` by default) and closes it unless it is a singleton |
| DivBlocks.RenderBare | src/MarkdownPlus.php:489-492 | a shown block whose meta says `html` is its content alone; one with neither tag nor attributes is its content and an empty line |
| DivBlocks.RenderDivBlock | src/MarkdownPlus.php:471-505 | nothing for a hidden block, else the shown block; `RenderKeeps`, `RenderWraps` and `RenderBare` state what it writes |
| Tabulator.MatchAtIff | src/MarkdownPlus.php:540 | a separator is exactly an optional width, `>>` and a white-space character |
| Tabulator.IdentifyTabulator | src/MarkdownPlus.php:515-521 | a line holding a separator; `IdentifiedSplits` states that such a line is cut |
| Tabulator.IdentifiedSplits | src/MarkdownPlus.php:515-541 | a line `identifyTabulator` accepts is cut at least once |
| Tabulator.SplitRejoins | src/MarkdownPlus.php:540-541 | the cells with their separators between them give back the line, each separator holding its cell's width |
| Tabulator.SplitFindsSeparator | src/MarkdownPlus.php:541 | a separator anywhere gives the cut at least one |
| Tabulator.ConsumedStops | src/MarkdownPlus.php:538-553 | the scan stops at the end or at an empty line without separator; every line before is a row or a continuation |
| Tabulator.ConsumedRows | src/MarkdownPlus.php:540-546 | each cut line adds exactly one row, with one cell more than it has widths |
| Tabulator.ConsumedKeeps | src/MarkdownPlus.php:538-553 | earlier rows are kept, and the widths only grow |
| Tabulator.ConsumeTabShape | src/MarkdownPlus.php:528-555 | one row for the first line and one for each cut line after it |
| Tabulator.ConsumeTabulator | src/MarkdownPlus.php:528-555 | the loop returns the block and stop index the scan gives |
| Tabulator.RowCellsAre | src/MarkdownPlus.php:573-577 | cells are numbered from 1 in order and only the last is marked `tt-last` |
| Tabulator.StyledIff | src/MarkdownPlus.php:578-586 | the block gets a style attribute exactly when some cell has a width |
| Tabulator.StyleNeverOne | src/MarkdownPlus.php:579-584 | the declarations are never one character long, so the style is truthy exactly when non-empty |
| DefLists.AttrText | src/MarkdownPlus.php:624-627 | the text between `{:` and `}`, which put back gives the line |
| DefLists.IdentifyDefinitionList | src/MarkdownPlus.php:599-608 | the next line, or the one after an attribute line, starts with `: `; corrected, a `:`-led line is not a term; `StallAsWritten` and `ConsumeProgress` compare the two readings |
| DefLists.RunShape | src/MarkdownPlus.php:642-646 | a definition is the run of `:` lines after the term, each without its colon, joined by line feeds |
| DefLists.RunRoundTrip | src/MarkdownPlus.php:642-646 | putting the colon back in front of each line gives the lines it was read from |
| DefLists.ScanShape | src/MarkdownPlus.php:632-651 | every pair has a non-empty term that does not start with `:` and earlier pairs are kept |
| DefLists.ConsumeProgress | src/MarkdownPlus.php:599-653 | with the corrected identify test, a list takes at least its first line and never more lines than there are |
| DefLists.StallAsWritten | src/MarkdownPlus.php:599-652 | a line the identify test accepts but the consumer cannot take is returned as `current - 1` |
| DefLists.StallExample | src/MarkdownPlus.php:602-652 | `:a` followed by `: b` is identified and consumed as ending at line -1 |
| DefLists.ConsumeDefinitionList | src/MarkdownPlus.php:615-653 | the attribute line, then the pairs, until a second empty line or a line that is not a term |
| DefLists.ScanItems | src/MarkdownPlus.php:632-651 | the outer loop gives the pairs and stop the scan function gives |
| DefLists.ReadDefinition | src/MarkdownPlus.php:641-646 | the inner loop gives the definition and its last line |
| DefLists.ItemsInOrder | src/MarkdownPlus.php:668-674 | every pair is written in order: its term, then its definition |
| DefLists.DlFrame | src/MarkdownPlus.php:660-684 | a rendered list is a `<dl>` element on its own lines, failing only when an argument string fails |
| DefLists.PlainDl | src/MarkdownPlus.php:660-684 | without attributes or instructions, the pairs as written inside a bare `<dl>` |
| DefLists.RenderItems | src/MarkdownPlus.php:668-674 | the loop writes the pairs in order |
| DefLists.RenderDefinitionList | src/MarkdownPlus.php:660-684 | the list as rendered, its attributes read by the argument parser |
| OrderedLists.MarkerOf | src/MarkdownPlus.php:718 | `^\d+!?\.` at the head of a line |
| OrderedLists.IdentifyOrderedList | src/MarkdownPlus.php:693-699 | a line whose head is an item marker; `IdentifyIff` states when that is |
| OrderedLists.IdentifyIff | src/MarkdownPlus.php:693-699 | a line is an item exactly when it opens with digits, an optional `!` and a dot; no space after the dot is needed |
| OrderedLists.RunStops | src/MarkdownPlus.php:716-720 | the run ends at the first line that is not an item, or at the end |
| OrderedLists.RunItems | src/MarkdownPlus.php:720-726 | each line of the run adds one item, its text after the marker and its spaces |
| OrderedLists.RunStart | src/MarkdownPlus.php:720-722 | the start is the number of the run's last `N!.` line |
| OrderedLists.ConsumeOlItems | src/MarkdownPlus.php:706-729 | the run holds at least the identified line and ends at the first non-item line |
| OrderedLists.ConsumeOlStart | src/MarkdownPlus.php:712-722 | the list gets a start exactly when the run has a `N!.` line, and the last one wins |
| OrderedLists.ConsumeOrderedList | src/MarkdownPlus.php:706-729 | the loop returns the list and the index it stopped at |
| OrderedLists.ResumeSkipsLine | src/MarkdownPlus.php:728 | the index returned is the line after the list, which the parent parser then passes over |
| OrderedLists.LastConsumedIsLastItem | src/MarkdownPlus.php:728 | corrected, the index returned is the list's last line |
| OrderedLists.RenderItems | src/MarkdownPlus.php:743-747 | one `<li>` per item, in order |
| OrderedLists.RenderOrderedList | src/MarkdownPlus.php:736-750 | the items inside an `<ol>` that carries the start when one was set |
| OrderedLists.RenderedStart | src/MarkdownPlus.php:720-748 | the list opens with `<ol start='N'>`, `N` the last `N!.` line's number, or with a bare `<ol>` |
| Inline.Lazy | src/MarkdownPlus.php:761-940 | the lazy group: the least length on one line, within the bound, that the closing marker follows |
| Inline.ParseDelimited | src/MarkdownPlus.php:758-947 | on success the element and the full match length, the inner text 1 to 9 (`~`), 5 (`^^`), 20 (`^`) or any number of characters on one line; else the marker as text with its own length |
| Inline.DelimitedConsumes | src/MarkdownPlus.php:758-947 | a parser consumes at least one character and no more than the text holds |
| Inline.LazyFindsInner | src/MarkdownPlus.php:761-940 | between two markers, a one-line text without an earlier closing marker is the length found |
| Inline.DelimitedRoundTrip | src/MarkdownPlus.php:758-947 | markers written around a fitting text parse back to that text |
| Images.ParseImage | src/MarkdownPlus.php:966-980 | the quoted form if it matches, else the plain form, else `![` as text with length 2 |
| Images.QuotedWins | src/MarkdownPlus.php:968-972 | a match of the quoted form is the parse |
| Images.PlainWins | src/MarkdownPlus.php:973-977 | a plain match where the quoted form fails is the parse |
| Images.NoQuotedMatch | src/MarkdownPlus.php:968 | the quoted form fails when no quote follows the first `](` on the line |
| Images.ImageCaptionRoundTrip | src/MarkdownPlus.php:966-980 | `![alt](src "cap")` reads back as its text |
| Images.ImagePlainRoundTrip | src/MarkdownPlus.php:966-980 | `![alt](src)` with no quote on the rest of the line reads back as its text |
| Images.ImageParts | src/MarkdownPlus.php:991 | `explode('](')`: the pieces before the first `](` and between it and the next |
| Images.Unquoted | src/MarkdownPlus.php:992-997 | a leading quote and the last same quote on the first line are removed, with trailing spaces |
| Images.UnquotedRoundTrip | src/MarkdownPlus.php:992-997 | a quoted one-line text loses its quotes, even when it holds that quote |
| Images.EscapeQuotes | src/MarkdownPlus.php:998 | no quote is left after the entity replacement |
| Images.ViewOfCaptioned | src/MarkdownPlus.php:987-1011 | the text of `![alt](src "cap")` gives back its source, alternative text and caption |
| Images.ImageHtml | src/MarkdownPlus.php:1013-1026 | an `img` element, inside a figure when there is a caption, with a source without `/` resolved as a page file; `FigureHtml` states the figure case |
| Images.FigureHtml | src/MarkdownPlus.php:1020-1022 | an image with a caption is written as a figure |
| Images.ImageCaptionHtml | src/MarkdownPlus.php:966-1027 | `![alt](src "cap")` read and rendered is a figure of the image and caption; a source without `/` is resolved by `fileUrl` |
| LazyMatch.SplitAtSpaceOf | src/MarkdownPlus.php:1001-1003 | `/(.*?)\s+(.*)/` splits a word, white space and a one-line text into the word and the text |
| Links.LinkBoundsIff | src/MarkdownPlus.php:1038 | the bounds are found exactly when the text opens with `[text](target)`, and they are that link's |
| Links.ParseLink | src/MarkdownPlus.php:1036-1052 | the link read at the bounds, or `[` alone as text; `ParseLinkReads` and the round trips state what it gives |
| Links.ParseLinkReads | src/MarkdownPlus.php:1036-1052 | the marker alone with length 1 exactly when no link opens the text, else that link with its full length |
| Links.SplitTarget | src/MarkdownPlus.php:1043-1046 | the target splits at its first white space into link and title, quotes trimmed from the title |
| Links.LinkRoundTrip | src/MarkdownPlus.php:1036-1051 | `[text](url)` reads back as the link without a title |
| Links.LinkTitleRoundTrip | src/MarkdownPlus.php:1036-1051 | `[text](url "title")` reads back as the link, its text and the title |
| Links.StripQuotePair | src/MarkdownPlus.php:1063 | a title between a pair of the same quote loses the pair |
| Links.StripParsedTitle | src/MarkdownPlus.php:1045-1063 | a title the parser produced never starts with a quote, so the renderer leaves it |
| Links.LinkHtml | src/MarkdownPlus.php:1059-1078 | an `a` element with the quote-trimmed link, the text and the title; `TitledHtml` and `LinkTitleHtml` state its shape |
| Links.TitledHtml | src/MarkdownPlus.php:1072-1075 | an `a` element with the title as an attribute when it is truthy |
| Links.LinkTitleHtml | src/MarkdownPlus.php:1036-1075 | a link written with a title renders as an `a` element with that title |
| Icons.ParseIcon | src/MarkdownPlus.php:1086-1097 | `:name:` for a known icon with icons enabled, else `:` as text with length 1 |
| Icons.IconRoundTrip | src/MarkdownPlus.php:1086-1097 | `:name:` reads back as the icon exactly when icons are enabled and the icon exists |
| Escapes.CharCode | src/MarkdownPlus.php:1255-1260 | a line feed becomes `<br>`, any other character `@#N;` with `N` its code |
| Escapes.Shielded | src/MarkdownPlus.php:1247-1265 | corrected: every backslash but a final one replaced with the character after it; `ShieldedLeavesNoBackslash` and `ShieldedSplits` state it |
| Escapes.ShieldedAsWritten | src/MarkdownPlus.php:1247-1265 | as written: nothing for a text opening with a backslash, and a stop at a shielded `0`; `ShieldedAtStartMissed` and `ShieldedZeroStops` state it |
| Escapes.HandleShieldedCharacters | src/MarkdownPlus.php:1247-1265 | the loop as written: each backslash found and the character after it are replaced by the code |
| Escapes.FirstTurn | src/MarkdownPlus.php:1250 | a backslash at position 0 is read as `false` and ends the loop |
| Escapes.ShieldTurn | src/MarkdownPlus.php:1250-1263 | one turn: a backslash ending the text or before `0` stops; any other is replaced |
| Escapes.NoBackslashUnchanged | src/MarkdownPlus.php:1247-1265 | a text without backslashes is left as it is |
| Escapes.ShieldedLeavesNoBackslash | src/MarkdownPlus.php:1247-1265 | corrected, no backslash is left except one that ends the text |
| Escapes.ShieldedSplits | src/MarkdownPlus.php:1261 | a shielded character between two texts is replaced by its code and nothing else changes |
| Escapes.ShieldedAtStartMissed | src/MarkdownPlus.php:1250 | as written `\*x` is returned unchanged; corrected it is `@#42;x` |
| Escapes.ShieldedZeroStops | src/MarkdownPlus.php:1251-1253 | as written a shielded `0` stops the rewriting |
| Escapes.LineBreaks | src/MarkdownPlus.php:1457-1460 | an escaped line end, or `BR` between two white-space characters, becomes `<br>` and a line feed |
| Escapes.LineBreaksPlain | src/MarkdownPlus.php:1459 | a text with neither a backslash nor a `B` is left as it is |
| Escapes.LineBreakSplits | src/MarkdownPlus.php:1459 | each ` BR ` becomes a line break and the texts around it are rewritten on their own |
| CebeFixes.FixCebeBugs | src/MarkdownPlus.php:1293-1312 | the lines are split, fixed in order and joined again |
| CebeFixes.FixTurn | src/MarkdownPlus.php:1296-1310 | line `i` decides the line feed of the line before it and is wrapped in `<literal>` if it is a single tag |
| CebeFixes.BreakChoice | src/MarkdownPlus.php:1297-1306 | a line feed is added after a truthy text line before a dash item, and after a non-numbered line before a numbered one |
| CebeFixes.WrapChoice | src/MarkdownPlus.php:1307-1308 | only a truthy line that is neither a dash item nor a numbered item can be wrapped |
| CebeFixes.DashNotNumber | src/MarkdownPlus.php:1299-1303 | a dash item is never a numbered item |
| CebeFixes.UnfixFixed | src/MarkdownPlus.php:1293-1312 | nothing of a line is lost: undoing the fix gives the line back |
| CebeFixes.ListGetsBlankLine | src/MarkdownPlus.php:1299-1306 | a list item right after a text line ends up after an empty line |
| CebeFixes.PlainTextUnchanged | src/MarkdownPlus.php:1293-1312 | a text without list items and single-tag lines is left as it is |
| Inject.ElemOf | src/MarkdownPlus.php:1396-1404 | the opening tag cut at the first `>` past the start, a self-closing `/` and trailing white space dropped |
| Inject.RestOf | src/MarkdownPlus.php:1405 | the trimmed line past the tag's length |
| Inject.WithId | src/MarkdownPlus.php:1413-1418 | every copy of the first `id='…'` is removed and the new id appended |
| Inject.StyleValue | src/MarkdownPlus.php:1431 | a style value ends with exactly one `; ` |
| Inject.MergedGoesFirst | src/MarkdownPlus.php:1421-1437 | a class or style value goes in front of the values of the first quoted attribute of that name |
| Inject.ApplyAttributes | src/MarkdownPlus.php:1392-1449 | the line with the parsed id, class, style and misc attributes merged into its first tag, or `''` for tag `skip` |
| Inject.ApplyParsed | src/MarkdownPlus.php:1407-1448 | the steps once the arguments are parsed, with the misc loop |
| Inject.MergeAttributes | src/MarkdownPlus.php:1412-1437 | the id, class and style steps in order |
| Inject.NothingAskedKeepsLine | src/MarkdownPlus.php:1392-1449 | a line opening with its tag comes back unchanged when nothing is to be injected |
| Inject.MiscPresent | src/MarkdownPlus.php:1440-1446 | corrected, every misc attribute asked for is present in the tag |
| Inject.MiscAsWrittenKeyed | src/MarkdownPlus.php:1441-1443 | as written `a='b'` is looked for and appended as ` 0='a='b''` |
| Inject.LeadingLayout | src/MarkdownPlus.php:1328-1336 | a text opening with an instruction is that instruction applied to the text after it, up to its first line feed |
| Inject.LeadingDropsLines | src/MarkdownPlus.php:1328-1336 | the lines after the first that follows a leading instruction are lost |
| Inject.ParaAttrLayout | src/MarkdownPlus.php:1364-1368 | an instruction paragraph is read back as its instruction |
| Inject.MidAttrLayout | src/MarkdownPlus.php:1364 | between `<p>` and `</p>`, white space, `{:x}` and white space are read back as the instruction `x` |
| Inject.MarkerLayout | src/MarkdownPlus.php:1370 | `(.*){:(.*?)}(.*)` on a line built as `pre{:x}post` finds the marker right after `pre`, closing right after `x` |
| Inject.TagOfLayout | src/MarkdownPlus.php:1356-1375 | the first tag after the leading white space is the one found |
| Inject.AttrLineApplied | src/MarkdownPlus.php:1355-1368 | an instruction paragraph disappears and its instruction lands on the first tag of the next line |
| Inject.InlineAttrApplied | src/MarkdownPlus.php:1370-1377 | with nothing pending, `pre{:x}post` loses its marker: `x` is applied to the first tag of `pre.post`, or left pending for the next line when it has none |
| Inject.InjectLineKeepsOne | src/MarkdownPlus.php:1351-1380 | a turn keeps at most one line |
| Inject.NoMarkersKept | src/MarkdownPlus.php:1348-1381 | lines without instructions pass the loop untouched |
| Inject.NoMarkersUnchanged | src/MarkdownPlus.php:1322-1324 | a text without `{:` is returned as it is |
| Inject.InjectLine | src/MarkdownPlus.php:1351-1380 | one turn of the line loop, defined by cases: the pending instruction, an instruction paragraph, an inline instruction; `InjectLineKeepsOne`, `AttrLineApplied`, `InlineAttrApplied` and `PlainLineKept` state what it does |
| Inject.ApplyAttrs | src/MarkdownPlus.php:1392-1394 | the instruction parsed, its error passed on, then applied to the line by `Applied`, whose properties `MergedGoesFirst`, `MiscPresent` and `NothingAskedKeepsLine` state |
| Inject.InjectTurn | src/MarkdownPlus.php:1352-1379 | one turn of the line loop as the source performs it |
| Inject.InjectLines | src/MarkdownPlus.php:1348-1381 | the loop gives the lines the fold gives |
| Inject.CatchAndInjectTagAttributes | src/MarkdownPlus.php:1320-1382 | the text as the as-written definition computes it: a leading instruction wraps the text after it, otherwise the line loop applies each instruction paragraph to the next line and each inline instruction to the first tag of its line |
| Matching.NextPattern | src/MdPlusHelper.php:1272-1281 | the next occurrence of the pattern not preceded by a backslash |
| Matching.FindNextPattern | src/MdPlusHelper.php:1272-1281 | the loop finds what `NextPattern` describes; an offset past the text is `strpos`'s error |
| Matching.NextPatternPlain | src/MdPlusHelper.php:1274-1276 | where no occurrence is shielded the result is `strpos` |
| Matching.NextPatternNone | src/MdPlusHelper.php:1274 | nothing is found where `strpos` finds nothing |
| Matching.NextPatternReaches | src/MdPlusHelper.php:1272-1281 | every unshielded occurrence no earlier occurrence overlaps is reached |
| Matching.CountZero | src/MdPlusHelper.php:1256-1261 | no occurrence is counted exactly when there is none |
| Matching.CheckNesting | src/MdPlusHelper.php:1254-1262 | an error exactly when there are more openings than closings; else the number of openings, zero exactly when there is none |
| Matching.Matching | src/MdPlusHelper.php:1162-1223 | what `strPosMatching` returns or throws, including the equal-pattern and short-text cases |
| Matching.StrPosMatching | src/MdPlusHelper.php:1162-1223 | the method returns or throws what `Matching` says |
| Matching.ScanFrom | src/MdPlusHelper.php:1191-1222 | the do-while loop ends with what `Scan` gives |
| Matching.ScanOnce | src/MdPlusHelper.php:1193-1221 | one turn: the closing is the match at depth 0 when no opening comes first; otherwise the depth moves |
| Matching.EqualPatternsFromStart | src/MdPlusHelper.php:1169-1173 | with equal patterns the start is ignored and the first two occurrences are returned |
| Matching.MatchingErrors | src/MdPlusHelper.php:1176-1262 | the errors: more unshielded openings than closings after `p0`, or more openings than closings in the whole text |
| Matching.MatchingByScan | src/MdPlusHelper.php:1187-1222 | for balanced text the match is what the loop finds from the first unshielded opening |
| Matching.PlainMatch | src/MdPlusHelper.php:1187-1203 | without nesting, the first opening from `p0` and the first closing after it |
| Matching.ScanDepth | src/MdPlusHelper.php:1191-1222 | when the loop ends at a closing, counted from the start, the closings first outnumber the openings there |
| Matching.MatchingDepth | src/MdPlusHelper.php:1162-1223 | where no position starts both patterns and no two occurrences overlap between the pair (`Spaced`), the pair returned is an opening and the first closing after it at which the nesting depth returns to zero |
| Matching.NestedExample | src/MdPlusHelper.php:1191-1222 | for `{{a{{b}}c}}` the first opening matches the last closing |
| Matching.StripFrom | src/MdPlusHelper.php:805-812 | the comment loop from a position: a cut gives a shorter text keeping what precedes the comment |
| Matching.CutTurn | src/MdPlusHelper.php:806-811 | one turn cuts out the comment the matcher finds, keeps the text when there is none, and passes the matcher's error on |
| Matching.RemoveHtmlComments | src/MdPlusHelper.php:802-814 | the corrected loop, resuming where the comment was cut |
| Matching.HtmlCommentsOutcome | src/MdPlusHelper.php:802-814 | both forms: a failed first search is the error, no comment gives the text back, a comment gives a shorter text keeping what precedes it |
| Matching.HtmlComments | src/MdPlusHelper.php:802-814 | `removeHtmlComments` with the search resuming where the comment was cut; `HtmlCommentsOutcome` and `RemoveHtmlComments` state what it gives |
| Matching.HtmlCommentsAsWritten | src/MdPlusHelper.php:802-814 | `removeHtmlComments` as written, resuming three characters past the cut; `AdjacentCommentsAsWritten` shows the comment it misses |
| Matching.NoCommentUnchanged | src/MdPlusHelper.php:802-814 | a text with no opening and no shielded `-->` comes back unchanged |
| Matching.TwoCommentsFirst | src/MdPlusHelper.php:804 | the first search finds the first of two comments |
| Matching.SecondCommentMissed | src/MdPlusHelper.php:811 | as written the second search starts at `$p1+3`, past a comment that now starts at `$p1` |
| Matching.SecondCommentFound | src/MdPlusHelper.php:811 | resuming at `$p1` finds that comment |
| Matching.AdjacentCommentsAsWritten | src/MdPlusHelper.php:802-814 | as written the second of two adjacent comments is left in the text |
| Matching.AdjacentCommentsCorrected | src/MdPlusHelper.php:802-814 | corrected both are removed |
| Comments.BlockStep | src/MdPlusHelper.php:756-769 | a turn of the block loop either ends or makes the text shorter or the position larger |
| Comments.LineStep | src/MdPlusHelper.php:772-792 | a turn of the line loop either ends or makes the text shorter or the position larger |
| Comments.RemoveCStyleComments | src/MdPlusHelper.php:753-794 | the block pass, then the line pass |
| Comments.Uncommented | src/MdPlusHelper.php:753-794 | the block pass, then the line pass; `UncommentedClean` states that no comment they would remove is left |
| Comments.BlockPass | src/MdPlusHelper.php:755-769 | the block loop with an unclosed comment cut to the end; `NoBlockOpenerLeft` states that no `/*` it would remove is left |
| Comments.LinePass | src/MdPlusHelper.php:771-793 | the line loop; `NoLineCommentLeft` states that every `//` left follows `:`, `\` or another slash |
| Comments.CutBlockComments | src/MdPlusHelper.php:755-769 | the first loop gives what the corrected block pass gives |
| Comments.CutLineComments | src/MdPlusHelper.php:771-793 | the second loop gives what the line pass gives |
| Comments.LineTurn | src/MdPlusHelper.php:772-792 | a `//` after `:` or `\` is skipped; otherwise the rest of its line is cut, and the line feed too when the comment starts the line |
| Comments.NoBlockOpenerLeft | src/MdPlusHelper.php:756-769 | after the block pass no `/*` after white space or at the start is left |
| Comments.NoLineCommentLeft | src/MdPlusHelper.php:772-792 | after the line pass every `//` left follows `:`, `\` or another slash |
| Comments.UncommentedClean | src/MdPlusHelper.php:753-794 | what is left holds no comment the function would remove |
| Comments.UnclosedStalls | src/MdPlusHelper.php:767-768 | as written an unclosed `/*` at position 2 after white space leaves text and position unchanged |
| Comments.UnclosedGrows | src/MdPlusHelper.php:767-768 | as written an unclosed `/*` found past position 2 after white space makes the text longer, so the loop never counts as ending |
| Comments.UnclosedNeverEnds | src/MdPlusHelper.php:756-769 | so the loop as written never ends on such a text |
| Comments.UnclosedExample | src/MdPlusHelper.php:767-768 | `a /*` is such a text |
| Comments.UnclosedAtStart | src/MdPlusHelper.php:767-768 | as written an unclosed `/*` at the start loses only its opener; the loop ends on `/* abc` with ` abc` |
| Comments.AllClosedAgrees | src/MdPlusHelper.php:756-769 | where every comment met is closed, the loop as written ends and agrees with the corrected one |
| TextUtil.ZapCut | src/MdPlusHelper.php:684-701 | the cut just after the line feed before the first `__END__` line, at 0 when the text opens with it |
| TextUtil.ZapFileEnd | src/MdPlusHelper.php:682-703 | the text before the cut, or with `reverse` the text from it on; `ZapHalves` and `ZapKept` state what the halves are |
| TextUtil.ZapHalves | src/MdPlusHelper.php:682-703 | `zapFileEND($s) . zapFileEND($s, true)` is `$s` |
| TextUtil.ZapKept | src/MdPlusHelper.php:684-701 | the part kept holds no `\n__END__\n` marker and, when a cut was made, ends with the line feed before it |
| TextUtil.ZapAtStart | src/MdPlusHelper.php:686-687 | a text opening with `__END__` and holding no other is zapped to `''` |
| TextUtil.SplitAny | src/MdPlusHelper.php:529-533 | the pieces between the separator characters |
| TextUtil.NonEmpty | src/MdPlusHelper.php:543-545 | the elements that are not `''`, in order |
| TextUtil.ExplodeTrim | src/MdPlusHelper.php:518-548 | blank input gives `[]`; the pieces trimmed, and empty ones dropped on request |
| TextUtil.ExplodeTrimPieces | src/MdPlusHelper.php:520-540 | an absent separator gives the trimmed string alone; otherwise one trimmed element per piece |
| TextUtil.ExcludeEmpty | src/MdPlusHelper.php:542-546 | with empty elements excluded exactly the non-empty pieces remain |
| TextUtil.SplitSingle | src/MdPlusHelper.php:536-539 | `explode` on one character splits where a one-character class does |
| TextUtil.BlankRunEnd | src/MdPlusHelper.php:715-717 | the end of a match of `/\n\s*\n+/` |
| TextUtil.RemoveEmptyLines | src/MdPlusHelper.php:712-719 | each run of blank lines after a line break becomes one line break or, with `leaveOne`, an empty line; `RemoveEmptyLinesKeepsText` and `NoEmptyLineLeft` state what is left |
| TextUtil.RemoveEmptyLinesKeepsText | src/MdPlusHelper.php:712-719 | only white space is removed; the other characters stay in order |
| TextUtil.NoEmptyLineLeft | src/MdPlusHelper.php:717 | without `leaveOne` no empty line is left |
| TextUtil.RemoveHashTypeComments | src/MdPlusHelper.php:727-744 | the loop drops comment lines and leading empty lines |
| TextUtil.KeptLines | src/MdPlusHelper.php:727-744 | the lines without the comment lines and without the empty lines before the first line of data |
| TextUtil.KeptLinesShape | src/MdPlusHelper.php:734-742 | no comment line is kept, the first kept line is data, and the lines dropped besides comment lines are exactly the empty (or `0`) ones before it |
| TextUtil.WithoutCommentsConcat | src/MdPlusHelper.php:734-742 | dropping comment lines from two runs of lines drops them from each, so the kept lines stay in their order |
| TextUtil.FixPath | src/MdPlusHelper.php:75-81 | a truthy path gets exactly one trailing slash; `''` and `'0'` come back as they are |
| TextUtil.FixPathIdempotent | src/MdPlusHelper.php:75-81 | fixing a fixed path changes nothing |
| Paths.BaseName | src/MdPlusHelper.php:828-830 | `basename`: the last component, trailing slashes ignored |
| Paths.ExtOf | src/MdPlusHelper.php:841 | what follows the last dot of a name |
| Paths.StripQuery | src/MdPlusHelper.php:827 | on every line the text from the first `#`, `?`, `&` or `:` on is removed |
| Paths.FileExt | src/MdPlusHelper.php:824-843 | the extension, or with `reverse` the path without it |
| Paths.NameAndExtension | src/MdPlusHelper.php:837-841 | a file name splits at its last dot into name and extension |
| Paths.PathAndExtension | src/MdPlusHelper.php:832-841 | a path with a directory and a dotted name is its reverse part, a dot and its extension |
| Paths.Collapse | src/MdPlusHelper.php:1355-1357 | every `name/../` is removed, leftmost first, until none is left |
| Paths.NormalizePath | src/MdPlusHelper.php:1348-1361 | the leading `../` run kept aside, `name/../` removed, `/./` and `//` made `/` except after `:` |
| Paths.NormalPathUnchanged | src/MdPlusHelper.php:1348-1361 | a path with nothing to normalise is returned unchanged |
| PhpStrings.LTrimBy | src/MdPlusHelper.php:305 | the longest suffix not starting with a trimmed character |
| PhpStrings.TrimBy | src/MdPlusHelper.php:520 | the trimmed text is the piece of the text between the leading and trailing runs of trimmed characters; neither end is left in the trimmed set |
| PhpStrings.IndexOf | src/MdPlusHelper.php:1274 | `strpos`: the first occurrence at or after the offset |
| PhpStrings.JoinSplit | src/MarkdownPlus.php:1295-1311 | joining the pieces of `explode` with the separator restores the string |
| PhpStrings.SplitJoin | src/MarkdownPlus.php:1295-1311 | splitting a join of separator-free pieces gives the pieces back |

## Left out

- The cebe `MarkdownExtra` parent parser is not part of this model. `compile`, `compileParagraph` and `parseInline` are function parameters, as are `_compileCodeBlocks` and `compileMarkdown`, which reach it.
- `preprocess` and `postprocess` are not modelled as a whole. They chain modelled rewrites with left-out ones (front matter, abbreviations, includes, Kirby tags, smartypants) and with one-line regex clean-ups.
- Includes, front matter, section references, abbreviations, Kirby tags and macros are left out. They are file, glob and CMS calls.
- The smartypants table is left out: it is a list of regex substitutions.
- Icons: `iconExists` is a parameter of `Icons.ParseIcon`. `renderIcon`, `renderSvgIcon` and `findAvailableIcons` are left out, being file and SVG I/O.
- `renderImage` resolves a source without `/` through `page()->file()`, which is the parameter `fileUrl`. The `img` and `link` macro paths are left out.
- `convertToPx` (floating point), `parseArgumentStr` and its helpers (JSON decoding) are left out.
- The I/O of `MdPlusHelper` is left out: directories, files, the cache, logs and time stamps.
- The I/O of `Permission` is left out: the session, the access code, impersonation and the user lookup. Their results are the visitor inputs of `Permission.Evaluate`.
- `strtotime`/`time()` become the clock of `Attributes.Env`, `kirby()->language()` its active language, and `Permission::evaluate` its permission oracle.
- Exceptions are `Result` errors carrying the message the source throws. PHP's own errors are `Result` errors too, with PHP's text: `strpos` with an offset past the end (`Matching.OffsetMsg`), and a method called on the missing language object (`Tables.NoLanguage`).
- Matching.ScanDepth: states the depth at the closing the loop ends on; the converse, that the loop ends at the first closing where the depth drops below zero, is not stated.
- TextUtil.NoEmptyLineLeft: covers `leaveOne == false` only; with `leaveOne` each run of blank lines is meant to leave one empty line, and no lemma states that.
- Base64.ToBytes: characters are taken as bytes, so multi-byte characters are outside the model. `Escapes.CharCode` and the length bounds of the inline parsers likewise count characters as bytes.
- Paths.NormalizePath: requires a path without a line feed. The source's `.*` stops at a line feed, which the model does not follow.
- TextUtil.ExplodeTrim: leaves out the `/pattern/` separator, which `preg_split` reads as a regex. It reads a longer separator's characters as plain characters, where regex-special ones would be classes. It requires a non-empty separator, since `explode` throws on an empty one.
- TextUtil.NonEmpty: returns a renumbered list where `array_filter` keeps the original keys.
- TextUtil.RemoveHashTypeComments: takes `PHP_EOL` to be a line feed.
- DivBlocks.IdentifyDivBlock: reads the fence marker literally, where the source interpolates it into the regex unquoted. A regex-special marker character is therefore outside the model.
- Shield.UnshieldStr: the decoded text is compiled by a parameter, and a base64 payload with characters outside the alphabet is decoded by skipping them.
- The driver's loop over blocks (`parseBlocks` in cebe) is not modelled. The findings about the index a `consume*` returns rest on cebe's convention that it is the last line consumed.

## Findings

| source | as written | input that shows it | evidently intended | confidence | as-written member | corrected member |
|---|---|---|---|---|---|---|
| src/MarkdownPlus.php:23-24 | `str_contains(INLINE_ELEMENTS, ",$tag,")` (line 367) on a list with no leading comma and a stray `'.\n'` before `output` | tag `a` or `output` | every listed element is inline | high (not executed) | TagLists.InlineTagAsWrittenMisses | TagLists.InlineTagIff |
| src/MarkdownPlus.php:21 | `str_contains(MDPMD_SINGLETON_TAGS, $tag)` (lines 456 and 497) is a substring test | tag `p` (inside `input`) | only the listed elements lack a closing tag | high (not executed) | TagLists.SingletonAsWrittenMisreads | TagLists.ClosingTagIff |
| src/MarkdownPlus.php:440-449 | the fence of an embedded block is the text after the markers | `@@@ .box`, `text`, `@@@` | the fence is the run of markers | high (not executed) | DivBlocks.EmbeddedAsWrittenDropsBlock | DivBlocks.AsCorrected |
| src/MdPlusHelper.php:364-372 | `substr($str, 0, $p-1)` drops the character before the closing quote | `'ab'` gives `a` | the whole quoted text | high (not executed) | Attributes.QuoteExample | Attributes.QuotedText |
| src/MdPlusHelper.php:304-330 | a key whose value cannot be read leaves `$str` unchanged and `while ($str)` never ends | `color:`, `k=`, `k='v` | the key is consumed and reading goes on | high (not executed) | Attributes.StallNeverEnds | Attributes.NextToken |
| src/MdPlusHelper.php:767-768 | `strpos` returns `false` for an unclosed `/*`, and `substr($str, false + 2)` rebuilds the text | `a /*` never ends, and an opener past position 2 grows the text (`Comments.UnclosedGrows`); `/* abc` gives ` abc` | an unclosed comment runs to the end | high (not executed) | Comments.UnclosedNeverEnds | Comments.NoBlockOpenerLeft |
| src/MarkdownPlus.php:1250-1252 | `while ($p = strpos(…))` reads position 0 as false, and `if (!$ch)` reads `'0'` as false | `\*x`; `a\0b\*` | every shielded character is replaced | high (not executed) | Escapes.ShieldedZeroStops | Escapes.ShieldedLeavesNoBackslash |
| src/MarkdownPlus.php:1441-1443 | `$attr` is a list, so `$k` is its index and `$v` already reads `k='v'` | `{: a=b}` gives ` 0='a='b''` | the attribute `a='b'` is added | high (not executed) | Inject.MiscAsWrittenKeyed | Inject.MiscPresent |
| src/MdPlusHelper.php:811 | the next search starts at `$p1+3`, after the cut | `<!--a--><!--b-->` | the search resumes at `$p1` | high (not executed) | Matching.AdjacentCommentsAsWritten | Matching.AdjacentCommentsCorrected |
| src/MarkdownPlus.php:602-652 | a `:`-led line followed by `: ` is identified, but the consumer cannot take it and returns `current - 1` | `:a`, `: b` | such a line is not identified | medium (not executed) | DefLists.StallExample | DefLists.ConsumeProgress |
| src/MarkdownPlus.php:728 | the index returned is the first line after the list | `1. a`, `text` | the last line of the list is returned | medium (not executed) | OrderedLists.ResumeSkipsLine | OrderedLists.LastConsumedIsLastItem |
