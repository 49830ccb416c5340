# chromaformatter in Dafny

A model of the colouring core of chromaformatter, a `logging.Formatter`
extension that puts ANSI colours into log lines. Three formatters share the
same ideas and are modelled side by side:

- `src/chromalogging/chroma_formatter.py` (modules `Directives` and
  `ColorFormatter`): the template's `$RED`, `$LI_BLUE`, `$BOLD`, `$RESET`, ...
  directives are resolved once at construction (`_format_message`); each
  `format` call restores the record (`_init_record`), rebuilds the working
  template from the saved original, and fills each lone `{}` of the message
  with a colour-wrapped `%s`.
- `src/chromalogging/__init__.py` (modules `ChromaLogging` and `Widths`): the
  same directive resolver with a level-name width fix
  (`_adjust_format_lengths`) applied first; `format` colours the message and
  the level name with the module-level `color_map`, and `_init_record` also
  restores the level name.
- `src/chromaformatter/__init__.py` (module `ChromaPackage`): the template
  keeps `$LEVEL` markers, replaced on every call by the level's colour; the
  message's `%s`/`%d` specs can be wrapped in argument colours; the message is
  put back after rendering.

Shared modules: `Ansi` (escape codes and character classes), `Text`
(prefixes and `str.replace`), `Scanning` (a left-to-right scanner for one or
more `re.sub` patterns over `$` directives), `Placeholders` (the `{}` and
`%s/%d` rewrites), `Logging` (the record, level numbers and the abstract
base render) and `Wrappers` (`Option`).

The resolver's passes (reset rule, bold rule, then one `str.replace` per
table word) are proved equal to a single left-to-right scan with all the
rules in that order (`Scanning.ChainIsScan`); every per-directive fact is
then a fact about that scan. In `src/chromalogging/__init__.py` the table's
`RESET` entry maps to a different code than in `chroma_formatter.py`, but no
text can reach it, because the reset rule has already consumed every `$RESET`
(`ChromaLogging.ResetEntryNeverFirst`); the two resolvers are therefore equal
(`ChromaLogging.LegacyResolve`).

Behaviour modelled as the code has it:

- `src/chromaformatter/__init__.py:76-77`: a level missing from `color_map`
  renders with the working template as the previous call left it. Before any
  coloured call this still holds the literal `$LEVEL` markers.
- `src/chromalogging/__init__.py:53,60`: `{}` is replaced without the
  lookaround guard of the other variant, so the `{}` inside `{{}}` is filled
  (`ChromaLogging.UnguardedFillsDoubled`).
- `src/chromaformatter/__init__.py:83`: a spec preceded by `%` is never
  wrapped, so `%%%s` (a literal `%` followed by a real `%s`) stays uncoloured
  (`Placeholders.WrapSparesEscaped`).
- `_init_record`: when a stored attribute is missing, the restores made before
  the failing read stay in place and the snapshot is taken from the record as
  it then is.

## Model

| member | source | states |
|---|---|---|
| Directives.WordToColorOk | src/chromalogging/chroma_formatter.py:15-33 | every table word is a `[A-Z_]+` name and every colour an escape code (led by ESC, free of `$`, `{`, `}`, `%`) |
| Scanning.MatchLen | src/chromalogging/chroma_formatter.py:137-140 | a pattern match starts at a `$` and covers at least one more character, within the text |
| Scanning.HitFirst | src/chromalogging/chroma_formatter.py:139-142 | at a position, the rule applied is the first that matches there; every earlier rule fails there |
| Scanning.AnyWordBoundary | src/chromalogging/chroma_formatter.py:137 | `\b`: a stripped directive is followed by a non-word character or the end |
| Scanning.ChainIsScan | src/chromalogging/chroma_formatter.py:139-142 | running the passes one after another equals one left-to-right scan with all rules in order, when no replacement holds `$` or starts with a word character |
| Scanning.ScanKeepsPrefix | src/chromalogging/chroma_formatter.py:139-142 | text before the first `$` is copied unchanged |
| Scanning.DollarFreeUnchanged | src/chromalogging/chroma_formatter.py:139-142 | a template without `$` is not changed |
| Scanning.ScanDeadRule | src/chromalogging/__init__.py:29 | a rule that is never the first to match can have any replacement without changing the scan |
| Directives.Resolve | src/chromalogging/chroma_formatter.py:139-142 | the single left-to-right scan equals the reset pass, the bold pass and the table passes run one after another (for a bold code without `$`); a template without `$` is unchanged |
| Directives.FormatMessage | src/chromalogging/chroma_formatter.py:127-143 | colour off: the result is Strip(msg); colour on: bold, then the resolved msg, then RESET+bold (it starts with bold and ends with RESET+bold) |
| Directives.ResolvePasses | src/chromalogging/chroma_formatter.py:139-142 | the reset pass, the bold pass and the table passes in table order, applied one after another, give Chain of the rules in that order |
| Directives.ResolveWrapped | src/chromalogging/chroma_formatter.py:138-139 | resolving `bold + msg + $RESET` gives bold + resolved msg + RESET + bold |
| Directives.ResolveKeepsPrefix | src/chromalogging/chroma_formatter.py:139-142 | text without `$` in front is copied |
| Directives.ResolveSplit | src/chromalogging/chroma_formatter.py:139-142 | a template cut before a non-word character resolves as its two halves |
| Directives.ResolveReset | src/chromalogging/chroma_formatter.py:139 | `$RESET` becomes RESET+bold, the rest resolves on its own |
| Directives.ResolveResetWord | src/chromalogging/chroma_formatter.py:139 | the appended `$RESET` alone becomes RESET+bold |
| Directives.ResolveShortReset | src/chromalogging/chroma_formatter.py:139 | a bare `$R` becomes RESET+bold whatever follows (`$Rx` gives RESET+bold then `x`), unless `ED` follows (the lookahead) or `ESET` (the long form) |
| Directives.ResetSparesRed | src/chromalogging/chroma_formatter.py:139 | the reset pattern does not match at `$RED` |
| Directives.ResolveBold | src/chromalogging/chroma_formatter.py:140 | `$BOLD` becomes BOLD |
| Directives.ResolveShortBold | src/chromalogging/chroma_formatter.py:140 | a bare `$B` becomes BOLD whatever follows, unless `LUE` or `LACK` follows (the lookahead) or `OLD` (the long form) |
| Directives.BoldSparesBlueAndBlack | src/chromalogging/chroma_formatter.py:140 | the bold pattern does not match at `$BLUE` or `$BLACK` |
| Directives.ResolveTableWord | src/chromalogging/chroma_formatter.py:141-142 | each table word (other than RESET, taken by the reset rule) becomes its colour+bold whatever follows it, a word character included |
| Directives.GluedDirective | src/chromalogging/chroma_formatter.py:136-142 | a table word run on into a lower-case letter or digit (`$GREENish`): colour on, coloured with the rest kept; colour off, kept whole because `\b` fails |
| Directives.TableWordHit | src/chromalogging/chroma_formatter.py:15-33 | the i-th table word, whatever follows it, is matched first by its own rule, which takes the whole `$word`: no earlier rule takes it |
| Directives.Unshadowed | src/chromalogging/chroma_formatter.py:15-33 | no earlier table word is a prefix of a later one (`$LI_RED` is not eaten by `$RED`'s replace) |
| Directives.Unprefixed | src/chromalogging/chroma_formatter.py:15-33 | no earlier table word starts with a later one, so no earlier replace takes a later word followed by more text |
| Directives.ResolveLevel | src/chromalogging/chroma_formatter.py:141-142 | `$LEVEL` is in no rule and survives resolution unchanged, whatever follows it |
| Directives.Strip | src/chromalogging/chroma_formatter.py:136-137 | colour off: the result is a subsequence of the template |
| Directives.StripClean | src/chromalogging/chroma_formatter.py:136-137 | colour off: no `$[A-Z_]+\b` directive remains anywhere in the result |
| Directives.StripDirective | src/chromalogging/chroma_formatter.py:137 | a directive ending at a word boundary is deleted |
| Directives.StripAddsNoCode | src/chromalogging/chroma_formatter.py:136-137 | colour off: no escape code is added |
| ColorFormatter.InitRecordSpec | src/chromalogging/chroma_formatter.py:104-124 | the level is untouched; unless `consumed` is false, afterwards the record is consumed and its message and arguments equal the stored ones |
| ColorFormatter.InitRecord | src/chromalogging/chroma_formatter.py:104-124 | the record's new state is InitRecordSpec of the old one, including the partial restore before an `AttributeError` |
| ColorFormatter.InitRecordFirst | src/chromalogging/chroma_formatter.py:121-124 | first call: message and arguments stored, `consumed` set, nothing else changed |
| ColorFormatter.InitRecordRestores | src/chromalogging/chroma_formatter.py:118-120 | later calls put the stored message and arguments back and keep the snapshot |
| ColorFormatter.InitRecordIdempotent | src/chromalogging/chroma_formatter.py:104-124 | a second call right after the first changes nothing |
| ColorFormatter.SecondFormatterSeesPristine | src/chromalogging/chroma_formatter.py:104-124 | whatever one formatter wrote into message and arguments, the next one starts from the record as logged |
| ColorFormatter.ChromaFormatter.constructor | src/chromalogging/chroma_formatter.py:40-66 | template resolved by FormatMessage; the original saved only with colour on; brackets on; the default colour map |
| ColorFormatter.ChromaFormatter.Format | src/chromalogging/chroma_formatter.py:68-91 | the whole new state: uncoloured or unknown level fills lone `{}`; otherwise the template is rebuilt from the saved original alone (bold moved to the front, bracket recolouring only when that colour is set, `$LEVEL` to the level colour, RESET appended), the message coloured; a missing BRACKETS or ARGS entry is a `KeyError` |
| ColorFormatter.ColourRecord | src/chromalogging/chroma_formatter.py:84-89 | the message becomes level colour + message, with lone `{}` filled only when there are arguments; nothing else changes |
| ColorFormatter.PlainPathAddsNoColour | src/chromalogging/chroma_formatter.py:70-73 | the uncoloured fill adds no escape code, and without doubled braces it fills every `{}` |
| ColorFormatter.ColourMessageShape | src/chromalogging/chroma_formatter.py:84-89 | the coloured message is the level colour followed by the message with its lone `{}` filled |
| ColorFormatter.BoldTemplate | src/chromalogging/chroma_formatter.py:74-77 | with bold set the template starts with BOLD and gains no other character; without bold it is the saved original |
| ColorFormatter.ColourTemplate | src/chromalogging/chroma_formatter.py:74-90 | the coloured template ends with RESET and, for a level colour that is an escape code, has no `$LEVEL` left, whatever the bracket recolouring |
| ColorFormatter.ColourTemplateUsesEntry | src/chromalogging/chroma_formatter.py:74-90 | for any bold and bracket setting, the map entry read on this call followed by bold stands where the first `$LEVEL` of the rebuilt template stood |
| ColorFormatter.BracketGuard | src/chromalogging/chroma_formatter.py:82-83 | with an empty BRACKETS colour, bracket recolouring does not take part |
| Placeholders.LoneBraces | src/chromalogging/chroma_formatter.py:72 | with a brace-free replacement no lone `{}` is left, and no character outside the message and the replacement appears |
| Placeholders.LoneLeavesNone | src/chromalogging/chroma_formatter.py:72 | after the fill no lone `{}` is left (for a brace-free replacement) |
| Placeholders.LoneIsPlain | src/chromalogging/chroma_formatter.py:72 | without doubled braces the guarded fill equals a plain replace of `{}` |
| Placeholders.LoneSparesDoubled | src/chromalogging/chroma_formatter.py:72 | `{{}}`, `{{}` and `{}}` are kept; `{}` is replaced |
| Placeholders.LoneFree | src/chromalogging/chroma_formatter.py:86-89 | a character in neither the message nor the replacement is not in the result |
| Placeholders.LoneKeepsPrefix | src/chromalogging/chroma_formatter.py:84-89 | text without `{` in front, such as the level colour, is copied, and the rest is filled as if alone |
| ChromaLogging.LegacyOk | src/chromalogging/__init__.py:20-38 | every word of this package's table is a `[A-Z_]+` name and every colour an escape code |
| ChromaLogging.ResetEntryNeverFirst | src/chromalogging/__init__.py:29 | the table's `RESET` rule is never the first to match: the reset rule already took `$RESET` |
| ChromaLogging.LegacyResolve | src/chromalogging/__init__.py:83-86 | this package's passes resolve every template exactly as Directives.Resolve |
| ChromaLogging.FormatterMessage | src/chromalogging/__init__.py:79-89 | colour off: Strip(msg), widths untouched; colour on: bold, the resolved width-adjusted msg, RESET+bold |
| Widths.FieldLen | src/chromalogging/__init__.py:93 | a `%(levelname)-<digits>s` match at a position starts with `%` and is at least 15 characters long |
| Widths.DecimalValue | src/chromalogging/__init__.py:96 | the written width reads back, as `int` reads it, as the number |
| Widths.FieldParses | src/chromalogging/__init__.py:99 | a field written with width w is matched whole and reads back as w |
| Widths.FirstWidth | src/chromalogging/__init__.py:93-94 | the search finds nothing exactly when no position starts a field |
| Widths.FirstWidthAt | src/chromalogging/__init__.py:93-96 | the search returns the width of the leftmost field |
| Widths.AdjustFormatLengths | src/chromalogging/__init__.py:92-100 | with no field the template is returned unchanged; otherwise the first width N becomes N + 9 (colour on) + 4 (bold set) |
| Widths.ReplaceWidths | src/chromalogging/__init__.py:99 | a template without `%` is copied |
| Widths.ReplaceSetsAll | src/chromalogging/__init__.py:99 | every field of the result has the new width |
| Widths.ReplaceFirst | src/chromalogging/__init__.py:99 | after the rewrite the search finds the new width |
| Widths.ReplaceIdempotent | src/chromalogging/__init__.py:99 | rewriting twice with the same width is rewriting once |
| Widths.ReplaceCopies | src/chromalogging/__init__.py:99 | text without `%` in front is copied |
| Widths.NoNewField | src/chromalogging/__init__.py:99 | the rewrite creates no field out of a character and the rewritten text after it |
| Widths.AdjustWrapped | src/chromalogging/__init__.py:81-82 | adjusting `bold + msg + $RESET` is wrapping the adjusted msg |
| ChromaLogging.InitRecord | src/chromalogging/__init__.py:65-76 | the record's new state is InitRecordSpec of the old one, restoring message, then level name, then arguments |
| ChromaLogging.InitRecordFirst | src/chromalogging/__init__.py:72-76 | first call: message, level name and arguments stored, `consumed` set, nothing else changed |
| ChromaLogging.InitRecordRestores | src/chromalogging/__init__.py:68-71 | later calls put all three back and keep the snapshot |
| ChromaLogging.InitRecordIdempotent | src/chromalogging/__init__.py:65-76 | a second call right after the first changes nothing |
| ChromaLogging.SecondFormatterSeesPristine | src/chromalogging/__init__.py:65-76 | colours one formatter put into message and level name never reach the next |
| ChromaLogging.InitRecordSpec | src/chromalogging/__init__.py:65-76 | the level number is untouched; unless `consumed` is false, afterwards the record is consumed and its message, level name and arguments equal the stored ones |
| ChromaLogging.DefaultColorMapComplete | src/chromalogging/__init__.py:9-17 | the module's map has every standard level, ARGS and BRACKET, each an escape code, so `format` with it never raises `KeyError` |
| ChromaLogging.ChromaFormatter.constructor | src/chromalogging/__init__.py:43-47 | template set by FormatterMessage with bold BRIGHT or empty |
| ChromaLogging.ChromaFormatter.Format | src/chromalogging/__init__.py:49-62 | the whole new record: uncoloured or unknown level fills every `{}` with `[%s]`; otherwise message = level colour + message with `{}` filled by the bracketed argument marker when there are arguments, level name wrapped in level colour and RESET; a missing BRACKET or ARGS entry is a `KeyError` |
| ChromaLogging.PlainPathAddsNoColour | src/chromalogging/__init__.py:52-54 | the uncoloured fill adds no escape code |
| ChromaLogging.ColourMessageShape | src/chromalogging/__init__.py:58-60 | the coloured message is the level colour followed by the message with every `{}` filled |
| ChromaLogging.UnguardedFillsDoubled | src/chromalogging/__init__.py:53 | `{{}}` becomes `{` + marker + `}` here, where the guarded fill keeps it |
| Placeholders.WrapSpecs | src/chromaformatter/__init__.py:82-85 | the wrap only inserts: with empty colours, or with no `%` in the message, the message is unchanged |
| Placeholders.SpecLen | src/chromaformatter/__init__.py:83 | a `%[-0.\d]*[sd]` match not preceded by `%` starts with `%` and ends with `s` or `d` |
| Placeholders.WrapOnlyInserts | src/chromaformatter/__init__.py:82-85 | the wrap only inserts colours: with empty colours the message is unchanged |
| Placeholders.WrapNoPercent | src/chromaformatter/__init__.py:82-85 | a message without `%` is unchanged |
| Placeholders.WrapSpec | src/chromaformatter/__init__.py:82-85 | each spec is wrapped whole as start + spec + end, and the scan continues after it |
| Placeholders.WrapKeepsPrefix | src/chromaformatter/__init__.py:82-85 | text without `%` in front is copied |
| Placeholders.WrapOneSpec | src/chromaformatter/__init__.py:82-85 | a message with one `%s` gets exactly that spec wrapped |
| Placeholders.WrapSparesEscaped | src/chromaformatter/__init__.py:83 | `%%s` and `%%%s` are not wrapped |
| Placeholders.LevelResolvedEverywhere | src/chromaformatter/__init__.py:86 | after the `$LEVEL` replace none is left in the message |
| ChromaPackage.ChromaFormatter.constructor | src/chromaformatter/__init__.py:54-67 | the template gains RESET_ALL, `$LEVEL` kept, and is saved as the original; the default colour map |
| ChromaPackage.ChromaFormatter.Format | src/chromaformatter/__init__.py:69-93 | the record is the same afterwards; unknown level: template untouched, rendered as is; known level: template = original with `$LEVEL` to the map's colour, rendered with the argument-coloured message |
| ChromaPackage.ArgMessage | src/chromaformatter/__init__.py:81-86 | with arguments and both argument colours set no `$LEVEL` is left in the message for an escape-code level colour; a message without `%` and `$` is never changed |
| ChromaPackage.TemplateResolved | src/chromaformatter/__init__.py:87-90 | after a known-level call the template has no `$LEVEL` and ends with RESET_ALL |
| ChromaPackage.TemplateUsesEntry | src/chromaformatter/__init__.py:79 | the colour written is the map entry read on this call, where the first `$LEVEL` stood |
| ChromaPackage.OneArgColoured | src/chromaformatter/__init__.py:81-86 | one `%s` with end colour `$LEVEL` becomes start + `%s` + level colour, as tests/test_chroma_formatter.py:79-87 expects |
| ChromaPackage.UnsetColoursKeepMessage | src/chromaformatter/__init__.py:81 | no arguments, or an unset argument colour: the message is not rewritten |
| ChromaPackage.ExampleTemplateAtInfo | tests/test_chroma_formatter.py:89-99 | the test template at INFO has both `$LEVEL` replaced by CYAN and ends with RESET_ALL |

## Left out

- The base `logging.Formatter.format` (time stamps, `%(...)s` interpolation, arity errors) is the abstract `Logging.Render` of (template, record); what it does with the record beyond reading it is not modelled.
- `str(record.msg)` on a non-string message: messages are strings; argument tuples or dicts are sequences of strings, and their truthiness is non-emptiness.
- colorama's constants are the concrete ANSI sequences; `chromalogging.ansi` is not part of this model, and its names are taken to be the same codes (`LI_X` as `LIGHTX_EX`, `RESET` as `RESET_ALL`, `BOLD` as `BRIGHT`). The proofs rely only on each code being non-empty, led by ESC and free of `$`, `{`, `}` and `%`.
- `re.sub` replacement templates are taken literally: backslash escapes in colour strings are not processed. `\w` and `\b` are ASCII.
- Placeholders.SpecLen and Placeholders.WrapSpecs: `\d` in the spec pattern is ASCII `[0-9]`; Python's `\d` on a `str` also matches other Unicode decimal digits, so a spec such as `%٣s` is wrapped by the source and not by the model.
- `_color_brackets` (src/chromalogging/chroma_formatter.py:93-101) is the `colorBrackets` parameter of `ColorFormatter.ChromaFormatter.Format`: its segmentation is not modelled, only the guard around it.
- ColorFormatter.ChromaFormatter.Format: requires `Valid()`, the saved template existing when colour is on; a `use_color` switched on after construction raises `AttributeError` in the source and is not modelled.
- The module-level `color_map` of src/chromalogging/__init__.py is the `colorMap` argument of `ChromaLogging.ChromaFormatter.Format`, read on each call; changing it between calls is passing a different map.
- Exceptions from the base render, handlers, streams, files, logger configuration, the demos (chroma_demo.py, color_demo.py, test/chroma_demo.py, tests/demo.py), tests.py, test/tests.py, test/performance.py and setup.py.
- Concurrent use of one record by several handlers.
