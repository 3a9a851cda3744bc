# colorize, modelled in Dafny

A model of the core of the `colorize` Rust crates. These crates turn a list of
values into one terminal string with ANSI escape sequences. Each value can be
given a short style tag such as `BrFg`, `iFb` or `N`. The codes are SGR
parameters from section 8.3.117 of ECMA-48: 30-37 foreground, 40-47
background, 1 bold, 3 italic, 4 underline, 0 reset.

The model covers three parts of the source.

- **Tag decoding.** `Lenient.Decode` models `color_str` of the runtime crate,
  which skips anything it does not understand. `Strict.DecodeStrict` models
  `color_str` of the procedural-macro crate. It has the same tables but
  rejects a bad colour letter or an unknown directive character. Both are
  pure functions over `string`. Each also has a loop-based method that
  follows the source's cursor scan and is proved equal to the function.
- **Fragments.** `Fragments.Fragment` writes the text for one styled value.
  `Fragments.ParseFragment` reads that text back. Their round trip shows the
  format is unambiguous: the style and the text can both be recovered.
- **Aggregation.**
  - `Aggregate.Render` models `colorize!`: bare values show as their
    display text, tagged ones as fragments, all joined by single spaces.
  - `Aggregate.RenderStrict` models the procedural `colorize`: bare values
    show as quote-stripped debug text, one bad tag aborts the whole
    output, and a call without arguments gives no output either: its
    expansion `[].join(" ")` leaves the array's element type to be
    inferred from nothing, so it does not compile.
  - `Grouped.MacroColorize` models `macro_colorize!`: a group tag `G => ...`
    is glued in front of every later entry's tag.

A tag's decoding is a `Style`: a list of `Attr` values in scan order plus a
newline flag. The SGR strings are computed from it with `Style.Codes`. This
matches the source's `Vec<&str>` of codes, because `Tags.Code` is injective
and lands in the 19-string table. A value is a `Value(display, debug)` pair:
the strings the source gets from `to_string()` and from `format!("{:?}")`
are taken as inputs.

The module `Scenarios` holds worked examples on the model. `TwoTagged` and
`TaggedAndBare` restate the crate's documentation examples and
`NewlineEntry` its asserting unit test; the other examples each exhibit one
rule of the scan on a small tag of their own.

The procedural `color_str` accepts a selector at the very end of a tag and
emits nothing for it (proc-colorize/src/lib.rs:53, 77), so
`DecodeStrict("bF")` is `Ok`. A rejected tag is reported with the tag's span
and a message naming the character; the model's `TagError` keeps the kind
(`InvalidForeground`, `InvalidBackground` or `InvalidFormat`) and that
character.

## Model

| member | source | states |
|---|---|---|
| Text.Join | src/lib.rs:156 | `.join(sep)`: the parts with one separator between neighbours; `JoinLength`, `JoinAppend` and `FieldsOfJoin` state its properties |
| Text.JoinLength | src/lib.rs:156 | joining N parts adds exactly N - 1 separators and nothing else |
| Text.JoinAppend | src/lib.rs:156 | joining two non-empty lists is joining each and putting one separator between them |
| Text.JoinAvoids | src/lib.rs:156 | a character found in no part and not in the separator is not in the join |
| Text.FieldsOfJoin | src/lib.rs:77 | splitting a `;`-join at `;` gives back the parts when no part contains `;`, so the joined code list loses nothing |
| Text.StripQuotes | src/lib.rs:27 | `.replace('"', "")`: the result holds no double quote and is no longer than the input |
| Text.StripQuotesAppend | src/lib.rs:27 | quote removal distributes over concatenation |
| Text.StripQuotesQuoteFree | src/lib.rs:27 | a text without quotes is left unchanged |
| Text.StripQuotesIdempotent | src/lib.rs:27 | removing quotes twice is the same as removing them once |
| Text.StripQuotesKeepsOthers | src/lib.rs:27 | every character other than `"` is kept, with its multiplicity |
| Tags.ColorOf | src/lib.rs:33-43 | exactly the eight letters k r g y b m c w name a colour, and the colour's letter is the one read |
| Tags.LetterRoundTrip | src/lib.rs:33-43 | every colour is read back from its own letter |
| Tags.Code | src/lib.rs:31-71 | every code a tag can push is one of the 19 table strings and is all digits |
| Tags.AttrOfCodeRoundTrip | src/lib.rs:31-71 | every pushed code determines the attribute that pushed it |
| Tags.CodeInjective | src/lib.rs:31-71 | distinct attributes never share a code |
| Tags.CodesThen | src/lib.rs:29-77 | the codes of two styles in sequence are the first's codes followed by the second's, so pushing order is kept |
| Lenient.Pair | src/lib.rs:31-67 | a selector plus a character selects a colour exactly when the selector is `F`/`B` and the character is a colour letter |
| Lenient.PairTable | src/lib.rs:31-67 | the whole colour table: the i-th letter of k r g y b m c w gives 3i after `F` and 4i after `B` |
| Lenient.PairConsumesTwo | src/lib.rs:31-67 | `F`/`B` plus a colour letter consumes both characters and appends 3x or 4x, where x is the colour's place in k r g y b m c w |
| Lenient.Step | src/lib.rs:29-74 | one scan step consumes one or two characters, adds at most one code per character consumed, and requests the newline exactly when it consumed an `N` |
| Lenient.Decode | src/lib.rs:24-75 | the decoding has no more attributes than the tag has characters, and requests the newline exactly when `N` occurs anywhere in the tag |
| Lenient.DecodeLoop | src/lib.rs:24-75 | the cursor-and-peek loop of the source computes exactly `Decode` |
| Lenient.CodesBounded | src/lib.rs:29-75 | every decoded code is one of the 19 table strings, and there are at most as many codes as tag characters |
| Lenient.DecodeToken | src/lib.rs:31-72 | the characters that write one directive decode to exactly that directive |
| Lenient.DecodeSpelled | src/lib.rs:29-75 | a tag written directive by directive, possibly ending in a lone selector, decodes to those directives in order, duplicates kept |
| Lenient.DecodeConcat | src/lib.rs:29-75 | a tag not ending in `F`/`B` decodes independently of what follows: the decoding of `g + t` is `g`'s attributes then `t`'s |
| Lenient.DecodeSkipsUnknown | src/lib.rs:73 | inserting a character that starts no directive changes nothing, provided the prefix does not end in `F`/`B` or neither the inserted character nor the next one is a colour letter |
| Lenient.SkipNeedsCleanEnd | src/lib.rs:32-47 | the proviso is needed: `Fxr` decodes to nothing while `Fr` is red |
| Lenient.DecodeSwapTail | src/lib.rs:29-75 | after any prefix, even one ending in a selector, two continuations that decode alike and start with no colour letter keep decoding alike |
| Lenient.SelectorKeepsNext | src/lib.rs:32-47 | after any prefix, `F`/`B` before a non-colour character emits nothing and does not consume that character |
| Lenient.DanglingSelectorIgnored | src/lib.rs:32 | after any prefix, `F`/`B` as the last character emits nothing |
| Lenient.SeamPairsSelector | src/macros.rs:19 | when the first tag ends in a selector, the tags do not compose: `F` glued to `r` selects red |
| Strict.DecodeStrict | proc-colorize/src/lib.rs:44-111 | the strict scan: the lenient tables, but a selector before a non-colour character and any character outside F B b i u N stop it with an error; its guarantees are the lemmas below |
| Strict.StrictAgrees | proc-colorize/src/lib.rs:50-111 | when strict decoding succeeds it equals the lenient decoding; when it fails, the reported character is in the tag and is a bad colour letter or a character that starts no directive |
| Strict.StrictConcat | proc-colorize/src/lib.rs:50-111 | strict decoding composes at a clean end: `g`'s error wins, then `t`'s, and otherwise the two styles follow each other |
| Strict.StrictAcceptsSpelled | proc-colorize/src/lib.rs:50-111 | every tag written directive by directive is accepted, even with a trailing lone `F`/`B`, with exactly the style it spells |
| Strict.StrictOkIsSpelled | proc-colorize/src/lib.rs:50-111 | conversely, every accepted tag is such a spelled tag and decodes to its directives |
| Strict.StrictRejectsBadSelector | proc-colorize/src/lib.rs:52-98 | after a prefix spelled from whole directives, `F`/`B` followed by a non-colour character fails with the matching foreground or background error naming that character |
| Strict.StrictRejectsUnknown | proc-colorize/src/lib.rs:104-109 | after a prefix spelled from whole directives, a character outside F B b i u N fails with the format error naming it |
| Strict.DecodeStrictLoop | proc-colorize/src/lib.rs:44-111 | the early-returning loop of the source computes exactly `DecodeStrict` |
| Fragments.Fragment | src/lib.rs:77 | the text for one styled value: optional newline, ESC `[`, the `;`-joined codes, `m`, the text, ESC `[0m`; `ParseFragmentRoundTrip` shows it loses nothing |
| Fragments.AttrsOfCodesRoundTrip | src/lib.rs:77 | the codes of any attribute list read back as that list |
| Fragments.ParseCodesRoundTrip | src/lib.rs:77 | the `;`-joined code list of a style reads back as its attributes, the empty list included |
| Fragments.ParseParamsRoundTrip | src/lib.rs:77 | the code list, `m`, text and reset read back as the style and the text |
| Fragments.ParseFragmentRoundTrip | src/lib.rs:77 | a fragment reads back as exactly the style and text it was written from, newline flag included |
| Fragments.FragmentInjective | src/lib.rs:77 | two fragments are equal only when they show the same text in the same style |
| Fragments.ColorStr | src/lib.rs:23-78 | the lenient `color_str`: the quote-free debug text in the decoded style; `ColorStrReadsBack` states what can be read from it |
| Fragments.ColorStrReadsBack | src/lib.rs:23-78 | `color_str` output reads back as the decoded tag and the quote-free debug text; it starts with a newline exactly when the tag holds `N` |
| Fragments.StrictColorStr | proc-colorize/src/lib.rs:44-123 | the strict `color_str` fails exactly when strict decoding fails, with the same error, and otherwise produces the lenient `color_str` text |
| Aggregate.PlainFragment | src/lib.rs:143-154 | one `colorize!` entry: a bare value by its display text, a tagged one through `color_str` |
| Aggregate.PlainFragmentsCons | src/lib.rs:143-154 | the fragments of a list are its first entry's fragment followed by the rest's |
| Aggregate.Render | src/lib.rs:139-159 | no entries give the empty string; otherwise the length is the fragments' total plus one separator between each pair of neighbours |
| Aggregate.RenderAppend | src/lib.rs:156 | rendering two non-empty lists back to back is rendering each, with one space between |
| Aggregate.RenderSnoc | src/lib.rs:143-156 | one more entry appends a space and that entry's fragment |
| Aggregate.RenderBareIsPlain | src/lib.rs:150 | entries that are all bare, with escape-free display texts, render with no escape character |
| Aggregate.RenderTaggedShape | src/lib.rs:143-148 | a tagged entry renders in exactly its decoded style with its quote-free debug text, and reads back as both |
| Aggregate.StrictFragment | proc-colorize/src/lib.rs:133-139 | the procedural form of one entry succeeds exactly when the entry is bare or its tag is accepted |
| Aggregate.CollectStrict | proc-colorize/src/lib.rs:132-140 | succeeds exactly when every entry is accepted, then with one fragment per entry in order; otherwise fails with the error of an entry before which all were accepted |
| Aggregate.RenderStrict | proc-colorize/src/lib.rs:127-150 | the procedural `colorize`: the fragments joined by single spaces, the first rejected tag's error, or no output for a call without arguments |
| Aggregate.RenderStrictAgrees | proc-colorize/src/lib.rs:127-150 | the procedural output exists exactly when there is at least one entry and every tag is accepted, and then equals the runtime output whenever display and quote-free debug texts agree |
| Aggregate.RenderStrictAborts | proc-colorize/src/lib.rs:134-136 | one rejected entry anywhere means no output, only the error of an entry at or before it |
| Grouped.EffectiveTag | src/macros.rs:16-34 | under group tag `G`, a tagged entry is decoded with `G` glued before its own tag and a bare one with `G` alone |
| Grouped.GroupFragment | src/macros.rs:16-34 | an entry under a group, rendered by `color_str` with its effective tag |
| Grouped.Expand | src/macros.rs:7-40 | the macro's recursion over its accumulator and the group tag in force; a second group tag matches no arm and gives nothing |
| Grouped.MacroColorize | src/macros.rs:5-40 | the macro applied to a list of arguments, from an empty accumulator |
| Grouped.GroupFragmentStyled | src/macros.rs:16-34 | under a group tag, a tagged entry is styled by the group's tag glued to its own and a bare entry by the group's tag alone, with the quote-free debug text |
| Grouped.ExpandItems | src/macros.rs:7-14 | over entries without a group tag, the recursion appends each entry's fragment and joins at the end |
| Grouped.FragmentsUnderPlain | src/macros.rs:7-14 | without a group tag every entry gets the runtime `colorize!` fragment |
| Grouped.MacroWithoutGroup | src/macros.rs:5-40 | with no group tag, `macro_colorize!` renders exactly as `colorize!`, the empty call included |
| Grouped.MacroCarriesGroup | src/macros.rs:16-34 | once a group tag appears it is carried to every remaining entry; entries before it render plainly |
| Grouped.ExpandDefined | src/macros.rs:16-40 | the recursion produces output exactly when, counting an active group, at most one group tag is given |
| Grouped.MacroAcceptsOneGroup | src/macros.rs:16-40 | `macro_colorize!` accepts a call exactly when it carries at most one group tag |
| Grouped.GroupComposes | src/macros.rs:16-19 | when the group tag does not end in `F`/`B`, the group's attributes come first and the entry's own follow |
| Scenarios.ColourPairs | src/lib.rs:33-60 | `Fr`, `Bg`, and the table ends `Fk`/`Fw`/`Bk`/`Bw` decode to the listed codes |
| Scenarios.ScanOrder | src/lib.rs:135 | `iFb` gives 3;34: attributes in scan order, and `b` right after a selector is blue |
| Scenarios.BackThenBlue | src/lib.rs:194 | `BrFb` gives 41;34 |
| Scenarios.BoldAfterPair | src/lib.rs:130-131 | `Fgb` gives 32;1: a `b` not after a selector is bold |
| Scenarios.NoMerging | src/lib.rs:69-71 | `biFr` gives 1;3;31 |
| Scenarios.NoOverride | src/lib.rs:29-67 | `FrFg` gives 31;32: a second foreground is appended, not substituted |
| Scenarios.NewlineAnywhere | src/lib.rs:72 | `Nb` and `bN` both decode to bold with the newline; the empty tag is plain |
| Scenarios.LenientSkips | src/lib.rs:42-47 | `Fi` gives italic only, a lone `F` gives nothing, and an unknown `x` is skipped |
| Scenarios.StrictVerdicts | proc-colorize/src/lib.rs:63-92 | strict `Fi` and `bBz` fail naming `i` and `z` |
| Scenarios.StrictVerdictsAtEnd | proc-colorize/src/lib.rs:53-109 | strict `bx` fails naming `x`; strict `bF` is accepted as bold |
| Scenarios.DebugChar | src/lib.rs:27 | how `{:?}` shows one character of a string: the escapes `\0 \t \r \n \\ \"`, and `\u{..}` for the other ASCII control characters |
| Scenarios.DebugTextPlain | src/lib.rs:27 | printable ASCII other than `"` and `\` is debug-shown unchanged |
| Scenarios.DebugTextAppend | src/lib.rs:27 | the debug text of a concatenation is the concatenation of the debug texts |
| Scenarios.LiteralText | src/lib.rs:27 | a string literal of printable ASCII without `"` or `\` reads back as itself once the quotes are removed from its debug text |
| Scenarios.BackslashShownDoubled | src/lib.rs:27 | quote removal works on the debug text, so a literal `a\b` is shown as `a\\b` |
| Scenarios.QuoteLeavesBackslash | src/lib.rs:27 | a literal `x"` is shown as `x\`: the quote goes, the backslash escaping it stays |
| Scenarios.TwoTagged | src/lib.rs:10-11 | `BrFg->"Hello", b->"world"` renders as `\x1b[41;32mHello\x1b[0m \x1b[1mworld\x1b[0m` |
| Scenarios.TaggedAndBare | src/lib.rs:135-136 | `iFb->"Hello", Fmu->"world", ", it's me!"` renders with the bare text unstyled |
| Scenarios.NewlineEntry | src/lib.rs:193-198 | the crate's unit test: `N->"hello"` renders as `\n\x1b[mhello\x1b[0m` in the full expected string |
| Scenarios.GroupedBold | src/macros.rs:16-34 | group `b` over `Fg->"One"`, `"two"`, `Fb->"three"` gives codes 1;32, 1 and 1;34 |
| Scenarios.StrictAbort | proc-colorize/src/lib.rs:134-136 | a list whose second tag is `Fq` gives only the error for `q`, although a later tag is also bad |

## Left out

- Rust's `Debug` and `Display` formatting of arbitrary values. The texts
  they produce are inputs (`Value(display, debug)`). For string literals
  the debug text is computed by `Scenarios.DebugText`.
- Scenarios.DebugChar: shows every non-ASCII character as itself. Rust
  also escapes non-printable and grapheme-extending Unicode characters as
  `\u{..}`, which needs Unicode's property tables; `LiteralText` therefore
  speaks only of printable ASCII.
- Token parsing with `syn`/`proc_macro`, `quote!` code generation and
  `paste!` identifier gluing. The model works directly on the list of
  entries these build; gluing is string concatenation.
- The arm matching of `macro_rules!`, including trailing commas. Only the
  resulting rendering rule is modelled. A call that matches no arm (a second
  group tag) is `None`.
- Grouped.MacroColorize: models the call written with an accumulator,
  `macro_colorize!([]; ...)`, and the empty call. src/macros.rs has no arm
  that supplies the empty accumulator itself (unlike src/lib.rs:158), every
  entry there must be followed by a comma, and a group tag with no entry
  after it (src/macros.rs:36) has no `Arg` here; other call shapes do not
  compile and are not modelled.
- Spans and error message text of the procedural macro. An error is modelled
  by its kind and the offending character.
- `print_color!` and its `println!`, and the tests that only print: they
  are output, with nothing asserted.
- The doc comment's "Fm/By -> magenta": the code's tables are modelled.
