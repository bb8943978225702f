# nommy text parsers and enum derive, in Dafny

This project models three parts of nommy, a Rust parser-combinator library whose
parsers read `char` tokens from a buffer:

- `Tag<TAG>` (`nommy/src/text/tag.rs`) matches a literal string. Its `peek` and
  `parse` both take `TAG.len()` tokens and compare them with `TAG`.
- `OneOf<CHARS>` and `OneInRange<lo..=hi>` (`nommy/src/text/one_of.rs`) read one
  char and test it for membership in a set or an inclusive range. The module also
  has the error type `OneInRangeError` and the aliases `OneLowercase`,
  `OneUppercase` and `OneDigits`.
- `#[derive(Parse)]` on an enum (`nommy-derive/src/enum_impl.rs`):
  - `EnumInput::new` classifies the variants and rejects unit variants.
  - The `EnumPeek` and `EnumParse` builders collect one peek helper and one parse
    helper per variant.
  - The emitted `peek` is a chain of helper calls.
  - The emitted `parse` is a first-match if/else dispatch.

Modules:

- `Buffers` (`buffer.dfy`): the token buffer is a class holding the tokens not yet
  read.
  - `Next` reads one token.
  - `Cursor` returns a fresh, independent read position over the same tokens.
  - Every parser takes one of these, as `impl Buffer<char>` does in Rust.
- `Tags` (`tag.dfy`): the tag parser as loops over `Next`, proved against closed
  forms.
  - `ParseAccepts` states what `parse` accepts.
  - `TagPeekOutcome` states what `peek` returns and how many tokens it pulls. Rust's
    `Iterator::eq` stops at the first differing char, and asks `take` for one token
    past the tag.
  - The take count is the UTF-8 byte length `Utf8Len(TAG)`, as in the source.
- `OneOf` (`one_of.dfy`): the one-char parsers, their messages and the
  `OneInRangeError` display.
- `EnumDerive` (`enum_impl.dfy`): the derive.
  - Each literal (enum prefix or suffix) and each field is an `Element`: a peek and a
    parse over the remaining tokens. The code that builds them is not part of this
    model.
  - The builders are classes whose `Enrich`, `AddPeek` and `AddParse` methods push
    onto the same vectors the Rust builders push onto.
  - The emitted procedures are the methods `EnumPeek.Peek`, `EnumParse.Parse`,
    `PeekVariant` and `ParseVariant`. They are proved against the functions
    `PeekAll`, `FirstAccepting` and `RunParse`.
- `TagExamples`, `OneOfExamples` and `EnumExamples`: the doc examples and unit tests
  of the two text files, restated as client methods over fresh buffers.
  - They also contain all-inputs statements: peek agrees with parse.
  - `EnumExamples` also has an enum `Sign { Plus(Tag<"+">), Minus(Tag<"-">) }`, whose
    fields are built from the `Tags` model.

The doc comments at `nommy/src/text/tag.rs:6` ("match the given string exactly") and
`nommy/src/text/one_of.rs:51` ("Error type returned by [OneInRange]'s parse") do not
match what the code does. The model follows the code as written:

- The tag take count is `TAG.len()` in bytes (see Findings).
- The suffix-failure context of a tuple variant says "struct".
- `OneInRange::parse` reports "could not parse char in range …", not the
  `OneInRangeError` text.

## Model

| member | source | states |
|---|---|---|
| Tags.Utf8Len | nommy/src/text/tag.rs:25 | `TAG.len()` is at least the char count and at most four times it, and equals it exactly when TAG is ASCII |
| Tags.PeekAgreesWithParse | nommy/src/text/tag.rs:23-38 | for any take count at least the char count, peek's lazy `eq` accepts exactly the inputs on which parse's collected string equals the tag |
| Tags.ParseAcceptsExactly | nommy/src/text/tag.rs:29-38 | with `TAG.len()` as take count, parse accepts iff the input starts with the tag and either the tag is ASCII or the input is exactly the tag |
| Tags.AsciiTagThenRest | nommy/src/text/tag.rs:9-12 | an ASCII tag parses from tag + rest, collects the tag and leaves rest |
| Tags.NonAsciiTagRejected | nommy/src/text/tag.rs:31 | "éa" starts with "é", yet the tag "é" takes two tokens and rejects it |
| Tags.TagError | nommy/src/text/tag.rs:35 | the parse error starts with "failed to parse tag \"TAG\", found " and ends with the quoted text that was collected |
| Tags.TagErrorNamesFound | nommy/src/text/tag.rs:35 | for one tag, two parse errors are equal iff they collected the same text |
| Tags.PeekTaking | nommy/src/text/tag.rs:25 | the peek loop returns the closed-form outcome and advances the cursor by exactly the tokens `eq` pulls |
| Tags.ParseTaking | nommy/src/text/tag.rs:31-36 | the collect loop reads min(n, remaining) tokens, succeeds iff they spell the tag, and otherwise fails with "failed to parse tag \"T\", found \"S\"" naming what it read |
| Tags.Peek | nommy/src/text/tag.rs:23-27 | `Tag::peek` returns true exactly when `Tag::parse` on the same tokens would succeed, and says how far it moves the cursor |
| Tags.Parse | nommy/src/text/tag.rs:29-38 | `Tag::parse` consumes min(`TAG.len()`, remaining) tokens whether or not it succeeds; it succeeds iff the input starts with the tag and (ASCII or nothing follows); it returns the tag, whose `process` is itself; otherwise it returns the exact error text |
| Tags.ParseByChars | nommy/src/text/tag.rs:29-38 | with one token per char, parse succeeds iff the input starts with the tag, and then it has consumed exactly the tag |
| Tags.PeekByChars | nommy/src/text/tag.rs:23-27 | with one token per char, peek accepts iff the input starts with the tag, and then it has read exactly the tag |
| TagExamples.FooBarBaz | nommy/src/text/tag.rs:8-13 | on "foobarbaz", parsing "foobar" then "baz" both succeed and read everything |
| TagExamples.ParseBrackets | nommy/src/text/tag.rs:45-57 | the eight one-char tags parsed in turn from "(){}[]<>" all succeed, and `next()` then returns none |
| TagExamples.PeekBrackets | nommy/src/text/tag.rs:59-72 | the eight peeks on one cursor all succeed, the cursor then reaches EOF, and the buffer still holds "(){}[]<>" |
| TagExamples.ParseErrors | nommy/src/text/tag.rs:74-81 | "(" and ")" on "1" fail with `failed to parse tag "(", found "1"` and `failed to parse tag ")", found "1"` |
| TagExamples.EmptyTag | nommy/src/text/tag.rs:31-33 | the empty tag succeeds on any input and consumes nothing |
| TagExamples.TagPeekMatchesParse | nommy/src/text/tag.rs:23-38 | on any tag and text, peek on a cursor equals parse success on the buffer; parse leaves the text after min(`TAG.len()`, remaining) tokens |
| OneOf.OneOfPeek | nommy/src/text/one_of.rs:22-29 | peek is true iff a token is left and CHARS contains it; it reads exactly one token when one is left |
| OneOf.OneOfParse | nommy/src/text/one_of.rs:31-48 | parse consumes exactly one token when input is non-empty, on success and on failure; it succeeds iff CHARS contains that token and `process` then returns it; otherwise the error names CHARS and the char found, or says EOF |
| OneOf.OneInRangePeek | nommy/src/text/one_of.rs:86-93 | peek is true iff a token is left and lo <= c <= hi; it reads exactly one token when one is left |
| OneOf.OneInRangeParse | nommy/src/text/one_of.rs:95-108 | parse consumes one token when there is one; it succeeds iff lo <= c <= hi and `process` returns c; otherwise "could not parse char in range …, found …" or "…, reached EOF" |
| OneOf.OneOfPeekMatchesParse | nommy/src/text/one_of.rs:22-48 | on any text, peek on a cursor and parse on the buffer agree, and parse leaves the text minus its first char |
| OneOf.OneInRangePeekMatchesParse | nommy/src/text/one_of.rs:86-108 | on any text, the range peek and parse agree, and parse leaves the text minus its first char |
| OneOf.OneInRangeError.Display | nommy/src/text/one_of.rs:55-65 | the text is "error parsing one char in 'lo'..='hi', " followed by "found 'c'" for a char found, and it ends in "EOF" exactly when nothing was found |
| OneOf.DisplayNamesFound | nommy/src/text/one_of.rs:55-65 | for one range, two errors display alike iff they found the same char, or both EOF |
| OneOf.RangeErrorTextsDiffer | nommy/src/text/one_of.rs:55-65 | the `OneInRangeError` display ("error parsing one char in …") never equals either message that `OneInRange::parse` reports |
| OneOfExamples.DashOrUnderscore | nommy/src/text/one_of.rs:7-12 | `OneOf<"-_">` yields '-' from "-" and fails on "a" with `error parsing one of "-_", found 'a'` |
| OneOfExamples.OneOfAtEof | nommy/src/text/one_of.rs:45 | at end of input, `OneOf` fails with "error parsing one of \"CHARS\", reached EOF" |
| OneOfExamples.DigitFromTwelve | nommy/src/text/one_of.rs:71-76 | `OneInRange<'0'..='9'>` yields '1' from "12" and leaves "2" |
| OneOfExamples.Aliases | nommy/src/text/one_of.rs:110-138 | `OneLowercase`, `OneUppercase` and `OneDigits` yield 'h', 'H' and '1' from their documented inputs |
| OneOfExamples.LowercaseRejectsUpper | nommy/src/text/one_of.rs:102 | a char outside the range is consumed and reported as "could not parse char in range 'a'..='z', found 'W'" |
| EnumDerive.ClassifyVariants | nommy-derive/src/enum_impl.rs:26-68 | the variant map fails exactly when a variant is a unit variant, with the panic message; otherwise it keeps one field per variant, in order, with that variant's name and named or tuple fields |
| EnumDerive.NewEnumInput | nommy-derive/src/enum_impl.rs:17-78 | `EnumInput::new` rejects unit variants and otherwise keeps the name, the generic args, the attributes and the classified variants in declaration order |
| EnumDerive.HelperNames | nommy-derive/src/enum_impl.rs:262-263 | a `__peek_` helper name never equals a `__parse_` one; variants whose names lowercase alike get the same helper names |
| EnumDerive.PeekAllAppend | nommy-derive/src/enum_impl.rs:175-181 | peeking prefix ++ fields ++ suffix peeks the first part, then the rest where it stopped, and stops at the first refusal |
| EnumDerive.FirstAccepting | nommy-derive/src/enum_impl.rs:264-268 | the dispatch picks the least index whose peek helper accepts, or none when no helper accepts |
| EnumDerive.PeekVariant | nommy-derive/src/enum_impl.rs:218-221 | a peek helper runs its elements in order on one cursor and returns false at the first refusal; the result and the cursor position are `PeekAll`'s |
| EnumDerive.TupleSuffixContextSaysStruct | nommy-derive/src/enum_impl.rs:291-305 | for a tuple variant, the prefix context "tuple `E::V`" differs from the suffix context, which says "struct `E::V`" |
| EnumDerive.ParseFix | nommy-derive/src/enum_impl.rs:291-305 | a missing literal is no check; a failing literal's error is wrapped with its directive and context |
| EnumDerive.ParseFieldsInOrder | nommy-derive/src/enum_impl.rs:297-299 | fields are parsed by index, each from where the previous one stopped; the first failure ends the parse with that field's error |
| EnumDerive.Construct | nommy-derive/src/enum_impl.rs:307-321 | tuple variants are built positionally and named variants by field name, with every value passed through its `into` |
| EnumDerive.RunParse | nommy-derive/src/enum_impl.rs:284-324 | a parse helper reads no more than the input holds, and a success is a value of its own variant |
| EnumDerive.ParseVariant | nommy-derive/src/enum_impl.rs:364-367 | the emitted parse helper runs prefix, fields and suffix on the buffer, returns at the first failure, and gives `RunParse`'s result and position |
| EnumDerive.FieldsPeekImpliesParse | nommy-derive/src/enum_impl.rs:177-179 | when each field's parse succeeds wherever its peek does, reading as much, then parsing the fields succeeds wherever peeking them does |
| EnumDerive.FixPeekImpliesParse | nommy-derive/src/enum_impl.rs:175 | the same for one optional literal |
| EnumDerive.VariantPeekImpliesParse | nommy-derive/src/enum_impl.rs:167-184 | with sound literals and fields, a variant's parse helper succeeds wherever its peek helper accepts, and it reads what the peek read |
| EnumDerive.DerivedPeekImpliesParse | nommy-derive/src/enum_impl.rs:259-276 | with sound elements, whenever some variant's peek accepts, the variant that the dispatch picks parses successfully as itself |
| EnumDerive.EnumPeek.constructor | nommy-derive/src/enum_impl.rs:130-147 | the peek builder holds one helper name `__peek_<variant>` and one body per variant, in order |
| EnumDerive.EnumPeek.Enrich | nommy-derive/src/enum_impl.rs:149-165 | `enrich` appends one chain link, one helper name and one body per variant, in declaration order |
| EnumDerive.EnumPeek.AddPeek | nommy-derive/src/enum_impl.rs:167-184 | `add_peek` pushes one body: the enum prefix, then each field by index, then the enum suffix |
| EnumDerive.EnumPeek.Peek | nommy-derive/src/enum_impl.rs:206-213 | the emitted `peek` is true iff some variant's helper accepts on a fresh cursor; the caller's cursor is not modified |
| EnumDerive.EnumParse.constructor | nommy-derive/src/enum_impl.rs:240-257 | the parse builder holds one (`__peek_`, `__parse_`) link and one parse body per variant, in order |
| EnumDerive.EnumParse.Enrich | nommy-derive/src/enum_impl.rs:259-276 | `enrich` appends one link, one helper name and one body per variant, in declaration order |
| EnumDerive.EnumParse.AddParse | nommy-derive/src/enum_impl.rs:278-324 | `add_parse` pushes one body with the prefix context "struct `E::V`" or "tuple `E::V`" by the variant's kind, the fields, and the suffix context "struct `E::V`" |
| EnumDerive.NoVariants | nommy-derive/src/enum_impl.rs:340 | the dispatch error is a plain message that starts with "no variants of E" |
| EnumDerive.NoVariantsNamesEnum | nommy-derive/src/enum_impl.rs:340 | two enums get the same dispatch error iff their names are equal |
| EnumDerive.EnumParse.Parse | nommy-derive/src/enum_impl.rs:348-358 | the emitted `parse` runs the parse helper of the first variant whose peek accepts on a fresh cursor, and returns its result and position; if none accepts, it fails with "no variants of E could be parsed" and leaves the buffer unchanged |
| EnumDerive.Process | nommy-derive/src/enum_impl.rs:80-85 | `process` builds both builders from the same input |
| EnumExamples.TagElementSound | nommy/src/text/tag.rs:23-38 | a `Tag` field, used in a derived enum, parses successfully wherever it peeks true, and reads as much as the peek read |
| EnumExamples.TagVariantPeek | nommy-derive/src/enum_impl.rs:175-181 | for an ASCII tag, the peek helper of a one-tag variant accepts iff the input starts with the tag |
| EnumExamples.TagVariantParse | nommy-derive/src/enum_impl.rs:291-321 | for an ASCII tag, on a text that starts with the tag, the parse helper of a one-tag variant yields the variant holding the tag and reads the tag |
| EnumExamples.OneFieldVariantParse | nommy-derive/src/enum_impl.rs:291-321 | with no enum prefix or suffix, a one-field tuple variant's parse helper yields the variant holding the field's value passed through its `into`, and reads what the field read |
| EnumExamples.SignIsSound | nommy/src/text/tag.rs:23-38 | `Sign` has no enum prefix or suffix, and both of its tag fields parse successfully wherever they peek true |
| EnumExamples.TwoTagVariantsSound | nommy/src/text/tag.rs:23-38 | both fields of an enum of two one-tag variants parse successfully wherever they peek true |
| EnumExamples.PeekThenParse | nommy-derive/src/enum_impl.rs:206-213 | for any enum with sound elements: peek leaves the buffer alone; if it accepts, parse succeeds with a declared variant; if not, parse fails with the "no variants" error and reads nothing |
| EnumExamples.PeekThenParseSign | nommy-derive/src/enum_impl.rs:206-213 | `Sign::peek` accepts exactly the texts starting with "+" or "-", and then `Sign::parse` yields `Plus` or `Minus`; otherwise parse fails with the "no variants" error and reads nothing |
| EnumExamples.PeekThenParseTwo | nommy-derive/src/enum_impl.rs:206-213 | for a sound two-variant enum whose peek helpers accept the texts starting with a and with b, peek accepts iff the text starts with a or b, and parse then yields one of the two variants |
| EnumExamples.ParseSign | nommy-derive/src/enum_impl.rs:259-276 | `Sign::parse` on any text yields `Plus` on "+…" and `Minus` on "-…", each reading one char, and otherwise fails with "no variants of Sign could be parsed" with the text unread |
| EnumExamples.UnitVariantPanics | nommy-derive/src/enum_impl.rs:66 | an enum with a unit variant is refused with "Unit variants not supported in enum parse derive" |

## Left out

- Debug formatting: `{:?}` of strings and chars is modelled as plain double or single quotes. Rust's escaping of quotes, backslashes and control characters is not modelled.
- eyre error chaining: the literal failures that `wrap_err` produces are modelled as an `Error.Context(directive, context, cause)` value. The text eyre renders for such a chain is not modelled.
- The field and literal builder (`FunctionBuilder::fix` and `field`) and the attribute parsers (`GlobalAttr`/`FieldAttr::parse_attrs`) are not part of this model. Each literal and field is an opaque peek/parse pair, and the `ignore_whitespace` directive is not modelled.
- EnumDerive.DerivedPeekImpliesParse and EnumDerive.VariantPeekImpliesParse: these assume that every element's parse succeeds wherever its peek does (`Sound`). That depends on the builder, which is not part of this model. `EnumExamples.TagElementSound` shows that a `Tag` field meets it.
- Token-stream text: the emitted `quote!` output is not modelled, nor `where_clause_types`, the generic bounds or `#[automatically_derived]`. The emitted procedures are modelled by their behaviour.
- EnumDerive.HelperNames: `to_lowercase` is modelled on ASCII letters only. When two variants' names lowercase alike, the emitted code defines one helper twice and rustc rejects it. That compile error is not modelled.
- `syn` decoding: variants and fields arrive as already decoded values. Field types, and the field names that value construction uses, are not modelled beyond the names kept in `ByName` payloads.
- `nommy-derive/src/named_struct.rs` is not part of this model.
- Buffer internals: the concrete `Buffer` and `Cursor` types, `into_buf` and the iterator adapters are not part of this model. The class `Buffers.Buffer` stands for both.
- `Tag::process` returns the tag itself; `OneOf::process` and `OneInRange::process` return the wrapped char. These one-line accessors have no contracts of their own. Their results are stated by the parse members that return the processed value.

## Findings

| source | as written | input that shows it | evidently intended | confidence | as-written member | corrected member |
|---|---|---|---|---|---|---|
| nommy/src/text/tag.rs:25 | `peek` and `parse` take `TAG.len()` tokens, which is the UTF-8 byte length, from a stream of chars | `Tag<"é">` on "éa": two chars are taken and "éa" is not "é", so parse fails (peek agrees), although the input starts with the tag | take one token per char of TAG, so that any input starting with TAG matches | high, not executed | Tags.NonAsciiTagRejected | Tags.ParseByChars |
