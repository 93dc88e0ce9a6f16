# usaddress-rs core in Dafny

A model of the address-parsing core of `usaddress-rs-wasm` (`src/usaddr.rs`).
This is the part of the U.S. address parser that turns a free-text address
into the per-token feature sequences a conditional-random-field tagger
consumes, and that post-processes the tagger's labels. The model covers:

- **Unicode** (`unicode.dfy`): Rust's character classes, lower-casing and
  NFKD normalisation as an abstract `Unicode` record. It includes `trim` and
  the decimal rendering of a count.
- **Tokenizer** (`tokenizer.dfy`): `clean_address` (trim, then NFKD),
  `clean_addresses` and `tokenize`. Tokenizing pads `&` and `#` with spaces,
  splits on space, comma, semicolon, `)` and newline, and drops empty
  fragments.
- **TokenFeatures** (`token_features.dfy`): `get_token_features`, as a method
  with the source's character loop, proved equal to the `TokenFeatureList`
  specification function. It also covers `make_replacements` over abstract
  lexicons.
- **FeatureContext** (`feature_context.dfy`): `add_feature_context`, as a
  method with the source's two loops, proved equal to the `Augmented`
  specification. It also covers `get_new_attributes`.
- **Grouping** (`grouping.dfy`): `zip_tokens_and_tags`, and `group_by_tag`
  as a method with the source's nested loop, proved equal to `Grouped`.
- **Punctuation** (`punctuation.dfy`): `remove_insignificant_punctuation`,
  as a method with the source's indexed loop, proved equal to `KeptPrefix`.
- **Pipeline** (`pipeline.dfy`): `get_address_features`, `parse` and
  `parse_addresses`. The trained model enters as a tagger parameter that
  may fail.

Feature weights are `0.0` or `1.0` in the source. They are the integers 0
and 1 here.

The doc comment on `clean_address` (src/usaddr.rs:223-228) promises
upper-casing, ASCII filtering and punctuation removal. The code only trims
and applies NFKD, and the model follows the code. Other places where the
code is followed where a reader might expect otherwise:

- The vowel flag looks only for lower-case `aeiou`.
- A token gets nine features, `has.vowels` being the ninth.
- An empty token is classed `all_digits`, because 0 numeric characters equal
  0 characters.

## Model

| member | source | states |
|---|---|---|
| Unicode.TrimStartIsSuffix | src/usaddr.rs:230 | Trimming the front leaves a suffix; everything dropped is whitespace and the result does not start with whitespace |
| Unicode.TrimEndIsPrefix | src/usaddr.rs:230 | Trimming the back leaves a prefix; everything dropped is whitespace and the result does not end with whitespace |
| Unicode.TrimIsSlice | src/usaddr.rs:230 | `Trim`: returns a contiguous slice with only whitespace outside it and none at either end |
| Unicode.TrimAllWhitespace | src/usaddr.rs:230 | An all-whitespace string trims to the empty string |
| Unicode.TrimIdempotent | src/usaddr.rs:230 | `Trim`: trimming a trimmed string changes nothing |
| Unicode.TrimUnchanged | src/usaddr.rs:230 | A string of visible ASCII characters is not changed by trimming |
| Unicode.Decimal | src/usaddr.rs:192-196 | The rendered count is non-empty, all ASCII digits, with no leading zero except for 0 itself |
| Unicode.DecimalRoundTrip | src/usaddr.rs:192-196 | Reading the rendered count back gives the count |
| Tokenizer.CleanAddresses | src/usaddr.rs:233-238 | One cleaned address per input, each the `clean_address` of the input at that position |
| Tokenizer.CleanAddressIgnoresTrim | src/usaddr.rs:229-231 | `CleanAddress`: whitespace around an address does not change its cleaned form; cleaning the trimmed text gives the same result |
| Tokenizer.SplitFragments | src/usaddr.rs:130 | No fragment holds a separator, and the fragments concatenated are the input with its separators removed |
| Tokenizer.SplitCount | src/usaddr.rs:130 | There is one more fragment than the input has separators |
| Tokenizer.SplitJoin | src/usaddr.rs:130 | The fragments joined with the input's separators, in order, one between each two, give back the input |
| Tokenizer.SplitUnique | src/usaddr.rs:130 | Any list of separator-free fragments that joins back to the input with its separators is the split: where `split` cuts is fully determined |
| Tokenizer.SplitSpan | src/usaddr.rs:130 | Every fragment is a stretch of the input with no separator, bounded on each side by a separator or an end of the input; only the first starts at the beginning |
| Tokenizer.NonEmptyFilters | src/usaddr.rs:131 | The filter keeps exactly the non-empty fragments, in order: strictly increasing positions pick out the output, a position is picked iff its fragment is non-empty, and the concatenation is unchanged |
| Tokenizer.NonEmptyConcat | src/usaddr.rs:131 | Dropping empty fragments does not change their concatenation |
| Tokenizer.ReplaceCharAppend | src/usaddr.rs:128-129 | Replacing a character distributes over concatenation |
| Tokenizer.PaddedCons | src/usaddr.rs:128-129 | Padding works character by character: `&` becomes ` & `, `#` becomes ` # `, others stay |
| Tokenizer.PaddedKeepsContent | src/usaddr.rs:128-129 | Padding only adds spaces: the text without separators is unchanged |
| Tokenizer.WithoutSeparatorsAppend | src/usaddr.rs:130 | Removing separators distributes over concatenation |
| Tokenizer.SplitPaddedSpecial | src/usaddr.rs:128-130 | A padded non-separator character splits off as a fragment of its own |
| Tokenizer.PaddedIsolatesSpecials | src/usaddr.rs:128-130 | After padding, every fragment holding `&` or `#` is that one character |
| Tokenizer.TokenizeProperties | src/usaddr.rs:124-134 | `Tokenize`: no token is empty or holds a separator; a token holding `&` or `#` is exactly `"&"` or `"#"`; every token is a maximal separator-free stretch of the padded cleaned text; the tokens in order spell the cleaned address with its separators removed; and the tokens are exactly the non-empty fragments, in order, of a cut of the padded text at its separators (a cut `SplitUnique` shows to be unique) |
| Tokenizer.BlankAddressHasNoTokens | src/usaddr.rs:124-134 | An empty or all-whitespace address has no tokens |
| Tokenizer.AmpersandExample | src/usaddr.rs:124-134 | `"A&B"` tokenizes to `["A", "&", "B"]` |
| Tokenizer.PaddedAmpersandExample | src/usaddr.rs:128-129 | `"A&B"` pads to `"A & B"` |
| Tokenizer.SplitAmpersandExample | src/usaddr.rs:130 | `"A & B"` splits to `["A", "&", "B"]` |
| Tokenizer.NonEmptyAmpersandExample | src/usaddr.rs:131 | Filtering `["A", "&", "B"]` keeps all three |
| Tokenizer.HashExample | src/usaddr.rs:124-134 | `"#12"` tokenizes to `["#", "12"]` |
| Tokenizer.PaddedHashExample | src/usaddr.rs:128-129 | `"#12"` pads to `" # 12"` |
| Tokenizer.SplitHashExample | src/usaddr.rs:130 | `" # 12"` splits to `["", "#", "12"]`, the leading space giving an empty fragment |
| Tokenizer.NonEmptyHashExample | src/usaddr.rs:131 | Filtering `["", "#", "12"]` drops only the empty fragment |
| TokenFeatures.GetTokenFeatures | src/usaddr.rs:136-217 | The character loop and feature list compute exactly the `TokenFeatureList` specification |
| TokenFeatures.ScanStep | src/usaddr.rs:145-156 | One more character adds 1 to the numeric count iff it is numeric, sets the vowel flag iff it is a vowel, and is appended to the cleaned word iff it is alphanumeric |
| TokenFeatures.NumericCountBounds | src/usaddr.rs:145-149 | The numeric count is at most the length; it equals the length iff every character is numeric, and is 0 iff none is |
| TokenFeatures.HasVowelMeaning | src/usaddr.rs:150-152 | The vowel flag is set iff some character is a lower-case `a`, `e`, `i`, `o` or `u` |
| TokenFeatures.HasAlphabeticMeaning | src/usaddr.rs:185 | The `word=` weight test holds iff some character is alphabetic |
| TokenFeatures.CleanWordAppend | src/usaddr.rs:153-155 | The cleaned word of a concatenation is the concatenation of the cleaned words |
| TokenFeatures.CleanWordChar | src/usaddr.rs:153-155 | A single character is kept iff it is alphanumeric |
| TokenFeatures.CleanWordAlphanumeric | src/usaddr.rs:153-155 | The cleaned word is all alphanumeric and no longer than the token |
| TokenFeatures.CleanWordFixed | src/usaddr.rs:153-155 | An all-alphanumeric token is its own cleaned word |
| TokenFeatures.CleanWordIdempotent | src/usaddr.rs:153-155 | Cleaning a cleaned word changes nothing |
| TokenFeatures.DigitClassFeature | src/usaddr.rs:164-182 | `digits=all_digits` iff every character is numeric, the empty token included; `some_digits` iff some are and some are not; `no_digits` iff non-empty with none numeric; weight 1 iff some character is numeric |
| TokenFeatures.DigitsNames | src/usaddr.rs:164-177 | The three `digits=` names are equal exactly when their classes are, so the name identifies the class |
| TokenFeatures.LengthFeatureMeaning | src/usaddr.rs:191-198 | `length=d:` iff every character is numeric, else `length=w:`; the digits after the colon read back as the numeric count; weight 1 |
| TokenFeatures.LengthNameLayout | src/usaddr.rs:192-196 | A `length=` name is `length=`, the one-letter class, `:` and then the count digits, at fixed positions |
| TokenFeatures.WordFeatureMeaning | src/usaddr.rs:183-190 | `word=` followed by the token's alphanumeric characters; weight 1 iff some character is alphabetic |
| TokenFeatures.CharacterFlags | src/usaddr.rs:150-162 | `endsinpunc`, `abbrev` and `trailing.zeros` are 0 for the empty token; `abbrev` implies `endsinpunc`; `trailing.zeros` excludes it; `has.vowels` is 1 iff a lower-case vowel occurs |
| TokenFeatures.FeatureLayout | src/usaddr.rs:175-221 | `TokenFeatureList`: exactly nine features, named in order `digits=…`, `word=…`, `length=…`, `endsinpunc`, `abbrev`, `trailing.zeros`, `street_name`, `directional`, `has.vowels`, every weight 0 or 1; `MakeReplacements`: `street_name` and `directional` weigh 1 iff the lower-cased token is a key of the matching table |
| TokenFeatures.NoBoundaryNames | src/usaddr.rs:175-216 | No token feature is named `address.start` or `address.end` |
| FeatureContext.NewAttributes | src/usaddr.rs:117-122 | Renaming keeps count, order and weights; each name becomes `prefix_name` |
| FeatureContext.NewAttributesAppend | src/usaddr.rs:117-122 | Renaming distributes over concatenation |
| FeatureContext.NewAttributesRoundTrip | src/usaddr.rs:117-122 | Stripping the prefix again recovers the original features |
| FeatureContext.AddFeatureContext | src/usaddr.rs:75-115 | The in-place updates and the two loops compute exactly the `Augmented` specification |
| FeatureContext.MarkersOnly | src/usaddr.rs:78-84 | The markers step appends `address.start` to the first set and `address.end` to the last, nothing else |
| FeatureContext.AugmentOnlyAppends | src/usaddr.rs:75-115 | The number of sets is kept and every input set is a prefix of its output set |
| FeatureContext.AugmentShortSequences | src/usaddr.rs:78-90 | No sets stay no sets; one set gains exactly `address.start` then `address.end` |
| FeatureContext.AugmentedAt | src/usaddr.rs:92-113 | `Augmented`, for two or more sets, in the source's first-match branch order and reading the marked sets before any neighbour feature is added: the first set gains `address.start` and the second set's features (with `address.end` when there are only two) renamed `next_`; the second gains `previous_address.start`, after its own `address.end` when it is last; the set before last, from the third on, gains only `next_address.end`; the last, from the third on, gains `address.end` and the previous set renamed `previous_`; every other set gains the next set renamed `next_` and then the previous renamed `previous_` |
| FeatureContext.RenamedNotBoundary | src/usaddr.rs:117-122 | `next_` and `previous_` copies never carry a boundary-marker name |
| FeatureContext.NeighbourNotBoundary | src/usaddr.rs:94-107 | Nothing a position receives from its neighbours carries a boundary-marker name |
| FeatureContext.MarkedOccurrences | src/usaddr.rs:78-84 | After the markers step, a marker-free set holds `address.start` once iff it is first and `address.end` once iff it is last |
| FeatureContext.BoundaryMarkersOnce | src/usaddr.rs:78-113 | Given marker-free inputs, `address.start` occurs once in the first set and nowhere else, and `address.end` once in the last set and nowhere else |
| FeatureContext.AugmentKeepsBinaryWeights | src/usaddr.rs:75-122 | If every input weight is 0 or 1, every output weight is 0 or 1 |
| FeatureContext.AugmentedShape | src/usaddr.rs:75-122 | For marker-free sets with 0/1 weights: each set is extended, `address.start` occurs once in the first set only, `address.end` once in the last set only, and every weight stays 0 or 1 |
| Grouping.ZipTokensAndTags | src/usaddr.rs:62-64 | The pairs number the shorter of the two inputs, and the i-th pairs the i-th token with the i-th tag |
| Grouping.ZipUnzip | src/usaddr.rs:62-64 | Unzipping recovers both inputs cut to the shorter length |
| Grouping.GroupedSnocJoins | src/usaddr.rs:274-279 | A matching entry is joined to the last group's text with one space |
| Grouping.GroupedSnocStarts | src/usaddr.rs:273-281 | A non-matching entry starts a new group |
| Grouping.GroupByTag | src/usaddr.rs:269-285 | The peeking loop computes exactly the `Grouped` specification |
| Grouping.GroupStartsAt | src/usaddr.rs:273-281 | Taking a pair whose tag differs from the last group's appends a new group holding just that pair |
| Grouping.GroupJoinsAt | src/usaddr.rs:274-279 | Taking a pair with the open group's tag joins its text to that group with one space |
| Grouping.Runs | src/usaddr.rs:269-285 | Every run of equal adjacent tags is non-empty |
| Grouping.RunsArePartition | src/usaddr.rs:269-285 | `Runs`: cuts the input into non-empty single-tag pieces that differ in tag from their neighbours and concatenate back to it |
| Grouping.GroupedIsJoinedRuns | src/usaddr.rs:269-285 | `Grouped`: one output entry per run, carrying the run's tag and its texts joined with single spaces |
| Grouping.GroupedAdjacentDistinct | src/usaddr.rs:269-285 | No two adjacent output entries share a tag |
| Grouping.GroupedTags | src/usaddr.rs:269-285 | The output tags are the input tags with adjacent duplicates collapsed |
| Grouping.GroupedWithoutRepeats | src/usaddr.rs:269-285 | Input with no equal adjacent tags comes out unchanged |
| Grouping.GroupedIdempotent | src/usaddr.rs:269-285 | Grouping twice is grouping once |
| Grouping.GroupingExample | src/usaddr.rs:269-285 | `123/AddressNumber, Main/StreetName, Street/StreetName` groups to `123` and `Main Street` |
| Punctuation.RemoveInsignificantPunctuation | src/usaddr.rs:240-267 | The indexed loop computes exactly the `KeptPrefix` specification |
| Punctuation.KeptIsSubsequence | src/usaddr.rs:240-267 | The output is a subsequence of the input: increasing positions pick it out, and a position is picked iff its character is kept |
| Punctuation.KeepRule | src/usaddr.rs:247-262 | Alphanumerics and whitespace are always kept; `-`, `.` and `/` are kept iff not first or last and both neighbours are numeric; other ASCII punctuation is dropped |
| Punctuation.AllKeptUnchanged | src/usaddr.rs:240-267 | A string whose every character is kept passes unchanged |
| Punctuation.OutputCharacterKept | src/usaddr.rs:240-267 | Every output character would be kept again by a second pass |
| Punctuation.RemovalIdempotent | src/usaddr.rs:240-267 | Removing insignificant punctuation twice is the same as once |
| Pipeline.AddressFeaturesShape | src/usaddr.rs:66-73 | `AddressFeatures`: one set per token, each extending that token's `TokenFeatureList`; `address.start` once in the first set only, `address.end` once in the last set only; every weight 0 or 1 |
| Pipeline.TokenSetsMarkerFree | src/usaddr.rs:67-70 | No token's own feature set carries a boundary-marker name |
| Pipeline.TokenSetsBinary | src/usaddr.rs:67-70 | Every token's own features weigh 0 or 1 |
| Pipeline.ParseOutcome | src/usaddr.rs:45-53 | `Parse`: fails iff the tagger fails, with its error; otherwise the pairs carry the tokens in order, and all tokens with exactly the tags when the tagger labels every position |
| Pipeline.ZippedPrefixes | src/usaddr.rs:62-64 | The pairs hold a prefix of the tokens and of the tags, all of both when the lengths agree |
| Pipeline.CollectOutcome | src/usaddr.rs:55-60 | Collecting succeeds iff every result is a value, then holds each value at its position; otherwise it returns the error of the first failure |
| Pipeline.ParseAddressesOutcome | src/usaddr.rs:55-60 | `ParseAddresses`: the batch succeeds iff every address parses, holding each result at its position; otherwise its error is that of the first failing address |

## Left out

- The trained CRF model and the `crfs` tagger (src/usaddr.rs:39-42, 49-50) are foreign code over an embedded binary. `parse` takes the tagger as a function argument, and its one error stands for both creating the tagger and tagging.
- Rust's Unicode tables are not modelled: `is_numeric`, `is_alphabetic`, `is_whitespace`, `to_lowercase` and NFKD from `unicode_normalization`. They are abstract fields of a `Unicode` record. `Valid` pins the three character classes to Rust's ASCII classes and makes NFKD the identity on ASCII text; `to_lowercase` is left unconstrained, and nothing is assumed outside ASCII.
- The lexicon contents (`STREET_NAMES`, `DIRECTIONALS` in the `abbreviations` module) are not part of this model. Lexicons are abstract maps, and only their keys matter.
- Feature weights are integers 0 and 1 rather than `f64`; the source never produces any other value.
- The `TAGS` table (src/usaddr.rs:8-37) is static data that no modelled operation reads.
- `src/lib.rs`, the wasm-bindgen and JSON marshalling, is boundary glue and is not modelled.
- The tests (`tests/test_tagging.rs`, `tests/web.rs`) read XML files and depend on the trained model, so they are not modelled.
- `parse_addresses` stops calling the tagger at the first failing address. The tagger is a pure function here, so the model captures the result of the batch but not how many times the tagger is called.
- TokenFeatures.GetTokenFeatures: `n_chars` and `numeric_digits` are `i32` in the source (src/usaddr.rs:137-138), while the model counts with unbounded integers. Tokens of 2^31 characters or more, where the source's counters would overflow, are out of scope.
