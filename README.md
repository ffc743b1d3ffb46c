# X12Factory in Dafny

A model of the decoding core of the X12Parser library, `src/X12Parser/X12Factory.cs`, with proofs about it. The core has three parts.

- **Separator resolution** (module `Separators`). `GetMessageSeparators` reads the delimiter set from the fixed-width ISA interchange header of an ASC X12 document. It strips leading U+FEFF characters and finds the first `ISA`. It takes the element separator from the character after `ISA`. It walks ISA01 to ISA16 with the widths 2, 10, 2, 10, 2, 15, 2, 15, 6, 4, 1, 5, 9, 1, 1, 1, checking for the element separator after each of ISA01 to ISA15. The segment terminator is the character after ISA16. The repetition separator ISA11 is kept only when the trimmed ISA12 parses as an integer of at least 501. `GetMessageSeparatorsOrDefault` falls back to `~ * > |`.
- **Schema cache** (module `Schema` and class `Factory.X12Factory`). `CacheProperties` walks a record type's properties in enumeration order and skips those without a `Segment` attribute. It rejects a duplicate order, and an order whose predecessor `Order - 1`, computed in unchecked 32-bit arithmetic, lies above the largest order seen so far (0 before any). It then stores the list under the segment code. `GetPropertiesForType` looks the list up, or gives an empty list.
- **Segment decoding** (module `Factory`). `GetX12Item` splits a segment line on the data element separator, or on `*` and `|` when no separators are given. An unknown code gives a bare record. For a known code it runs, in order:
  - the optional bounds check;
  - blanking of every optional field to `""`;
  - assignment of token `i` to the field of order `i` until a token has no field;
  - checking of each value with `CheckValue` when data checks are on.

The module `Text` models the .NET string operations the core relies on:
- `IndexOf` with ordinal comparison;
- `TrimStart` of U+FEFF, and `Trim`;
- `int.TryParse`;
- `String.Split` on one-character separators.

The module `Wrappers` holds `Option`, `Result` and the two error kinds. `FormatError` stands for `FormatException` and `ArgumentError` for `ArgumentException`.

Reflection is replaced by an explicit registry: a map from type name to the type's properties in enumeration order, each with its `Segment` attribute or none. A decoded record is its code, its index and a map from attributed property name to value, where `None` is a property the decoder does not set (null unless the record type gives it an initialiser).

Every loop of the core is a method proved equal to a specification function; the properties are lemmas about those functions.
- The ISA walk is `WalkFields`, `ReadHeader` and `GetMessageSeparators`, against `Resolve`.
- The `CacheProperties` loop is `BuildPropertyList`, against `Attributed` and `WellOrdered`.
- The two loops of `GetX12Item` are `PopulateRecord`, against `Populate`.

## Behaviour kept as written

In these places the model keeps the code's behaviour, which a reader may not expect:
- **Bounds check.** It compares the number of tokens, the segment code included, with the number of fields. So a complete segment such as `ABC*1*2*3` against three fields is rejected when the bounds check is on (`FullSegmentRejected`, `BoundsCheckRejectsFullSegment`).
- **Distinct delimiters.** Nothing checks that the resolved delimiters are distinct (`SameTerminatorAndElementSeparator`).
- **Orders below 1.** An order `o` is accepted when it is new and `o - 1` is at most the largest order seen so far. So orders from `int.MinValue + 1` to 0 pass while that largest order is at least -1 (`NonPositiveOrdersAccepted`). A negative first order replaces the starting value 0, after which order 0 is a gap (`NegativeOrderLowersBar`). After order 1, a negative order changes nothing (`NegativeAfterOneHarmless`).
- **Least order.** `int.MinValue - 1` wraps around to `int.MaxValue`, so an order of `int.MinValue` is accepted only after an order of `int.MaxValue` (`MinOrderRejected`, `MinOrderNeedsMax`).
- **Unreachable guards.** The ISA16 length check at line 206 can never fire, since ISA16 is always exactly one character; `ReadHeader` asserts this. In `CheckValue` the two inverted-bounds guards test the same condition, and together they add nothing to the two length checks (`InvertedBoundsGuardRedundant`).
- **Default separators.** With no separators given, `*` and `|` both split; neither is tried first (`EitherDefaultSeparator`).

## Model

| member | source | states |
|---|---|---|
| Text.IndexOf | src/X12Parser/X12Factory.cs:151 | the result is the least position where the pattern occurs, and None exactly when it occurs nowhere |
| Text.IndexOfExtend | src/X12Parser/X12Factory.cs:151 | appending text does not move an occurrence already found |
| Text.TrimStartBom | src/X12Parser/X12Factory.cs:148 | the result is a suffix of the input, everything cut off is U+FEFF, and the result does not start with U+FEFF |
| Text.TrimStartBomAppend | src/X12Parser/X12Factory.cs:148 | stripping marks from a text with a non-mark character commutes with appending |
| Text.Trim | src/X12Parser/X12Factory.cs:215 | the result is the input with leading and trailing whitespace removed, and has no whitespace at either end |
| Text.TrimWhiteSpaceOnly | src/X12Parser/X12Factory.cs:212 | blank text trims to the empty string |
| Text.ParseInt | src/X12Parser/X12Factory.cs:215 | a parsed value lies in the 32-bit signed range |
| Text.ParseIntDigits | src/X12Parser/X12Factory.cs:215 | up to nine digits parse to their decimal value |
| Text.ParseIntUnsigned | src/X12Parser/X12Factory.cs:215 | a run of digits parses to its value when that is at most `int.MaxValue`, and fails otherwise |
| Text.ParseIntNegative | src/X12Parser/X12Factory.cs:215 | a minus sign before a run of digits parses to the negated value when that is at least `int.MinValue`, and fails otherwise |
| Text.ParseIntShowNat | src/X12Parser/X12Factory.cs:215 | the decimal text of every non-negative 32-bit value parses back to it |
| Text.ParseIntNegShowNat | src/X12Parser/X12Factory.cs:215 | a minus sign before the decimal text of a value in range parses to its negation |
| Text.Split | src/X12Parser/X12Factory.cs:69 | at least one token, and no token contains a separator |
| Text.SplitWeave | src/X12Parser/X12Factory.cs:69 | splitting yields one token more than there are separators, and re-weaving the tokens with those separators gives back the line |
| Text.JoinSplit | src/X12Parser/X12Factory.cs:69 | joining the tokens of a single-separator split gives back the line |
| Text.SplitJoin | src/X12Parser/X12Factory.cs:69 | splitting a join of separator-free tokens gives back the tokens |
| Text.SplitWeaveInverse | src/X12Parser/X12Factory.cs:68-69 | splitting separator-free tokens woven with any of several separators gives back the tokens |
| Separators.HeaderSeparators | src/X12Parser/X12Factory.cs:220-226 | every delimiter of a header read in full is one character |
| Separators.ResolveHeader | src/X12Parser/X12Factory.cs:150-207 | after the marks are stripped, resolution succeeds exactly when `ISA` occurs and the header there is complete with every separator in place; every failure is a format error |
| Separators.Resolve | src/X12Parser/X12Factory.cs:142-145 | the argument error is raised exactly for empty text |
| Separators.HeaderSucceeds | src/X12Parser/X12Factory.cs:150-201 | reading a stripped text succeeds exactly when it contains `ISA`, holds 106 characters from there, and has the separator of position 3 at all 15 separator positions |
| Separators.ResolveSucceeds | src/X12Parser/X12Factory.cs:142-201 | success exactly when the text is not empty and, after its marks are stripped, contains `ISA`, holds 106 characters from there, and has the separator of position 3 at all 15 separator positions |
| Separators.ResolvedSeparators | src/X12Parser/X12Factory.cs:159-225 | on success: element separator at 3, component separator at 104, terminator at 105, and the repetition separator is ISA11 at 82 exactly when ISA12 (84 to 88) marks 00501 or later, else absent |
| Separators.ResolveAt | src/X12Parser/X12Factory.cs:147-153 | with `ISA` found at `p`, resolution reduces to reading the header at `p` |
| Separators.GetMessageSeparators | src/X12Parser/X12Factory.cs:140-229 | the method returns exactly `Resolve(text)` |
| Separators.WellFormedAt | src/X12Parser/X12Factory.cs:171-201 | the header at `p` has all 106 characters and the element separator after each of ISA01 to ISA15, so the terminator lies inside the text and the separator directly precedes ISA16 |
| Separators.LayoutAt | src/X12Parser/X12Factory.cs:163-165 | the width table `IsaFieldLengths` has sixteen entries and agrees with the offset tables: each field starts at 4 or one past the previous separator, and ends where the next separator, or after ISA16 the terminator, sits |
| Separators.ReadHeader | src/X12Parser/X12Factory.cs:156-228 | from `ISA` at `p`: the header's separators when it is well formed, a format error otherwise |
| Separators.IsVersion00501OrHigher | src/X12Parser/X12Factory.cs:211-216 | ISA12 marks 00501 or later when its trimmed text parses as at least 501; blank text, which the whitespace guard skips, never does |
| Separators.WalkFields | src/X12Parser/X12Factory.cs:161-197 | the walk completes exactly when the text reaches ISA16 and the element separator follows each of ISA01 to ISA15; the cursor then stands at the terminator and ISA11, ISA12 and ISA16 are the fixed slices |
| Separators.Default | src/X12Parser/X12Factory.cs:279-283 | the default separators are four distinct one-character delimiters, with a repetition separator present |
| Separators.GetMessageSeparatorsOrDefault | src/X12Parser/X12Factory.cs:128-138 | never fails: the resolved separators on success, the defaults `~ * > \|` otherwise |
| Separators.TruncatedEnvelopeFails | src/X12Parser/X12Factory.cs:156-201 | cutting a resolvable text anywhere before the end of its header makes it fail |
| Separators.ResolveIgnoresTrailingText | src/X12Parser/X12Factory.cs:151-203 | text after a resolvable header does not change the result |
| Separators.LeadingBomIgnored | src/X12Parser/X12Factory.cs:147-148 | a leading U+FEFF does not change the result |
| Separators.VersionThreshold | src/X12Parser/X12Factory.cs:209-217 | for a five-digit ISA12, the 00501 test holds exactly when its value is at least 501 |
| Separators.ComposeResolves | src/X12Parser/X12Factory.cs:155-226 | a header built from sixteen fields of the standard widths resolves to its own separator, terminator, ISA16, and ISA11 as the version decides |
| Separators.Version00501Example | src/X12Parser/X12Factory.cs:209-225 | ISA12 `00501` keeps ISA11 as the repetition separator |
| Separators.Version00401Example | src/X12Parser/X12Factory.cs:209-225 | ISA12 `00401` gives no repetition separator |
| Separators.BlankVersionExample | src/X12Parser/X12Factory.cs:211-212 | a blank ISA12 gives no repetition separator |
| Separators.SameTerminatorAndElementSeparator | src/X12Parser/X12Factory.cs:199-203 | a header whose terminator equals its element separator still resolves |
| Schema.Attributed | src/X12Parser/X12Factory.cs:239-242 | the cached list is no longer than the property list |
| Schema.AttributedAppend | src/X12Parser/X12Factory.cs:239-258 | the attributed list of a concatenation is the concatenation of the attributed lists, so enumeration order is kept |
| Schema.MaxKey | src/X12Parser/X12Factory.cs:245-248 | the largest order seen is one of the orders seen |
| Schema.Admits | src/X12Parser/X12Factory.cs:243-250 | one field's duplicate and gap tests; an admitted order is at most one above the largest order seen so far |
| Schema.MaxKeyBound | src/X12Parser/X12Factory.cs:247 | no order seen exceeds it |
| Schema.OrderPred | src/X12Parser/X12Factory.cs:250 | the result is `o - 1` modulo 2^32, within the 32-bit range |
| Schema.WellOrdered | src/X12Parser/X12Factory.cs:243-250 | the per-field duplicate and gap tests applied in turn; an accepted list starts with an order of at most 1 that is not `int.MinValue` |
| Schema.WellOrderedEvery | src/X12Parser/X12Factory.cs:243-251 | a list is well ordered exactly when every field is admitted by the fields before it: its order is new and its 32-bit predecessor is at most their largest order |
| Schema.BuildPropertyList | src/X12Parser/X12Factory.cs:231-259 | the loop succeeds exactly when the attributed list is well ordered, with the 32-bit predecessor in the gap test, then returns that list; every failure is an argument error |
| Schema.Rejected | src/X12Parser/X12Factory.cs:243-250 | an order refused at one step makes the whole list ill ordered |
| Schema.WellOrderedDistinct | src/X12Parser/X12Factory.cs:243-244 | the orders of an accepted list are pairwise distinct |
| Schema.WellOrderedContiguous | src/X12Parser/X12Factory.cs:245-251 | a positive order occurs in an accepted list exactly when it is at most the largest order |
| Schema.PositiveWellOrdered | src/X12Parser/X12Factory.cs:243-251 | with positive orders, a list is accepted exactly when its orders are 1, 2, 3, ... in list order |
| Schema.CountedOrders | src/X12Parser/X12Factory.cs:245-251 | orders 1 to n have largest order n and are exactly the set 1 to n |
| Schema.CheckValue | src/X12Parser/X12Factory.cs:264-273 | accepts exactly an empty optional value, or a length within the bounds present when the bounds are not inverted |
| Schema.InvertedBoundsGuardRedundant | src/X12Parser/X12Factory.cs:267-272 | the inverted-bounds guards change nothing: acceptance is an empty optional value or a length within the bounds |
| Schema.GapRejected | src/X12Parser/X12Factory.cs:250 | orders 1, 2, 4 are rejected |
| Schema.DuplicateRejected | src/X12Parser/X12Factory.cs:243-244 | orders 1, 2, 2 are rejected |
| Schema.SkipUnattributed | src/X12Parser/X12Factory.cs:242 | a property without attribute is left out of the list |
| Schema.RunAccepted | src/X12Parser/X12Factory.cs:243-251 | orders 1, 2, 3 are accepted |
| Schema.NonPositiveOrdersAccepted | src/X12Parser/X12Factory.cs:236-250 | orders 0, 1, -3 are accepted |
| Schema.NegativeOrderLowersBar | src/X12Parser/X12Factory.cs:236-250 | orders -5, 0 are rejected: after -5 the largest order is -5 and 0 is a gap |
| Schema.NegativeAfterOneHarmless | src/X12Parser/X12Factory.cs:243-250 | orders 1, -5, 0 are accepted: after 1 the largest order stays 1, so neither -5 nor 0 is a gap |
| Schema.MinOrderRejected | src/X12Parser/X12Factory.cs:250 | a first field of order `int.MinValue` is rejected, since its predecessor wraps to `int.MaxValue` |
| Schema.MinOrderNeedsMax | src/X12Parser/X12Factory.cs:243-250 | order `int.MinValue` is admitted exactly when it is new and the largest order so far is `int.MaxValue` |
| Schema.EmptyValueExamples | src/X12Parser/X12Factory.cs:266-271 | an empty optional value passes below its minimum length; the same value fails when mandatory, as does a short non-empty one |
| Factory.FindByOrder | src/X12Parser/X12Factory.cs:112 | the first field with the order, or None exactly when no field has it |
| Factory.FieldValue | src/X12Parser/X12Factory.cs:102-122 | the value a field holds after both loops: an optional field is never null, and a mandatory one is set only by the token of its own order, reached before the first gap |
| Factory.FirstGap | src/X12Parser/X12Factory.cs:109-113 | every token before the stopping point has a field, and the token there has none unless it is the end |
| Factory.Populate | src/X12Parser/X12Factory.cs:102-123 | the record both loops fill: every field is a key and only fields are; it fails only with an argument error, and only when value checks are on |
| Factory.ToRecord | src/X12Parser/X12Factory.cs:105-122 | each field's value is stored under its name, and only field names are keys |
| Factory.Decode | src/X12Parser/X12Factory.cs:84-100 | a record carries the code and index; the format error is raised exactly when bounds are checked and the tokens outnumber the fields |
| Factory.PopulateRecord | src/X12Parser/X12Factory.cs:102-123 | the two loops return exactly `Populate`: blanked optional fields, tokens assigned up to the first gap, the argument error when a value check fails |
| Factory.AttributedNames | src/X12Parser/X12Factory.cs:239-258 | every cached field is named after a property of the type |
| Factory.AttributedDistinct | src/X12Parser/X12Factory.cs:239-258 | distinct property names give distinct field names |
| Factory.ExcessTokensIgnored | src/X12Parser/X12Factory.cs:109-113 | without the bounds check, decoding depends only on the tokens before the first token with no field |
| Factory.PositionalExcessIgnored | src/X12Parser/X12Factory.cs:109-113 | with orders 1 to n and no bounds check, tokens after the first n + 1 do not change the result |
| Factory.PositionalDecode | src/X12Parser/X12Factory.cs:102-123 | with orders 1 to n: field `x` gets token `x + 1` if there is one, else "" when optional and null when not; the value checks fail exactly when an assigned token fails its field's check |
| Factory.PositionalFields | src/X12Parser/X12Factory.cs:109-122 | with orders 1 to n and no failing check, every field is in the record with its positional value |
| Factory.EncodeDecode | src/X12Parser/X12Factory.cs:68-123 | values joined with the element separator after a code decode back to the same values, field by field |
| Factory.FullSegmentRejected | src/X12Parser/X12Factory.cs:97-100 | with the bounds check on, a segment with one value per field is a format error |
| Factory.FindClasses | src/X12Parser/X12Factory.cs:39-62 | the registry holds the internal types, with external types of the same name replacing them and new ones added |
| Factory.SplitSet | src/X12Parser/X12Factory.cs:68 | `*` and `\|` without separators, otherwise the data element separator |
| Factory.Tokens | src/X12Parser/X12Factory.cs:69-70 | a line always has a first token, the segment code |
| Factory.Item | src/X12Parser/X12Factory.cs:64-126 | a record carries the first token and the index; an unknown code gives a bare record; the format error comes exactly from a known, well-ordered type under the bounds check with more tokens than fields |
| Factory.X12Factory.constructor | src/X12Parser/X12Factory.cs:22-26 | the registry is `FindClasses` of the assemblies and the cache starts empty |
| Factory.X12Factory.GetPropertiesForType | src/X12Parser/X12Factory.cs:33-37 | an uncached code gives the empty list; a cached one gives the type's well-ordered attributed list |
| Factory.X12Factory.CacheProperties | src/X12Parser/X12Factory.cs:231-262 | succeeds exactly when the code is not yet cached and its list is well ordered (gap test on the 32-bit predecessor), and then adds that list; on failure the cache is unchanged |
| Factory.X12Factory.GetX12Item | src/X12Parser/X12Factory.cs:64-126 | takes the defaults of line 64 (value checks on, bounds check off, no separators); returns `Item`, keeps the cache valid, and changes it only by adding the looked-up code's list when it is missing and well ordered |
| Factory.CacheGrowsOnly | src/X12Parser/X12Factory.cs:90-95 | a lookup never changes or removes a cached list and adds only the looked-up code |
| Factory.CacheAfter | src/X12Parser/X12Factory.cs:90-93 | the cache after a lookup gains at most the looked-up code, and only with that type's well-ordered attributed list |
| Factory.CacheIdempotent | src/X12Parser/X12Factory.cs:90-93 | looking a code up twice leaves the cache as looking it up once |
| Factory.BoundsCheckRejectsFullSegment | src/X12Parser/X12Factory.cs:97-100 | `ABC*1*2*3` against three fields with the bounds check on is a format error |
| Factory.SampleDecoded | src/X12Parser/X12Factory.cs:109-123 | `ABC*1*2*3` without the bounds check assigns 1, 2 and 3 to A, B and C |
| Factory.ExcessTokenExample | src/X12Parser/X12Factory.cs:109-113 | `ABC*1*2*3*4` without the bounds check decodes as `ABC*1*2*3` |
| Factory.EitherDefaultSeparator | src/X12Parser/X12Factory.cs:68-69 | with no separators, `AB\|1*2` splits into `AB`, `1`, `2` |
| Factory.UnknownCodeExample | src/X12Parser/X12Factory.cs:71-80 | an unknown code gives a record with only the code and index |

## Left out

- Reflection. `Assembly.GetTypes`, the `BaseType` and `IsSubclassOf` filters, `Activator.CreateInstance`, `GetCustomAttribute` and `PropertyInfo.SetValue` are runtime reflection. The registry handed to the constructor replaces them. The external assembly is an optional registry; when it is the factory's own assembly it counts as absent.
- `FindClasses`: it is public in the source, and calling it again replaces the registry and empties the cache (line 41). In the model the registry is fixed when the factory is built and the cache only grows, so a repeated call is not modelled. The exception `ToDictionary` raises for two types of the same name in one assembly cannot arise, since a registry is a map.
- `DumpProperties`: debug output through an extension method that is not part of this model.
- `INCLUDERAW`: the raw value the records carry under this compile-time option.
- Exception message texts and `previousOrder`, which only feeds a message.
- Culture and number styles. `int.TryParse` is modelled as an optional sign and decimal digits after trimming. `char.IsWhiteSpace` is modelled on the ASCII whitespace characters only.
- Thread safety of the cache: the model is single-threaded.
- Null strings: arguments are never null in the model, and null appears only as a property value.
- Factory.X12Factory.GetX12Item, Factory.Item, Factory.Tokens, Factory.SplitSet: require the given data element separator to be exactly one character. `String.Split` on a longer or empty separator string is not modelled.
- Factory.X12Factory.GetX12Item: only the attributed properties of a record are modelled. Others stay at their default. A mandatory attributed property that no token reaches is `None` in the model. In the source it keeps the value its initialiser gives, since `Activator.CreateInstance` at line 83 runs the initialisers, and it is null only when there is none.
- Factory.Item: requires the properties of each registered type to have distinct names. `Type.GetProperties` can list two properties of one name when a derived type hides a base property with `new`; that case is not modelled.
- Factory.Decode: the record under construction is a sequence of values parallel to the field list, turned into a map by name at the end. The source sets each value through that field's own `PropertyInfo`, so the two agree.
- Text encoding. Strings are sequences of Unicode scalar values, while .NET `Length`, `Substring` and indexing count UTF-16 code units. `CheckValue` lengths and the ISA offsets therefore differ from the source for characters outside the Basic Multilingual Plane. A one-character value such as U+1D11E counts as two units there, so against a maximum of 1 it is too long in the source and accepted here.
- Aliasing. `GetPropertiesForType` hands out the live cached `List`, which a caller can change. `GetMessageSeparatorsOrDefault` returns the one shared, mutable `MessageSeparators.Default` object. The model returns values, so neither sharing is captured.
