# Verification of the prefetch test bench

Dafny models, with proofs, of the parts of this repository that hold exact algorithms:

* **The result files.** `Dump`, `Pretty` and `Parse` are the json11 printer, the repository's own pretty-printer and the json11 parser.
  `JsonGrammar` is an independent description of JSON texts and their meaning (sections 2 to 7 of RFC 8259, section 3 of RFC 3629 for UTF-8):
  trees, the text of a tree, the value of a tree. The parser is proved equivalent to it, the printer to be inverted by it, doubles included,
  and for the pretty-printer, which rewrites characters without knowing JSON, it is proved exactly which values survive.
* **The stride experiments.** The loops that touch memory, the closed-form oracle that predicts what they touch, the collection of a histogram
  (every line in turn, or only the lines on the stride grid) and the verdict on each line.
* **Pointer structures.** The random linked list and the blinded pointer array of the two external tests with their assembly loops, and the affine line permutation.

The pure code of the original is modelled by functions; loops and objects are methods and classes, each proved against a function or a direct statement of its result,
and the theorems are about those functions. A `std::string` is a Dafny string whose characters are its bytes; reading at index `size()` yields NUL (`Peek`).
An object is the entry list of its `std::map`, with strictly increasing keys. Time measurements and random numbers are arbitrary functions of their index.
Machine integers are written out where they wrap (`ToInt`, `ToSize`, the indentation counter, the address arithmetic of the backward walk).
A double is the real number it holds, and `Doubles.Round` is the rounding to 53 bits, subnormal numbers and overflow included; a number beyond all finite doubles stands for infinity, and negative zero is a value of its own.

Where the code and its comments disagree, the model follows the code:

* A failed parse is documented to return null, and `Json::parse` does. Inside, a broken string literal makes `parse_json` return the empty string (json11.cpp:485, 495 and 507 with json11.cpp:665-666 and json11.hpp:97), and `parse_multi` pushes it: one quotation mark and an `a` give one value, the empty string (`JsonStream.BrokenStringPushed`, and exactly when: `JsonStream.BrokenStringIff`).
* The pretty-printer drops every colon inside a string and loses track of strings that end in a backslash (`PrettyExact.PrettyDamages`); printing twice can differ from printing once (`PrettyExact.PrettyNotIdempotent`, and exactly when: `PrettyExact.DumpTwice`; for texts with a line break inside a string the condition is sufficient only, `PrettyNormal.TornUnnoticed`).
* The lazy collection is documented to report values from 0 to 1000. A line listed twice is scaled twice (`LazyProbing.NarrowStrideScaledTwice`). That happens exactly if the stride is shorter than a line and two neighbouring grid offsets of the mapping share one (`LazyProbing.DistinctIff`): for strides up to half a line always, for all strides below a line in mappings of a page or more (`LazyProbing.NarrowStridesRepeat`).
* The full scan reports more than 1000 for a line that was probed once more than there are full rounds, hit every time, if there are at most a thousand rounds; so its scale is kept for certain if and only if the repetitions are a multiple of the lines or more than a thousand times as many (`Histogram.ScaleKept`).
* The 2-D oracle misses the last load of every backward run, and of forward runs shorter than two bytes, and also accepts the mirror image of the first period on the far side of the first access (`Stride2D.AccessedIffLoaded`). With steps of both directions it also goes wrong in the midst of a run (`Stride2D.MixedStepsMissed`).
* The length of a 2-D run is cast to `int`. If the cast turns it round, the loop does not stop (`Stride2D.RunEndsIff`).
* Prefetches are to be looked for where nothing was loaded. In two dimensions the end of every run is loaded and a candidate all the same, because the 2-D `cl_potential_prefetch` does not leave out what was accessed: it is marked whenever its count clears noise and threshold (`Evaluate.MarkedNotLoaded2D`). So `test_2D_steps` reports a prefetch that is its own load, byte 512, whatever the prefetcher does, as long as the probes are right (`Detection.StepsTestMarksOwnLoad`).
* When misses average above hits, the unsigned difference wraps. With the default multiplier of 1/64 nothing is reported then (`Evaluate.DefaultOutOfReach`), with others exactly if the product lies beyond the counts (`Evaluate.MissesAboveHits`).
* The threshold is meant to lie between the averages. If the conversion to `double` rounds their difference up, some multiplier up to one lifts it above the hits (`Evaluate.ThresholdBetweenIff`); differences of up to 53 bits are exact.
* The guard of `setup_pointers` lets two array sizes through for which no free target is left (`Parr.SetupEndsIff`). An empty target array with at most one pointer passes it, too; there the remainder by zero is undefined.
* The pointer-array test adds its offset to the measured pointer before unblinding it, which can miss the documented distance from the entry unless the key lies below the offset's lowest bit (`Parr.OffsetUnderKey`).
* The pseudocode above the pointer-array walk runs one round more than the assembly code.
* Before the chase, `access_pages` itself loads every 32nd node, which can be the one to be measured (`Pchase.PageTouchesNode`); before the walk, every target that lies whole pages behind the first, the measured one included (`Parr.MeasuredTouchedIff`).

## Modules

| files | content |
|---|---|
| `ByteStrings`, `Utf8`, `JsonValues`, `JsonOrder` | strings as bytes, UTF-8, values, `==` and `<` |
| `JsonLexical` | characters and numerals, for the grammar and the parser alike |
| `JsonGrammar` | the grammar of JSON texts and their meaning, escapes included; it does not refer to the parser |
| `JsonParserSpec`, `JsonParser` | the parser as functions, and the class with its cursor proved against them |
| `JsonStrings`, `JsonNumbers`, `JsonComplete`, `JsonSound`, `JsonTheorems`, `JsonComments` | the parser accepts exactly the grammar; comments are whitespace |
| `JsonEscapes`, `JsonLimits`, `JsonMembers` | what escapes, integers, nesting and repeated keys mean, in concrete numbers |
| `JsonErrors`, `JsonPlaces` | what broken texts are refused with |
| `Doubles`, `Rounding` | rounding to doubles, its order, and why seventeen digits suffice |
| `JsonDump`, `JsonLayout`, `JsonPrinted`, `JsonClean`, `JsonNumerals`, `JsonRoundTrip`, `JsonStable`, `JsonPrefix`, `JsonStream`, `JsonJunctions` | the printer, its output, its numbers, its inverse, streams of values |
| `PrettyPrint`, `PrettyStrings`, `PrettyValues`, `PrettyDocs`, `PrettyBroken`, `PrettyExact`, `PrettyNormal` | the pretty-printer |
| `StrideModel`, `StrideJson` | experiments, their files |
| `CArithmetic`, `StrideOracle`, `Stride2D` | C integer arithmetic, workloads and oracles |
| `Histogram`, `LazyProbing`, `Evaluate`, `Detection` | collection, evaluation, and both together |
| `Bits`, `Choices`, `Pages`, `Mapping`, `Pchase`, `Parr` | bit operations, rejection sampling, page touching, permutation, pointer tests |

## Model

| member | source | states |
|---|---|---|
| JsonTheorems.ParserIsGrammar | 3rdparty/json11/json11.cpp:644-744 | `Json::parse` in STANDARD mode succeeds with `v` exactly on the texts of the JSON grammar, nested at most 200 deep, that mean `v` |
| JsonTheorems.ParseComplete | 3rdparty/json11/json11.cpp:644-744 | every text of the grammar with whitespace around it parses to its meaning in both modes, and if it nests deeper than 200 it fails with the depth error |
| JsonTheorems.ParseSound | 3rdparty/json11/json11.cpp:644-744 | whatever parses is a text of the grammar, and a tree that spells it out can be given |
| JsonTheorems.CommentsConservative | 3rdparty/json11/json11.cpp:424-435 | allowing comments changes nothing for JSON texts without comments |
| JsonComments.CommentIs | 3rdparty/json11/json11.cpp:386-418 | what is skipped as a comment is exactly a line or block comment, up to its first end |
| JsonComments.CommentsAreBlanks | 3rdparty/json11/json11.cpp:424-449 | COMMENTS mode accepts a text if and only if STANDARD mode accepts it with every comment outside strings blanked, and with the same value |
| JsonComments.CommentsParserIsGrammar | 3rdparty/json11/json11.cpp:732-744 | so in COMMENTS mode the parser succeeds with `v` exactly on the texts that are JSON texts of `v` once their comments are blanked |
| JsonComments.ValueSame | 3rdparty/json11/json11.cpp:644-728 | the same for a value at any position and depth, with the cursors in step |
| JsonComplete.ValueComplete | 3rdparty/json11/json11.cpp:644-728 | a value behind any whitespace at any depth is read up to its last character, or refused with the depth error if and only if its brackets exceed the depth that is left |
| JsonSound.ValueSound | 3rdparty/json11/json11.cpp:644-728 | from a successful run the tree that was read can be rebuilt, with its text in place and its depth within bounds |
| JsonStrings.RunMeaning | 3rdparty/json11/json11.cpp:480-567 | the machine with its pending code point writes what left-to-right UTF-16 pairing followed by UTF-8 gives, for every mix of escapes and raw bytes |
| JsonStrings.StringComplete | 3rdparty/json11/json11.cpp:480-567 | every well-formed literal is accepted with its meaning, up to the closing quote |
| JsonStrings.StringSound | 3rdparty/json11/json11.cpp:480-567 | every accepted literal is well-formed: no control byte, only known escapes, four hexadecimal digits |
| JsonStrings.EscapesAgree | 3rdparty/json11/json11.cpp:548-563 | the escapes of the parser are those of the grammar, with the same code points |
| JsonStrings.StringControl | 3rdparty/json11/json11.cpp:494-495 | an unescaped control byte behind any items is refused |
| Utf8.Combine | 3rdparty/json11/json11.cpp:536-537 | a merged pair is the code point from 0x10000 to 0x10FFFF whose upper ten bits, counted from 0x10000, are in the first surrogate and whose lower ten in the second |
| Utf8.DecodeEncode | 3rdparty/json11/json11.cpp:455-474 | a decoder that looks at the first bytes only recovers the code point and its length; merged pairs take four bytes, nothing else does |
| Utf8.EncodeInjective | 3rdparty/json11/json11.cpp:455-474 | two code points never share an encoding |
| JsonEscapes.EscapedText | 3rdparty/json11/json11.cpp:480-567 | any Unicode text written as `\u` escapes, in upper or lower case, with two for a code point beyond 0xFFFF, parses to its UTF-8 |
| JsonEscapes.TwoEscapes | 3rdparty/json11/json11.cpp:518-546 | two escapes are one code point if the first is a high and the second a low surrogate, otherwise each stands for itself |
| JsonEscapes.HexSpelled | 3rdparty/json11/json11.cpp:520-526 | four characters are read as the number whose hexadecimal digits they are, and nothing else is accepted |
| JsonNumbers.NumberComplete | 3rdparty/json11/json11.cpp:573-622 | every number of the grammar that ends where it stands is read whole: an int if it has no fraction or exponent and at most nine characters, otherwise the double next to its exact value, with the sign of zero |
| JsonNumbers.NumberSound | 3rdparty/json11/json11.cpp:573-622 | whatever is read is a number of the grammar, without leading zeros, and nothing of it is left over |
| JsonLimits.ShortIntegers | 3rdparty/json11/json11.cpp:592-595 | integers of up to nine characters, the sign included, become ints, the other integers that fit one become doubles of the same value |
| JsonLimits.NestingLimit | 3rdparty/json11/json11.cpp:646-648 | arrays may be nested 201 deep and no deeper |
| JsonLimits.BlanksAround | 3rdparty/json11/json11.cpp:377-380 | space, tab, line feed and carriage return around a text make no difference |
| JsonMembers.LastMemberCounts | 3rdparty/json11/json11.cpp:670-701 | an object parses to a map with increasing keys that holds, of the members with one key, the last |
| JsonPlaces.ErrorSurfaces | 3rdparty/json11/json11.cpp:670-725 | whatever a value is refused with, at any place behind complete items and members of any number of open arrays and objects, is what the whole text is refused with, whatever follows |
| JsonPlaces.FirstError | 3rdparty/json11/json11.cpp:732-744 | so `Json::parse` reports the first error from the left |
| JsonPlaces.CommaInList | 3rdparty/json11/json11.cpp:715-719 | an item with neither comma nor bracket behind it is refused with the character that stands there |
| JsonPlaces.QuoteInObject | 3rdparty/json11/json11.cpp:676-678 | so is what is no quotation mark where a key is due, a brace behind a comma included |
| JsonPlaces.ColonInObject | 3rdparty/json11/json11.cpp:684-686 | so is what is no colon behind a key |
| JsonPlaces.CommaInObject | 3rdparty/json11/json11.cpp:692-696 | so is what is neither comma nor brace behind a member |
| JsonPlaces.KeyInObject | 3rdparty/json11/json11.cpp:680-682 | a key that is no literal is refused with the error of the literal |
| JsonErrors.StringErrors | 3rdparty/json11/json11.cpp:480-567 | a literal is refused at the first thing in it that is no item, with the error for it |
| JsonErrors.WholeErrors | 3rdparty/json11/json11.cpp:579-590 | a number without digits is refused with the character that stands there, one with a leading zero as such |
| JsonErrors.FractionError | 3rdparty/json11/json11.cpp:598-601 | a point without a digit behind it is refused as such |
| JsonErrors.ExponentError | 3rdparty/json11/json11.cpp:608-615 | so is an exponent without a digit, signed or not |
| JsonErrors.LiteralError | 3rdparty/json11/json11.cpp:629-638 | a literal that is not spelled out is reported with what stands in its place |
| JsonErrors.ValueError | 3rdparty/json11/json11.cpp:727-728 | a character that starts no value is reported where a value is due |
| JsonErrors.EndError | 3rdparty/json11/json11.cpp:442-449 | if nothing but whitespace is left there, the end of the input is |
| JsonErrors.CommentErrors | 3rdparty/json11/json11.cpp:386-418 | a comment that breaks off or is none is refused with the error for it, and in STANDARD mode the slash of any comment is |
| JsonErrors.TrailingError | 3rdparty/json11/json11.cpp:736-741 | anything but whitespace behind a complete value is reported as trailing |
| JsonParserImpl.JsonParser.FailWith | 3rdparty/json11/json11.cpp:357-371 | the first error of a parse is kept, later ones are dropped |
| JsonParserImpl.JsonParser.ConsumeWhitespace | 3rdparty/json11/json11.cpp:377-380 | moves to the first character that is no whitespace, never past the NUL |
| JsonParserImpl.JsonParser.ConsumeComment | 3rdparty/json11/json11.cpp:386-418 | skips one line or block comment, or fails where it is cut off, reading nothing beyond the NUL |
| JsonParserImpl.JsonParser.ConsumeGarbage | 3rdparty/json11/json11.cpp:424-435 | skips whitespace and, in COMMENTS mode, comments; terminates |
| JsonParserImpl.JsonParser.GetNextToken | 3rdparty/json11/json11.cpp:442-449 | returns the next token and moves behind it, or fails at the end |
| JsonParserImpl.JsonParser.ParseStringLiteral | 3rdparty/json11/json11.cpp:480-567 | the loop with its cursor computes the string function, error included; the empty string when it fails |
| JsonParserImpl.JsonParser.ParseUnicodeEscape | 3rdparty/json11/json11.cpp:511-546 | the part behind `\u`: four digits, then merging with or flushing the pending code point |
| JsonParserImpl.JsonParser.ParseNumberLiteral | 3rdparty/json11/json11.cpp:573-622 | the cursor steps through a number as the number function says |
| JsonParserImpl.JsonParser.ExpectLiteral | 3rdparty/json11/json11.cpp:629-638 | accepts the literal that starts one character back, or fails |
| JsonParserImpl.JsonParser.ParseJson | 3rdparty/json11/json11.cpp:644-728 | on any input and mode: the result, cursor and first error are those of the parser function, what a failed parse returns is the empty string for a broken literal and null otherwise, depth never exceeds the limit plus one, and the recursion terminates |
| JsonParserImpl.JsonParser.ParseObject | 3rdparty/json11/json11.cpp:670-701 | the object loop, with its sticky failure flag |
| JsonParserImpl.JsonParser.ParseArray | 3rdparty/json11/json11.cpp:703-725 | the array loop, which steps the cursor back before every item and still terminates |
| JsonParserImpl.Parse | 3rdparty/json11/json11.cpp:732-744 | the entry point: a value with nothing but garbage behind it, or null and the first error |
| JsonParserImpl.ParseMulti | 3rdparty/json11/json11.cpp:747-766 | the stream loop computes values, stop position and error of the stream function, which pushes what a failed value returned |
| JsonStream.BrokenStringIff | 3rdparty/json11/json11.cpp:665-666 | a value that fails is the empty string if and only if it is a string literal that is broken, within the depth limit, and null otherwise |
| JsonStream.BrokenStringPushed | 3rdparty/json11/json11.cpp:747-766 | a stream that is broken off in its first literal has one value, the empty string |
| JsonDump.DumpString | 3rdparty/json11/json11.cpp:77-112 | the escaping loop, with its look-ahead of two bytes, appends exactly the literal |
| JsonDump.DumpValue | 3rdparty/json11/json11.cpp:53-75 | appends the text of any value, `"%.17g"` in fixed and exponent notation included |
| JsonDump.DumpArray | 3rdparty/json11/json11.cpp:114-124 | the loop that separates items by a leading comma |
| JsonDump.DumpObject | 3rdparty/json11/json11.cpp:126-138 | the loop over the members of a map |
| JsonPrinted.PrintedForm | 3rdparty/json11/json11.cpp:57-65 | what is printed for a finite double other than zero: a number of the grammar with its sign and the value of seventeen digits next to it, ties to even; no digit is superfluous, and there is an exponent if and only if that value is below 10^-4 or at least 10^17 |
| JsonPrinted.WholePrinted | 3rdparty/json11/json11.cpp:57-65 | whole doubles below 10^17 are printed like integers |
| JsonPrinted.InfinityPrinted | 3rdparty/json11/json11.cpp:57-65 | a double is printed as null if and only if it is infinite, and negative zero keeps its sign |
| JsonLayout.ArrayJoined | 3rdparty/json11/json11.cpp:114-124 | an array is its items in brackets, a comma and a space between them |
| JsonLayout.ObjectJoined | 3rdparty/json11/json11.cpp:126-138 | an object is its members in braces, a colon and a space behind each key |
| JsonLayout.StringSpelled | 3rdparty/json11/json11.cpp:77-112 | a printed literal is the string between quotation marks with its shortest escapes, and nothing is escaped that need not be |
| JsonRoundTrip.RoundTrip | 3rdparty/json11/json11.cpp:53-138 | parsing the dump of any value, all doubles and arbitrary bytes included, in both modes: values nested deeper than 200 are refused with the depth error, and the others come back equal if and only if they hold no infinity |
| JsonNumerals.DoubleNumberMeaning | 3rdparty/json11/json11.cpp:57-65 | the text of every finite double is a number of the grammar and is read back as that very double, or as the int of the same value |
| Doubles.SeventeenDigitsSuffice | 3rdparty/json11/json11.cpp:57-65 | a double is the one next to the value of its first seventeen significant digits |
| Doubles.RoundsBack | 3rdparty/json11/json11.cpp:621 | whatever lies within one part in 2 * 10^16 of a double is rounded to it, powers of two and subnormal numbers included |
| Doubles.RoundedIsDouble | 3rdparty/json11/json11.cpp:621 | rounding gives a double, at most half a unit of its last place away unless it overflows |
| Rounding.RoundMonotone | src/testcase_stride_strideexperiment.cc:589 | rounding keeps the order of two numbers, so it never crosses a double |
| Rounding.RoundedEven | 3rdparty/json11/json11.cpp:621 | the double taken is a whole number of units at most half of one away, of two the even one, and infinity from 2^1024 on |
| JsonStable.ParsedAgain | 3rdparty/json11/json11.cpp:732-744 | whatever text is accepted in either mode, its value can be dumped, and parsing the dump in either mode gives an equal value unless a literal overflowed |
| JsonRoundTrip.StringItemsText | 3rdparty/json11/json11.cpp:77-112 | the printed literal is well-formed and means the very bytes it was printed for |
| JsonRoundTrip.DocOfMeaning | 3rdparty/json11/json11.cpp:114-138 | the tree a value is printed as means an equal value if and only if no number is infinite; members read in key order rebuild the map |
| JsonClean.DumpClean | 3rdparty/json11/json11.cpp:77-112 | no dump contains a control character or a raw U+2028 or U+2029, whatever bytes its strings hold |
| JsonJunctions.StreamSplitsIff | 3rdparty/json11/json11.cpp:747-766 | dumps joined by whitespace or by nothing are split into exactly their values, infinities read as null, with the stop position at the end, if and only if no number without a gap meets a digit |
| JsonPrefix.ValuePrefix | 3rdparty/json11/json11.cpp:644-728 | what a successful run read does not depend on what follows: it reads the same from any prefix that reaches to its end |
| JsonStream.StopPosition | 3rdparty/json11/json11.cpp:747-766 | on any input and in either mode the prefix up to the stop position parses to the values that were read and no error |
| JsonOrder.Trichotomy | 3rdparty/json11/json11.cpp:302-318 | of any two values exactly one is less, or they are equal under `operator==`; numbers by value, arrays and maps lexicographically |
| JsonOrder.LessTransitive | 3rdparty/json11/json11.cpp:311-318 | `operator<` is transitive |
| JsonOrder.EqualIsCongruence | 3rdparty/json11/json11.cpp:302-318 | equal values are interchangeable in `<` and `==` |
| JsonOrder.LessIs | 3rdparty/json11/json11.cpp:311-318 | types in the order null, number, bool, string, array, object; numbers by value, strings by their first different byte, arrays and maps by their first different item |
| PrettyPrint.JsonPrettyPrint | src/utils.cc:152-225 | the loop over characters with its indentation and quote flag computes `Pretty` |
| PrettyExact.PrettyParse | src/utils.cc:152-239 | for every value, parsing the pretty-printed dump gives the value with its strings squeezed and its infinities as null, or fails, and a scan of the strings from left to right decides which |
| PrettyExact.PrettyRoundTrip | src/utils.cc:152-239 | a value comes back from its pretty-printed dump if and only if that scan finds no string torn, none squeezed and no number infinite |
| PrettyExact.PrettyPreservesMeaning | src/utils.cc:152-239 | for values without trailing backslashes the meaning is preserved if and only if no string or key contains a colon and no number is infinite |
| PrettyExact.KeysReadBackKept | src/utils.cc:206-212 | squeezed keys cannot trade places: if every key is read back from some key, each is read back from itself |
| PrettyExact.PrettyDamages | src/utils.cc:188-212 | two values that are lost: a string with a colon, a key that ends in a backslash |
| PrettyDocs.PrettyDocText | src/utils.cc:152-225 | unless a string is torn, the output spells out a JSON tree whose depth is the value's and whose meaning is the squeezed value |
| PrettyBroken.BrokenFails | src/utils.cc:152-225 | a torn text is refused by the parser whatever surrounds it |
| PrettyNormal.PrettyNormalForm | src/utils.cc:196-205 | texts without colons inside strings print alike if and only if they are the same up to whitespace between tokens |
| PrettyExact.DumpTwice | src/utils.cc:152-239 | printing a dump twice is printing it once if and only if a scan with the quote flags of both printings finds no character that one takes to be inside a string, the other outside, and that is written differently there |
| PrettyNormal.PrettyTwice | src/utils.cc:152-225 | the same for every text without a line break inside a string, as JSON demands |
| PrettyNormal.TornUnnoticed | src/utils.cc:152-225 | a text with a line break inside a string that is torn and yet printed alike twice |
| PrettyNormal.PrettyIdempotent | src/utils.cc:152-225 | printing twice is printing once for every text in whose strings no run of colons stands between a backslash and a quotation mark |
| PrettyExact.PrettyNotIdempotent | src/utils.cc:188-212 | a value of two strings whose dump changes again on the second printing |
| PrettyNormal.BreaksIndented | src/utils.cc:160-187 | in the whole output for such a text every line starts with exactly two spaces for each bracket open there, those inside strings included, a closing bracket in front not counted |
| PrettyNormal.BreaksAt | src/utils.cc:160-187 | outside strings every bracket and comma breaks the line |
| StrideJson.DumpExperiment | src/testcase_stride_strideexperiment.cc:695-720 | the loops and the printers write the text of the file |
| StrideJson.FileMembers | src/testcase_stride_strideexperiment.cc:695-720 | the file parses, and its nine members are the numbers taken through `int`, the flags, the histogram, each prefetch flag at its place and the line size 64 |
| StrideJson.RestoreExperiment | src/testcase_stride_strideexperiment.cc:729-760 | reads the members back, missing ones as zero |
| StrideJson.RestoreMissing | src/testcase_stride_strideexperiment.cc:729-760 | members that are missing or of another type are restored as zero, false or empty, and so is all of a file that does not parse |
| StrideJson.IntValueTruncates | 3rdparty/json11/json11.cpp:175 | `int_value` of a double cuts its fraction off |
| StrideJson.RestoreDump | src/testcase_stride_strideexperiment.cc:695-760 | restoring a dumped file always succeeds and gives the experiment and histogram with their numbers taken through `int` |
| StrideJson.RestoreExact | src/testcase_stride_strideexperiment.cc:695-760 | they come back unchanged if and only if the stride fits an `int` and every other number is one that sign extension brings back |
| StrideOracle.WorkloadStrideLoop | src/testcase_stride_strideexperiment.hh:150-166 | the pointer loop, for either sign of the stride, loads the accesses 0 to step-1 in order |
| StrideOracle.AccessedIffLoaded | src/testcase_stride_strideexperiment.cc:11-23 | for any nonzero stride the quotient and remainder test holds exactly for the offsets loaded |
| StrideOracle.PotentialIffLater | src/testcase_stride_strideexperiment.cc:52-65 | candidates are exactly the offsets of accesses from `step` on |
| StrideOracle.AccessesApart | src/testcase_stride_strideexperiment.hh:156-165 | accesses are at least a stride apart, so none is repeated |
| CArithmetic.QuotientRemainder | src/testcase_stride_strideexperiment.cc:11-23 | division truncates towards zero, and the remainder has the sign of the dividend |
| CArithmetic.CastsCongruent | src/testcase_stride_strideexperiment.cc:25-50 | casts to `int` and `size_t` keep the value modulo 2^32 and 2^64 |
| StrideOracle.ClAccessed | src/testcase_stride_strideexperiment.cc:89-96 | the scan over a line's bytes finds an accessed one if and only if there is one |
| StrideOracle.ClPotentialPrefetch | src/testcase_stride_strideexperiment.cc:113-120 | likewise for candidates, with the exception for strides below a line and for negative ones |
| StrideOracle.CandidateIff | src/testcase_stride_strideexperiment.cc:113-120 | for strides of either sign and any size a line is a candidate if and only if an access from `step` on would fall into it and no load did |
| StrideOracle.LineAccessedIffLoaded | src/testcase_stride_strideexperiment.cc:89-96 | a line counts as accessed exactly when some load of the workload fell into it |
| StrideOracle.LinesPartition | src/testcase_stride_strideexperiment.cc:113-120 | no line is both accessed and a candidate, for strides of either sign and any size |
| Stride2D.Workload2DStrideLoop | src/testcase_stride_strideexperiment.hh:171-195 | the nested loops load the start and then every access of as many periods as reach the end, in order, for steps of either direction or both, the cast of the length to `int` included |
| Stride2D.LoadsStep | src/testcase_stride_strideexperiment.hh:171-195 | the loads one by one: from the first access on `gap1` strides, then `gap2` strides with the delta added, over and over |
| Stride2D.RunEndsIff | src/testcase_stride_strideexperiment.hh:171-195 | the loop stops if and only if the length cast to `int` is zero or has the sign of the period |
| Stride2D.FittingRun | src/testcase_stride_strideexperiment.hh:63-65 | a run whose length fits an `int` goes through `step` periods; if the steps cancel out, through none |
| Stride2D.IsMultipleOfStride | src/testcase_stride_strideexperiment.cc:29-36 | the loop over a period finds whether an offset falls on one of its positions |
| Stride2D.IsOffsetAccessed | src/testcase_stride_strideexperiment.cc:25-50 | computes the 2-D access test, the decrement above one included |
| Stride2D.IsOffsetPotentialPrefetch | src/testcase_stride_strideexperiment.cc:66-86 | computes the 2-D candidate test |
| Stride2D.AccessedIffLoaded | src/testcase_stride_strideexperiment.cc:25-50 | for patterns of either direction the test agrees with the loads at an offset if and only if that is not the end of a run that goes up by less than two bytes, as all backward ones do, and not in the mirror image of the first period |
| Stride2D.MixedStepsMissed | src/testcase_stride_strideexperiment.cc:25-50 | with steps of both directions a byte in the midst of a run is loaded and does not count as accessed |
| Stride2D.OracleExact | src/testcase_stride_strideexperiment.cc:25-50 | for a forward pattern, or a backward one that stays inside the mapping, the test is exact for every offset if and only if step times period is at least two, never backwards, and the second position lies further behind the first access than the first access behind the start of the mapping |
| Stride2D.LoadedIff | src/testcase_stride_strideexperiment.hh:171-195 | the loads are the positions of the pattern up to and including the end of the last period, in either direction |
| Stride2D.LoadsSet | src/testcase_stride_strideexperiment.hh:171-195 | for patterns of any kind the loads are the positions of all their periods and the end |
| Stride2D.AccessedAndPotential | src/testcase_stride_strideexperiment.cc:25-86 | the only offset both accessed and a candidate is step times period behind the first, in forward runs |
| Stride2D.LoadedAndPotential | src/testcase_stride_strideexperiment.cc:66-86 | the only loaded offset that is a candidate is the end of the run, in both directions |
| Stride2D.PotentialIffLater | src/testcase_stride_strideexperiment.cc:66-86 | candidates are what further periods would load, wherever they lie unless the run is empty |
| Histogram.ProbeSingle | src/testcase_stride_strideexperiment.hh:73-77 | counts a hit for one line and leaves the others alone |
| Histogram.CollectCacheHistogram | src/testcase_stride_strideexperiment.cc:155-210 | every line reports its own hits in thousandths of the rounds |
| Histogram.ProbesFair | src/testcase_stride_strideexperiment.cc:200-201 | after R repetitions line c of n has been probed R/n times, plus once if c < R mod n |
| Histogram.HitsConserved | src/testcase_stride_strideexperiment.cc:163-203 | the raw counts of all lines sum to the number of probes that hit |
| Histogram.PerThousand | src/testcase_stride_strideexperiment.cc:205-208 | a value is the largest number of thousandths of the rounds that the hits reach |
| Histogram.NormalisedRange | src/testcase_stride_strideexperiment.cc:205-208 | values are at most 1000, or 1000 plus one probe's share for lines probed once more; 1000 is reached exactly by as many hits as rounds |
| Histogram.AboveScale | src/testcase_stride_strideexperiment.cc:205-208 | a value exceeds 1000 if and only if the line had one hit more than there are full rounds, and there are at most a thousand |
| Histogram.ScaleKept | src/testcase_stride_strideexperiment.cc:200-208 | no value exceeds 1000, whatever the probes measure, if and only if the repetitions are a multiple of the lines or give more than a thousand rounds |
| LazyProbing.IndicesToProbe | src/testcase_stride_strideexperiment.cc:488-502 | the two loops list the line of every offset walked |
| LazyProbing.ProbedIffOnGrid | src/testcase_stride_strideexperiment.cc:488-502 | a line is listed exactly when it holds an offset of the mapping congruent to the first one modulo the stride |
| LazyProbing.ProbesWhatMatters | src/testcase_stride_strideexperiment.cc:463-502 | every line of the mapping into which a load fell or a later access would fall is listed |
| LazyProbing.DistinctIff | src/testcase_stride_strideexperiment.cc:488-502 | no line is listed twice if and only if the stride is at least a line or no two neighbouring grid offsets of the mapping share a line |
| LazyProbing.NarrowStridesRepeat | src/testcase_stride_strideexperiment.cc:488-502 | strides up to half a line always list a line twice, strides below a line do so in mappings of a page or more |
| LazyProbing.NormalisedOnceIff | src/testcase_stride_strideexperiment.cc:541-544 | every listed counter is normalised exactly once under just that condition |
| LazyProbing.CollectCacheHistogramLazy | src/testcase_stride_strideexperiment.cc:480-546 | a counter ends as its line's hits, normalised as often as the line is listed |
| LazyProbing.DistinctNormalisedOnce | src/testcase_stride_strideexperiment.cc:480-546 | if no line is listed twice the values are those of a full scan over the listed lines, zero elsewhere |
| LazyProbing.NarrowStrideScaledTwice | src/testcase_stride_strideexperiment.cc:541-544 | a stride of half a line gives a value of two million |
| Evaluate.PrefetchThreshold | src/testcase_stride_strideexperiment.cc:559-590 | the loop over lines sums hits and misses; the averages, the wrapped difference and the two roundings to `double` give the threshold |
| Evaluate.EvaluateCacheHistogram | src/testcase_stride_strideexperiment.cc:559-612 | marks exactly the candidates above noise and at or above the threshold |
| Evaluate.PrefetchThreshold2D | src/testcase_stride_strideexperiment.cc:616-648 | the same for bytes and the 2-D oracle, for patterns of any kind, where an accessed candidate counts as a hit |
| Evaluate.EvaluateCacheHistogram2D | src/testcase_stride_strideexperiment.cc:616-670 | the 2-D verdicts |
| Evaluate.KindIs | src/testcase_stride_strideexperiment.cc:564-579 | a line counts as a hit if a load fell into it, otherwise as a candidate if a later access would, otherwise as a miss |
| Evaluate.AverageOf | src/testcase_stride_strideexperiment.cc:580-585 | an average is the sum of the counts of a kind over their number, rounded down, zero for none |
| Evaluate.ThresholdIs | src/testcase_stride_strideexperiment.cc:589-590 | with hits at or above misses and a difference below 2^53 the threshold is the miss average plus the product with the multiplier, at least its floor and less than one above it, the floor itself if the product is a double, and at least one |
| Evaluate.DefaultThreshold | src/testcase_stride_strideexperiment.cc:680-681 | with the default multiplier it is the miss average plus a 64th of the difference, rounded down, and at least one |
| Evaluate.DefaultVerdict | src/testcase_stride_strideexperiment.cc:596-609 | so a candidate is marked if and only if its count is above noise, above zero and reaches that number |
| Evaluate.ThresholdMonotone | src/testcase_stride_strideexperiment.cc:589-590 | a larger multiplier does not lower the threshold |
| Evaluate.MarkedNotLoaded | src/testcase_stride_strideexperiment.cc:559-612 | into a marked line no load of the workload fell, but a later access would, whatever was counted |
| Evaluate.MarkedNotLoaded2D | src/testcase_stride_strideexperiment.cc:616-670 | a loaded byte is marked if and only if it is the end of the run and its count clears noise and threshold |
| Evaluate.CandidatesIndependent | src/testcase_stride_strideexperiment.cc:559-612 | a candidate's verdict depends on no other candidate's count, and a larger count never unmarks it |
| Evaluate.ThresholdBetween | src/testcase_stride_strideexperiment.cc:589-590 | with hits at or above misses, and a difference that is not rounded up, the threshold lies between the miss average and the larger of hit average and one |
| Evaluate.ThresholdBetweenIff | src/testcase_stride_strideexperiment.cc:589-590 | as long as the sum fits, no multiplier up to one lifts the threshold above the hits if and only if the difference is not rounded up |
| Evaluate.StrongCandidatesMarked | src/testcase_stride_strideexperiment.cc:596-609 | with hits at or above misses, and a difference that is not rounded up, a candidate at least as strong as an ordinary hit, and above noise, is always marked |
| Evaluate.WeakNeverMarked | src/testcase_stride_strideexperiment.cc:596-609 | a marked line is a candidate above noise and, with hits at or above misses and a difference that is not rounded up, not below the average miss |
| Evaluate.MissesAboveHits | src/testcase_stride_strideexperiment.cc:589 | with misses above hits no candidate can be marked, whatever its count up to a bound, if and only if the noise threshold is not below the bound or the product of multiplier and wrapped difference exceeds the counts without the sum wrapping again |
| Evaluate.DefaultOutOfReach | src/testcase_stride_strideexperiment.cc:680-681 | the default multiplier meets that condition for all counts below 2^57 |
| Detection.DetectsExactly | src/testcase_stride_strideexperiment.cc:155-210 | collection, oracle and evaluation together: if probes tell cached lines apart and the cache holds the loaded lines and some lines of later accesses, a line is marked if and only if a later access would fall into it, no load did, and it is cached, for every number of repetitions, multipliers up to one half and noise thresholds below 1000 |
| Detection.LazyDetectsExactly | src/testcase_stride_strideexperiment.cc:480-546 | as long as no line is listed twice the lazy collection leads to the same verdicts |
| Detection.DetectsDespiteNoise | src/testcase_stride_strideexperiment.cc:155-210 | the same verdicts with any other lines cached too, for every multiplier up to one, if the scale is kept |
| Detection.Detects2DExactly | src/testcase_stride_strideexperiment.cc:212-269 | in two dimensions, whatever else is cached: a byte is marked if and only if it is cached and what later periods would load, or the end of the run |
| Detection.StepsTestMarksOwnLoad | src/testcase_stride.hh:449-491 | the 2-D test that is run marks byte 512, which it loads, whatever is cached and measured |
| Detection.ValuesTell | src/testcase_stride_strideexperiment.cc:200-208 | a line that is cached after every run reports between 1000 and 2000, one that never is reports zero |
| Mapping.PermuteBijection | src/mapping.hh:15-17 | for every power of two up to 2^64 the permutation has an inverse on both sides |
| Mapping.PermuteAffine | src/mapping.hh:15-17 | for powers of two it is the remainder of 167 i + 13 |
| Mapping.RandomActivity | src/mapping.cc:54-66 | each pass makes the same loads, page by page |
| Mapping.PageOffsetsOdd | src/mapping.cc:57-62 | within a page they are the starts of the odd lines, each once |
| Mapping.PassOdd | src/mapping.cc:57-64 | a pass loads exactly the odd lines of all pages, each once |
| Mapping.PassAt | src/mapping.cc:54-64 | load i of a page is at line (334 i + 13) mod 64, page after page |
| Bits.AndMask | src/mapping.hh:16 | masking with one less than a power of two is the remainder |
| Bits.XorXor | src/pchase/pchase_x86.S:58 | unblinding with the key undoes blinding |
| Bits.AndBit | src/mapping.hh:16 | a bit of the masked word is set if and only if it is set in both |
| Bits.XorBit | src/pchase/pchase_x86.S:58 | a bit of the blinded word is set if and only if it differs from the bit of the key |
| Bits.HarmlessCommutes | src/parr/parr.c:285-287 | in words of any width, blinding commutes with adding an offset if the key, top bit aside, lies below the offset's lowest bit |
| Bits.HarmfulFails | src/parr/parr.c:285-287 | and otherwise there is a word for which it does not |
| Choices.DrawingEndsIff | src/parr/parr.c:98-100 | with a fair generator, drawing until a free slot comes up ends if and only if there is one |
| Choices.CollectingEndsIff | src/parr/parr.c:92-100 | so many different slots come up at some time if and only if there are so many |
| Pchase.Test.SelectEntry | src/pchase/pchase.c:54-61 | takes the first slot drawn that is free, and it terminates |
| Pchase.Test.Init | src/pchase/pchase.c:74-90 | builds a list of entries+1 distinct nodes in link order, with the reference outside and both pointers blinded |
| Pchase.Test.Chase | src/pchase/pchase_x86.S:22-67 | the register loop loads every node but the last, in order, and then measures the last node or the reference |
| Pchase.Test.Measure | src/pchase/pchase.c:134-139 | whichever pointer is measured, no load of the chase came within a node of it, and no node was loaded twice |
| Pages.AccessPages | src/pchase/pchase.c:105-110 | touches the first byte of every page, one past the end included |
| Pages.TouchedIff | src/parr/parr.c:151-156 | an address is touched if and only if it lies whole pages behind the start and not beyond the end |
| Pchase.PageTouchesNode | src/pchase/pchase.c:105-110 | that loads exactly the nodes whose index is a multiple of 32 |
| Parr.Experiment.Draw | src/parr/parr.c:98-100 | takes the first index drawn that is unused, and it terminates |
| Parr.Experiment.SetupPointers | src/parr/parr.c:74-107 | stores blinded pointers, each a 64-bit word, to pairwise distinct targets, none of them the reference target, and stops as soon as enough different ones were drawn, or reports the failed guard |
| Parr.PointersFit | src/parr/parr.c:102 | a blinded pointer fits the 64-bit word it is stored in |
| Parr.TargetsInside | src/parr/parr.c:267-285 | the targets follow one another behind four pages and end inside their memory, whose size is the next multiple of 16 KiB with a page to spare |
| Parr.TurnEndsIff | src/parr/parr.c:98-100 | turn i finds a free target if and only if i + 1 is below the number of targets |
| Parr.SetupEndsIff | src/parr/parr.c:84-104 | a call ends if and only if the guard fires or there are fewer pointers than targets |
| Parr.Experiment.AddressWraps | src/parr/parr_x86.S:477-481 | in 64-bit registers a negative increment addresses the entries of a backward walk |
| Parr.Experiment.Walk | src/parr/parr_x86.S:460-489 | the remainder is the identity; the loop loads the `iters` scheduled pointers and their targets in order and stops |
| Parr.Experiment.Repetition | src/parr/parr.c:281-300 | what one repetition touches, loads and measures, blinded or not, reference or measured entry, under any key and offset |
| Parr.Experiment.RunExperiment | src/parr/parr.c:275-300 | the whole loop: registers set once, reference and measured entry in turn, each repetition with pointers of its own |
| Parr.MeasuredNeverLoaded | src/parr/parr.c:282-300 | with a zero offset no load of the walk came within an entry of the measured address unless the walk follows that very pointer |
| Parr.MeasuredTouchedIff | src/parr/parr.c:290-291 | but touching the pages loads it if and only if its target lies whole pages behind the first |
| Parr.LoadsApart | src/parr/parr.c:97-104 | loads through different pointers are at least an entry apart |
| Parr.MeasuredAddress | src/parr/parr.c:285-287 | under a harmless key the doubly blinded pointer unblinds to target plus offset |
| Parr.OffsetUnderKey | src/parr/parr.c:286 | it does so for every word if and only if the offset is zero or the key, top bit aside, lies below the offset's lowest bit |

## Left out

- JsonDump.DumpValue: `"%.17g"` is the correctly rounded one of the C library; NaN, which no JSON text denotes, is not modelled.
- JsonNumbers.NumberComplete: `strtod` rounds to the nearest double, ties to even; other rounding modes are not modelled.
- JsonComments.CommentsAreBlanks: only success and value are related, not the errors of the two texts; which error a text is refused with is stated by `JsonErrors` and `JsonPlaces`, with whitespace but no comments in front of it.
- JsonParserImpl.JsonParser.FailWith: errors are values of a datatype; the wording of the messages is not modelled.
- JsonParserImpl.JsonParser.ParseUnicodeEscape: the digit check is a method of its own (`CheckHex`), and the string, number, object and array parts of `parse_json` are separate methods.
- JsonOrder.Trichotomy: no NaN, and no shortcut for shared pointers; sharing, moves and virtual dispatch are not modelled.
- StrideJson.DumpExperiment: the members are listed in the order of the map rather than inserted one by one; `int_value` of a double outside the range of `int` is truncated without wrapping; opening, writing and reading the file pass the text unchanged.
- StrideOracle.WorkloadStrideLoop: pointers and offsets are mathematical integers; a mapping at the end of the address space is not modelled. The same holds for the 2-D workload and the collections.
- Stride2D.AccessedIffLoaded: patterns whose steps all go the same way, with the period and the length of the run within `int`; the loop, its loads and the tests themselves are modelled for all.
- Stride2D.Workload2DStrideLoop: runs that come to an end; the others leave the mapping.
- Stride2D.IsOffsetAccessed: in two dimensions `cl_accessed` and `cl_potential_prefetch` examine the single byte given by their index, so they are these tests.
- Histogram.CollectCacheHistogram: flushing, sleeping, fences and the workload itself appear only through the arbitrary probe times; the 2-D collection is the same loop with a counter per byte.
- LazyProbing.IndicesToProbe: the two loops share one method, with the stride negated for the backward one.
- Evaluate.PrefetchThreshold: beyond `size_t`, where the cast of the product is undefined, the sum wraps; the sums of counts do not wrap. Where averages and multipliers have to be bounded the statements say so (both callers use 1/64).
- Detection.DetectsExactly: a cache that is the same after every run and probes that do not err; probes that do are covered only by the statements about `Evaluate`.
- Detection.Detects2DExactly: a run that is not empty, starts inside the mapping and has the mirror image of its first period outside; the counters are the bytes of the mapping.
- Mapping.RandomActivity: pages of 4096 and lines of 64 bytes, as on x86 and Cortex-A; 16384 and 128 on the Apple M1 are not modelled. Flushes are left out.
- Pchase.Test.Init: the generator is any fair sequence; `rand` itself is not modelled, nor the filling of memory with `A`.
- Pchase.Test.Chase: fences, timers and the cache; the arm64 code.
- Parr.Experiment.SetupPointers: excludes the two sizes for which it does not terminate, empty target arrays, and arrays without room between entries.
- Parr.Experiment.Repetition: walks that stay on the entries of the pointer array; `parr` and `tarr` are placed by the caller. Flushing is left out. The two sizes for which `setup_pointers` does not terminate are excluded here and in `RunExperiment`, too.
- The 3-D workload and the workload with extra accesses, which the oracle does not describe.
- The SMS, stream, temporal and data-cache replay experiments: their evaluation repeats the one of the stride experiment with simpler predicates.
- The unrolled walks of `test_pc` and `test_pc_align`, calibration, logging, CPU pinning, MSR access, plotting and the test-case drivers.
