# A verified model of the DECADA sensor firmware's libraries

The firmware reads a sensor, packs the readings into JSON, and sends them over MQTT
to the cloud; at start-up it talks HTTP to a provisioning service. This project
models the parts of it that carry data, in Dafny, and proves what they promise:

* **JSON** (`lib/JsonCpp`): the recursive-descent `Reader` with its cursor, node stack,
  error list and recovery; `FastWriter` and `BuiltStyledStreamWriter`; string escaping,
  integer text, the order on values and the array operations. The main results say which
  texts the reader accepts, those of RFC 8259 and all others, and what it makes of them;
  that a text cut short is rejected; and that whatever a writer prints, in any layout, is
  read back.
* **MQTT** (`lib/MQTT`): topic matching, the handler table, the QoS 2 id table, the cycle
  that receives packets, closing sessions, partial sends and packet framing. The main
  results are about every run of a client.
* **The pipeline** (`threads`): sensor, coordinator and communications threads as
  interleaved atomic steps over two bounded mailboxes. The main result holds for every
  interleaving.
* **HTTP** (`lib/HTTP`): the header map, the precomputed request size, chunked sending
  through a socket that may take less than it is given, and the assembly of responses
  from parser callbacks.

Code that changes things in place is a class or a method with loops, proved against a
function that says what it computes; the results are then lemmas about that function.
`dafny verify dfyconfig.toml` checks everything.

| files | content |
|---|---|
| `Bytes.dfy` | bytes, characters, the order of `memcmp` |
| `Values.dfy`, `ValueOrder.dfy`, `ValueArray.dfy` | JSON values as sorted maps, paths into them, their order, arrays |
| `Decimal.dfy`, `Quoting.dfy`, `Lexer.dfy` | integer text, string escaping, tokens |
| `ReaderSpec.dfy`, `Reader.dfy` | the reader as functions, and as a class proved equal to them |
| `TokenForms.dfy`, `LooseGrammar.dfy`, `LooseReading.dfy` | the tokens byte by byte, the grammar of everything the reader takes, and the proof that it is exactly that |
| `Truncation.dfy`, `ReaderErrors.dfy` | texts that are cut short; what errors report |
| `ReaderDepth.dfy`, `ReaderQuirks.dfy` | a bound on nesting; where the reader is lenient |
| `JsonText.dfy`, `Writers.dfy`, `LayoutForm.dfy` | the texts of a value as functions, the two writer classes, and the form of the layout |
| `JsonGrammar.dfy`, `GrammarReading.dfy` | the grammar of RFC 8259 with its meaning, and the proof that the reader reads it |
| `RoundTrip.dfy`, `JsonMain.dfy` | printed text as text of the grammar, and the main JSON results |
| `MqttTopic.dfy`, `MqttSession.dfy`, `MqttCalls.dfy`, `MqttClient.dfy`, `MqttPackets.dfy` | MQTT |
| `Pipeline.dfy` | the three threads |
| `HttpBuilder.dfy`, `HttpChunked.dfy`, `HttpReceiver.dfy`, `HttpResponse.dfy` | HTTP |

## What the code does differently from what one would expect

Each of these is modelled as the code has it, with the condition under which it shows.

* Two arrays whose sizes differ by 2^31 are each less than the other, and three arrays can
  each be less than the next all the way round; exactly when is `ValueOrder.LessIff` and
  `LessTransitiveIff`.
* Appending behind the highest array index there is comes round to index 0, and resizing to
  an index behind a gap ends in a failed assertion (`ValueArray.ArrayValue.Append`, `Resize`).
* What stands behind the root of a text is not looked at (`JsonMain.RestIgnored`).
* A high surrogate escape without another `\u` escape behind it makes the reader reject a
  text of the grammar (`JsonMain.EveryTextIff`, `LoneSurrogateRejected`).
* The reader accepts `{"":1,}` because an empty previous name lets the object end
  (`ReaderQuirks.TrailingCommaIff`), takes any token behind a comment inside an object for
  the comma (`CommentReadsAsComma`), a NUL outside strings for the end of the text
  (`NulExample`), and a lone `-` for the integer 0 (`ZeroTokenIff`).
* Strings that are not UTF-8 do not survive escaping (`Quoting.StringRoundTripIff`).
* Wildcards take no empty level, and a `#` not the parent level
  (`MqttTopic.MatchesIffStandardAndFilled`, `StandardIffCodeOrParent`).
* `cycle` has no case for UNSUBACK, so an acknowledged unsubscribe closes the session
  (`MqttSession.UnsubackClosesSession`, `MqttCalls.UnsubscribeMeaning`).
* With a message in flight, connecting succeeds or fails with sending that message again,
  whatever the server has answered (`MqttCalls.SuccessMeansAcceptedIff`); `pubrel` is never
  set, so a QoS 2 message is then published again (`PubrelNeverResent`).
* A refused subscription is reported as a success (`MqttCalls.SubscribeMeaning`).
* A full table of QoS 2 ids acknowledges a message and drops it; packet id 0 is never
  delivered (`MqttSession.FullTableLosesMessage`, `MqttSession.DeliveredIff`).
* The result of reading the remaining length is ignored; exactly which packets are read as
  they came is `MqttPackets.ReadFaithfullyIff`, and overlong, cut and missing lengths and
  short bodies have a lemma each.
* `build` on a chunked request copies a body it has not reserved room for, and announces
  a wrong length from 10^9 bytes on (`HttpBuilder.HttpRequestBuilder.Build`, `LengthTextIff`).
* A send that takes nothing ends its buffer silently, and the request log repeats what
  partial sends leave over (`HttpChunked.ChunkedArrives`, `LogRepeatsPartialSends`).
* `send` with a body on a chunked request sends the head only
  (`HttpChunked.HttpRequestBase.Send`).

## Model

| member | source | states |
|---|---|---|
| JsonMain.EveryTextIff | lib/JsonCpp/jsoncpp.cpp:366-482 | Any text of the grammar of RFC 8259, whatever whitespace stands between its lexemes, is accepted if and only if each number outside the 64-bit integers converts, each high surrogate escape has another `\u` escape behind it, and the root is a container where the reader insists on one; then it gives the value the grammar denotes, to the end of the text, within as many stack levels as it has levels of nesting |
| JsonMain.ParseText | lib/JsonCpp/jsoncpp.cpp:366-405 | The reader object on such a text with fewer than 1000 opening brackets and braces: good() and the root are exactly that |
| JsonMain.OneMeaning | lib/JsonCpp/jsoncpp.cpp:366-482 | The grammar is unambiguous: two derivations of one text denote one value |
| JsonMain.LoneSurrogateRejected | lib/JsonCpp/jsoncpp.cpp:934-959 | A text of the grammar that is rejected |
| GrammarReading.ReadTree | lib/JsonCpp/jsoncpp.cpp:407-482 | Inside any document, the lexemes of any value of the grammar are read as the value it denotes, leaving exactly what follows, or are rejected if it is not readable |
| GrammarReading.ReadItems | lib/JsonCpp/jsoncpp.cpp:757-793 | From any element on, readArray's loop appends the values of the remaining elements in order and stops behind the bracket, or fails if one of them is not readable |
| GrammarReading.ReadFields | lib/JsonCpp/jsoncpp.cpp:701-755 | From any member on, readObject's loop puts the remaining members, the last of one name counting, and stops behind the brace, or fails if one of them is not readable |
| GrammarReading.DecodeChars | lib/JsonCpp/jsoncpp.cpp:870-959 | The text of a string decodes to its meaning in UTF-8 if and only if its surrogate escapes are paired |
| GrammarReading.NumberDecoded | lib/JsonCpp/jsoncpp.cpp:805-868 | A number of the grammar is decoded as that integer if it is one of 64 bits, and otherwise as what decodeDouble makes of its text |
| GrammarReading.NumberTokenAt | lib/JsonCpp/jsoncpp.cpp:667-687 | The text of a number with sign, fraction and exponent is one number token, if nothing that continues it follows |
| LooseReading.AcceptedIff | lib/JsonCpp/jsoncpp.cpp:366-482 | Any text whatever is accepted if and only if it begins with a derivation of the loose grammar, whose root is a container where the reader insists on one, and the value left behind is what that denotes: comments, a comma behind an empty name, any token behind a comment, loose numbers and values left out are the only things taken beyond RFC 8259 |
| LooseReading.ReadDerived | lib/JsonCpp/jsoncpp.cpp:407-482 | What is derived anywhere in a text is read there, to the end of the derivation |
| LooseReading.Derivation | lib/JsonCpp/jsoncpp.cpp:407-482 | What is read anywhere in a text is derived there |
| LooseReading.Spell | lib/JsonCpp/jsoncpp.cpp:870-959 | A text between quotes that decodes is spelled by characters of the grammar, control characters allowed |
| GrammarReading.EscapeLetters | lib/JsonCpp/jsoncpp.cpp:886-922 | The escape letters stand for the characters of section 7 of RFC 8259 |
| GrammarReading.HexDigits | lib/JsonCpp/jsoncpp.cpp:961-985 | The hex digits have their values |
| GrammarReading.Encoded | lib/JsonCpp/jsoncpp.cpp:129-155 | Code points are encoded as section 3 of RFC 3629 has it |
| TokenForms.TokenStart | lib/JsonCpp/jsoncpp.cpp:565-573 | Spaces, tabs, line feeds and carriage returns are passed over, and nothing else |
| TokenForms.PunctuationForm | lib/JsonCpp/jsoncpp.cpp:494-563 | Each punctuation token is its one byte, and a NUL byte is an end of the text |
| TokenForms.LiteralForm | lib/JsonCpp/jsoncpp.cpp:528-545 | true, false and null are those letters, whatever follows |
| TokenForms.StringForm | lib/JsonCpp/jsoncpp.cpp:689-699 | A string token is closed text between two quotes, and all such text is one |
| TokenForms.NumberKind | lib/JsonCpp/jsoncpp.cpp:494-563 | Numbers begin with a digit or a minus sign |
| TokenForms.NumberForm | lib/JsonCpp/jsoncpp.cpp:667-687 | A number goes on through any digits, a fraction and an exponent of any digits, each as far as it can |
| TokenForms.CommentForm | lib/JsonCpp/jsoncpp.cpp:586-611 | Comments begin with two slashes, or with a slash and a star and are closed |
| TokenForms.BlockForm | lib/JsonCpp/jsoncpp.cpp:642-649 | A block comment ends at the first star and slash, or else at a slash that ends the text |
| TokenForms.LineForm | lib/JsonCpp/jsoncpp.cpp:651-665 | A line comment ends behind the first line break, which may be two bytes, or with the text |
| Truncation.CutRejected | lib/JsonCpp/jsoncpp.cpp:366-482 | An array or object of RFC 8259 in any layout, cut anywhere before its last byte, is rejected |
| Truncation.DerivationGoesOn | lib/JsonCpp/jsoncpp.cpp:407-482 | What is read from a text without comments is read in the same way when the text goes on |
| ReaderErrors.ErrorsJustified | lib/JsonCpp/jsoncpp.cpp:1012-1017 | Whatever text is rejected, the first error names a token of it that does not fit where it stands in the way its message says |
| ReaderErrors.RecoveryEnds | lib/JsonCpp/jsoncpp.cpp:999-1010 | Recovery ends behind the token it looks for, or at an end of the text |
| JsonMain.RestIgnored | lib/JsonCpp/jsoncpp.cpp:366-405 | A readable text is accepted with the same value when other lexemes stand behind it |
| JsonMain.StyledRoundTrip | lib/JsonCpp/jsoncpp.cpp:366-482 | For every well-formed, real-free value with UTF-8 strings and every whitespace layout, parsing the styled text succeeds without error, consumes it all, and gives the value back with gaps filled and integer tags normalised; the stack levels used are at most the levels of the value |
| JsonMain.FastRoundTrip | lib/JsonCpp/jsoncpp.cpp:4541-4602 | The same for the text of FastWriter, with either colon |
| JsonMain.LayoutDoesNotMatter | lib/JsonCpp/jsoncpp.cpp:5340-5380 | Any two builder settings (indentation, comment style, YAML colons) give texts that parse to the same value |
| JsonMain.CompactIsFast | lib/JsonCpp/jsoncpp.cpp:5105-5290 | With empty indentation the styled writer's text is FastWriter's, byte for byte, for every value |
| JsonMain.UnchangedIffCanonical | lib/JsonCpp/jsoncpp.cpp:837-844 | What is read back is the very value printed if and only if its integers carry the reader's tags and its arrays have no gaps |
| JsonMain.WriteThenParse | lib/JsonCpp/jsoncpp.cpp:366-405 | A writer object followed by a reader object: up to 1000 levels, the parse succeeds, is good, and the root is the value printed |
| RoundTrip.ReadLexemes | lib/JsonCpp/jsoncpp.cpp:407-482 | Inside any document, the lexemes of a value separated by any whitespace are read as that value, leaving exactly what follows |
| RoundTrip.PrintedTree | lib/JsonCpp/jsoncpp.cpp:4549-4602 | The printed lexemes of a value are those of a readable tree of the grammar that denotes the value |
| RoundTrip.PrintedString | lib/JsonCpp/jsoncpp.cpp:4451-4518 | A quoted string is a string of the grammar that means the string that was quoted |
| JsonText.StyledSpells | lib/JsonCpp/jsoncpp.cpp:5120-5230 | Every layout of a value consists of that value's lexemes with nothing but whitespace between them |
| JsonText.StyledIsFast | lib/JsonCpp/jsoncpp.cpp:5120-5230 | A layout without indentation and padding is the compact text |
| LayoutForm.StyledTidy | lib/JsonCpp/jsoncpp.cpp:5120-5290 | In every layout each line is indented once for every container that is open, not counting one that closes on it |
| LayoutForm.OneLineIff | lib/JsonCpp/jsoncpp.cpp:5232-5257 | An array stands on one line exactly if it has at most 24 elements, none a filled container, and fits into 73 columns |
| LayoutForm.StyledExample | lib/JsonCpp/jsoncpp.cpp:5120-5290 | The layout of a nested object, byte by byte |
| LayoutForm.ShortArray | lib/JsonCpp/jsoncpp.cpp:5214-5228 | The layout of a short array, byte by byte |
| RoundTrip.MembersInOrder | lib/JsonCpp/jsoncpp.cpp:5152-5178 | Members are printed in the order of the bytes of their names |
| Writers.FastWriter.Write | lib/JsonCpp/jsoncpp.cpp:4541-4547 | The document is the compact text of the value, with or without the final line feed |
| Writers.FastWriter.WriteValue | lib/JsonCpp/jsoncpp.cpp:4549-4602 | Appends the compact text of any value to the document |
| Writers.BuiltStyledStreamWriter.Write | lib/JsonCpp/jsoncpp.cpp:5105-5118 | Appends the styled layout of the value to the stream |
| Writers.BuiltStyledStreamWriter.WriteValue | lib/JsonCpp/jsoncpp.cpp:5120-5180 | Writes the layout to the stream or, while child values are collected, one text to their list; the indentation string is as before |
| Writers.BuiltStyledStreamWriter.WriteArrayValue | lib/JsonCpp/jsoncpp.cpp:5182-5230 | Writes the layout of an array on one line or many; on the single-line path there is exactly one child value for each element |
| Writers.BuiltStyledStreamWriter.IsMultilineArray | lib/JsonCpp/jsoncpp.cpp:5232-5257 | Decides by the line length, and leaves either no child values or the text of every element in order |
| Writers.BuiltStyledStreamWriter.CollectChildren | lib/JsonCpp/jsoncpp.cpp:5246-5255 | Collects one child value for each element and adds up their lengths in ArrayIndex arithmetic |
| Writers.BuiltStyledStreamWriter.WriteObjectValue | lib/JsonCpp/jsoncpp.cpp:5152-5178 | Writes the members in key order between balanced indents |
| Writers.BuiltStyledStreamWriter.Unindent | lib/JsonCpp/jsoncpp.cpp:5287-5290 | Undoes an indent: whatever the indentation string was before, it is that again |
| Writers.BuiltStyledStreamWriter.WriteLines | lib/JsonCpp/jsoncpp.cpp:5188-5213 | The elements stand between balanced indents, one to a line, and the indentation string is as before |
| ReaderSpec.ParseReportsFaithfully | lib/JsonCpp/jsoncpp.cpp:366-405 | On every text parse succeeds if and only if no error is left; a failing parse leaves one error, or two with a strict root; the cursor stays in the text |
| ReaderSpec.ReadValue | lib/JsonCpp/jsoncpp.cpp:407-482 | On every text the cursor only moves forward inside the text, and reading fails if and only if exactly one error was added |
| ReaderSpec.ReadName | lib/JsonCpp/jsoncpp.cpp:707-726 | Reading a member name either moves strictly forward or ends the object with success or one error |
| ReaderSpec.ReadMember | lib/JsonCpp/jsoncpp.cpp:728-751 | One turn of readObject's loop ends soundly or moves strictly forward, so the loop terminates |
| ReaderSpec.ReadElement | lib/JsonCpp/jsoncpp.cpp:769-791 | One turn of readArray's loop ends soundly or moves strictly forward |
| Reader.Reader.Parse | lib/JsonCpp/jsoncpp.cpp:366-405 | The class computes the specified outcome, with the node stack back at the root, and returns true exactly when good() holds |
| ReaderDepth.FewOpensFit | lib/JsonCpp/jsoncpp.cpp:407-415 | A text with fewer than 1000 opening brackets and braces stays within the stack limit, so its sender can check the limit |
| ReaderDepth.ValueDepth | lib/JsonCpp/jsoncpp.cpp:407-482 | Reading a value takes at most one level more than the opening bytes it passes |
| ReaderQuirks.TrailingCommaIff | lib/JsonCpp/jsoncpp.cpp:713-715 | An object of the grammar with a comma behind its last member, in any layout, parses if and only if it would without the comma and its last name is empty |
| ReaderQuirks.TrailingCommaExamples | lib/JsonCpp/jsoncpp.cpp:713-715 | `{"":1,}` is accepted and `{"a":1,}` is not |
| ReaderQuirks.CommentReadsAsComma | lib/JsonCpp/jsoncpp.cpp:740-751 | A member followed by a comment and any token but a brace reads as if a comma followed it: whatever members of the grammar stand behind, both texts are accepted or rejected alike and give the same object |
| ReaderQuirks.TrueForCommaExample | lib/JsonCpp/jsoncpp.cpp:740-751 | A text with a comment and `true` between two members reads as the object of both |
| ReaderQuirks.NulExample | lib/JsonCpp/jsoncpp.cpp:552-554 | A text of one NUL byte is rejected as the empty text is |
| ReaderQuirks.ZeroTokenIff | lib/JsonCpp/jsoncpp.cpp:805-846 | A token is read as the integer 0 exactly if only zeros, or nothing, stand behind an optional minus sign |
| Reader.Reader.ReadValue | lib/JsonCpp/jsoncpp.cpp:407-482 | Recursive descent at the top of the node stack writes exactly the specified value there and leaves the stack as it was |
| Reader.Reader.ReadObject | lib/JsonCpp/jsoncpp.cpp:701-755 | The object loop with its pushes and pops equals the specified one, on success and on failure |
| Reader.Reader.ReadArray | lib/JsonCpp/jsoncpp.cpp:757-793 | The array loop with its pushes and pops equals the specified one, on success and on failure |
| Reader.Reader.ReadToken | lib/JsonCpp/jsoncpp.cpp:494-563 | The token at the cursor, for every text |
| Reader.Reader.RecoverFromError | lib/JsonCpp/jsoncpp.cpp:999-1010 | Skips to the closing token or the end, and drops the errors met on the way but none recorded before |
| Reader.Reader.AddErrorAndRecover | lib/JsonCpp/jsoncpp.cpp:1012-1017 | The error it adds survives the recovery |
| Reader.Reader.DecodeString | lib/JsonCpp/jsoncpp.cpp:870-932 | The decoded text, or the first error with its position |
| Reader.Reader.DecodeUnicodeCodePoint | lib/JsonCpp/jsoncpp.cpp:934-959 | One escape, or a surrogate pair joined |
| Reader.Reader.ReadString | lib/JsonCpp/jsoncpp.cpp:689-699 | Stops behind the first quote that is not escaped |
| Reader.Reader.SkipSpaces | lib/JsonCpp/jsoncpp.cpp:565-573 | Stops at the first character that is no whitespace |
| Reader.Reader.ReadComment | lib/JsonCpp/jsoncpp.cpp:586-611 | Where a comment ends, and whether it does |
| Reader.Reader.ReadNumber | lib/JsonCpp/jsoncpp.cpp:667-687 | Stops where the digits, the fraction and the exponent end |
| Reader.Reader.SetCurrentValue | lib/JsonCpp/jsoncpp.cpp:1019-1019 | Writing through the top of the stack changes the value at that path and nothing else |
| Lexer.StringTokenAt | lib/JsonCpp/jsoncpp.cpp:689-699 | Text without a bare quote or a cut escape, between quotes, is one string token |
| Lexer.LiteralTokenAt | lib/JsonCpp/jsoncpp.cpp:528-545 | true, false and null are one token each |
| Values.PutLaws | lib/JsonCpp/jsoncpp.cpp:3569-3585 | After inserting a key, it holds the new value, and every other key is present and has its value exactly as before |
| Values.PutSorted | lib/JsonCpp/jsoncpp.cpp:3428-3442 | Inserting at the lower bound keeps the keys strictly increasing |
| Values.SetAtLaws | lib/JsonCpp/jsoncpp.cpp:1019-1019 | Writing at a path is read back there, and the last write wins |
| Values.ExtendedPath | lib/JsonCpp/jsoncpp.cpp:738-742 | Writing into a child through the stack is writing at the longer path |
| ValueOrder.LessTrichotomy | lib/JsonCpp/jsoncpp.cpp:2980-3030 | Exactly one of less, equal, greater holds if and only if the two real-free values do not clash, and always below 2^31 entries |
| ValueOrder.LessIff | lib/JsonCpp/jsoncpp.cpp:2980-3030 | For any two real-free values: each is less than the other exactly if they clash, that is if containers of one type differ in size by 2^31 modulo 2^32 or first differ, at equal sizes modulo 2^32, in clashing values of one key; and neither is less exactly if they are the same value |
| ValueOrder.TypesOrdered | lib/JsonCpp/jsoncpp.cpp:2980-2983 | Null, signed, unsigned, string, boolean, array, object: of two types the one that stands first here is less |
| ValueOrder.ScalarsOrdered | lib/JsonCpp/jsoncpp.cpp:2984-3017 | Numbers compare by size, strings by their bytes, and false is less than true |
| ValueOrder.ContainersOrdered | lib/JsonCpp/jsoncpp.cpp:3018-3024 | Below 2^31 entries the smaller container is less, and of one size the one whose first different entry is |
| ValueOrder.SmallNeverClash | lib/JsonCpp/jsoncpp.cpp:3019-3024 | Containers below 2^31 entries never clash |
| ValueOrder.LessTransitiveIff | lib/JsonCpp/jsoncpp.cpp:2980-3030 | For any three real-free values with a < b and b < c: a < c if and only if they form no cycle, that is no three containers of one type whose 32-bit size differences do not add up, nor such a triple where three of equal sizes modulo 2^32 first differ; in a cycle c < a or c is a |
| ValueOrder.LessTransitive | lib/JsonCpp/jsoncpp.cpp:2980-3030 | Below 2^31 entries the order is transitive at any depth |
| ValueOrder.SmallNeverCycle | lib/JsonCpp/jsoncpp.cpp:3019-3024 | Containers below 2^31 entries form no cycle |
| ValueOrder.HugeArraysCycle | lib/JsonCpp/jsoncpp.cpp:3019-3024 | Three arrays of which no two clash are each less than the next all the way round |
| ValueOrder.EqualIsIdentity | lib/JsonCpp/jsoncpp.cpp:3038-3083 | operator== holds exactly of identical values |
| ValueOrder.CompareAgrees | lib/JsonCpp/jsoncpp.cpp:2972-2978 | compare is zero exactly on equal values, negative exactly below, and its sign turns round exactly if the values do not clash |
| ValueOrder.HugeArraysUnordered | lib/JsonCpp/jsoncpp.cpp:3019-3024 | Without the bound on sizes the order fails: arrays whose sizes differ by 2^31 are each less than the other |
| Values.KeyTrichotomy | lib/JsonCpp/jsoncpp.cpp:2773-2788 | The order on keys is total |
| Values.KeyTransitive | lib/JsonCpp/jsoncpp.cpp:2773-2788 | The order on keys is transitive |
| Values.KeyLessIff | lib/JsonCpp/jsoncpp.cpp:2773-2788 | Indexes compare by number, and names by their first different byte or else by length |
| ValueArray.ArrayValue.Append | lib/JsonCpp/jsoncpp.cpp:3644-3644 | Appends behind the last key, which on a dense array is appending to the elements; behind the highest index there is it writes index 0 |
| ValueArray.ArrayValue.Item | lib/JsonCpp/jsoncpp.cpp:3451-3462 | Lookup is the element of that index, or null |
| ValueArray.ArrayValue.Assign | lib/JsonCpp/jsoncpp.cpp:3428-3442 | Replaces one element |
| ValueArray.ArrayValue.Resize | lib/JsonCpp/jsoncpp.cpp:3410-3426 | On any array shrinking keeps exactly the entries below the new size, and growing fills the last index; the final assertion holds if and only if the array grew, became empty or has an entry at the new last index |
| ValueArray.ArrayValue.RemoveIndex | lib/JsonCpp/jsoncpp.cpp:3702-3724 | On any array with an entry at the index: each child below it is as before, each child behind it has moved down by one, and the size is one less if a later key existed; on a dense array that deletes exactly the element; without such an entry nothing changes |
| ValueArray.RemovedDense | lib/JsonCpp/jsoncpp.cpp:3702-3724 | On a dense array removing an index is deleting that element |
| ValueArray.RemovedSize | lib/JsonCpp/jsoncpp.cpp:3702-3724 | Unless it was the last one, removing an index makes the array smaller by one |
| ValueArray.ShiftedThenErased | lib/JsonCpp/jsoncpp.cpp:3713-3722 | The shifting loop leaves the last key in place, whatever gaps there are, and erasing it completes the removal |
| ValueArray.ShrunkSize | lib/JsonCpp/jsoncpp.cpp:3420-3424 | A cut array has the size it was cut to exactly if the index below is present |
| ValueArray.DensePut | lib/JsonCpp/jsoncpp.cpp:3428-3442 | Writing inside a dense array, or just behind it, keeps it dense |
| Decimal.ExactIffInRange | lib/JsonCpp/jsoncpp.cpp:805-846 | A token of an optional minus and digits is read as an integer, and then exactly, if and only if its number lies in [-2^63, 2^64-1] |
| Decimal.DecodeNumber | lib/JsonCpp/jsoncpp.cpp:805-846 | The accumulator loop computes the exact integer and never exceeds 64 bits; any other token goes to decodeDouble |
| Decimal.GuardIsExact | lib/JsonCpp/jsoncpp.cpp:820-832 | The overflow guard gives up only on numbers beyond the limit |
| Decimal.DecodeIntText | lib/JsonCpp/jsoncpp.cpp:4269-4291 | Reading a printed 64-bit integer gives that integer |
| Decimal.DigitsFit | lib/JsonCpp/jsoncpp.cpp:157-177 | A 64-bit magnitude has at most 20 digits |
| Decimal.UintToString | lib/JsonCpp/jsoncpp.cpp:171-177 | The digits end at the end of the buffer and nothing in front of them is touched |
| Decimal.ValueToStringInt | lib/JsonCpp/jsoncpp.cpp:4269-4283 | The decimal text of any signed 64-bit integer, without leaving the 25-byte buffer |
| Decimal.ValueToStringUInt | lib/JsonCpp/jsoncpp.cpp:4285-4291 | The decimal text of any unsigned 64-bit integer |
| Quoting.StringRoundTrip | lib/JsonCpp/jsoncpp.cpp:870-986 | decodeString undoes valueToQuotedStringN on every valid UTF-8 string, NUL and control characters included |
| Quoting.StringRoundTripIff | lib/JsonCpp/jsoncpp.cpp:870-986 | A quoted string decodes to itself if and only if it is valid UTF-8 or was written without escapes |
| Quoting.ScanQuoted | lib/JsonCpp/jsoncpp.cpp:689-699 | readString stops exactly behind the closing quote, whatever bytes were quoted |
| Quoting.CodepointRoundTrip | lib/JsonCpp/jsoncpp.cpp:4372-4436 | At a valid UTF-8 sequence utf8ToCodepoint consumes exactly it and codePointToUTF8 gives it back |
| Quoting.DecodeSurrogatePair | lib/JsonCpp/jsoncpp.cpp:934-959 | A code point printed as two \u escapes is decoded to its UTF-8 bytes |
| Quoting.DecodeCodePointText | lib/JsonCpp/jsoncpp.cpp:4494-4513 | Whatever form the writer chooses for a code point, the decoder gives its UTF-8 bytes |
| Quoting.EscapedClosed | lib/JsonCpp/jsoncpp.cpp:4460-4516 | In escaped text every quote is escaped and no escape is cut off |
| Quoting.ValueToQuotedStringN | lib/JsonCpp/jsoncpp.cpp:4451-4518 | The loop produces the quoted text, escaped only when some character requires it |
| Quoting.IsAnyCharRequiredQuoting | lib/JsonCpp/jsoncpp.cpp:4360-4370 | True exactly if some character requires quoting |
| MqttTopic.MatchesIsLevelMatch | lib/MQTT/MQTTClient.h:493-522 | For every well-formed filter and every name the single pass decides level-by-level matching, with wildcards on levels that are not empty |
| MqttTopic.MatchesIffStandardAndFilled | lib/MQTT/MQTTClient.h:493-522 | For every well-formed filter and every name the code matches if and only if section 4.7 of MQTT 3.1.1 does and every wildcard stands on a level of the name that exists and is not empty |
| MqttTopic.LevelMatchIff | lib/MQTT/MQTTClient.h:493-522 | The same on levels |
| MqttTopic.EmptyLevelUnmatched | lib/MQTT/MQTTClient.h:505-506 | The standard matches `+/+` with `/finance`, the code does not, and no parent level is involved |
| MqttTopic.StandardIffCodeOrParent | lib/MQTT/MQTTClient.h:493-522 | On names without empty levels, section 4.7 of MQTT 3.1.1 matches if and only if the code does or the name is the parent level of a '#', never both |
| MqttTopic.IsTopicMatched | lib/MQTT/MQTTClient.h:497-522 | The pointer loop decides matching without running past the name |
| MqttTopic.SkipLevel | lib/MQTT/MQTTClient.h:509-514 | The loop behind '+' ends on the last character of the level |
| MqttSession.AtMostOnceDelivery | lib/MQTT/MQTTClient.h:599-655 | In every run of a new client, between two deliveries of the same QoS 2 packet id there is a processed PUBREL for it or a session reset |
| MqttSession.ReleasedAsCompleted | lib/MQTT/MQTTClient.h:639-655 | In every run the ids are released in the order, and exactly as often, as their PUBCOMPs have gone out |
| MqttCalls.CallsDeliverAtMostOnce | lib/MQTT/MQTTClient.h:599-655 | Both hold however a new client is used through its public calls |
| MqttSession.RunKeeps | lib/MQTT/MQTTClient.h:579-675 | Over every run the non-zero entries of the id table are distinct and are exactly the ids delivered and not yet released, and live filters are distinct |
| MqttSession.CycleKeeps | lib/MQTT/MQTTClient.h:579-675 | One cycle keeps that invariant whatever packet arrives and however sending turns out |
| MqttSession.CycleClosesIff | lib/MQTT/MQTTClient.h:579-675 | A cycle leaves the session connected and reports the type of the packet exactly unless the packet has no case, its acknowledgement fails, or the keepalive does |
| MqttSession.UnansweredPingCloses | lib/MQTT/MQTTClient.h:678-709 | While a ping is not answered no second one is sent, and the first cycle that comes to the keepalive after the interval closes the session |
| MqttSession.PingOutstandingIff | lib/MQTT/MQTTClient.h:678-709 | While a session stays open a ping is outstanding exactly if it was and is not answered, or has just been sent |
| MqttSession.NeverTwiceMeaning | lib/MQTT/MQTTClient.h:614-620 | A history in which no pending id is delivered has an ending event between equal deliveries |
| MqttSession.DeliveredIff | lib/MQTT/MQTTClient.h:614-620 | A QoS 2 message is delivered if and only if its id is non-zero, not pending, and the table has room |
| MqttSession.CycleDelivers | lib/MQTT/MQTTClient.h:579-676 | A cycle makes, for a publish that can be read and is below QoS 2 or has an id that is neither zero nor pending while there is room, one call for each matching filter or one of the default handler if none matches, and otherwise none; and it answers with PUBACK, PUBREC, PUBREL or PUBCOMP and the packet's own id |
| MqttSession.RunDelivers | lib/MQTT/MQTTClient.h:579-676 | Over every run each action makes exactly these calls, only cycles make any, and none is taken back |
| MqttSession.FullTableLosesMessage | lib/MQTT/MQTTClient.h:614-636 | With a full table a new message is acknowledged with its PUBREC but reaches no handler, whatever the timers do |
| MqttSession.UnsubackClosesSession | lib/MQTT/MQTTClient.h:587-592 | An UNSUBACK closes a connected session and, with clean sessions, empties the handler table |
| MqttSession.SetHandlerIsMapUpdate | lib/MQTT/MQTTClient.h:809-848 | Setting, replacing and removing act on a map of at most as many filters as there are slots, and succeed exactly when that map can |
| MqttSession.FullTable | lib/MQTT/MQTTClient.h:832-839 | The table has no free slot exactly when the map is at its capacity |
| MqttSession.ActRefinesMap | lib/MQTT/MQTTClient.h:299-324 | Every action on the session acts on the handler table as on that map; only closing a clean session empties it |
| MqttSession.RunRefinesMap | lib/MQTT/MQTTClient.h:808-848 | Over every run the table is the map that the same actions make, never larger than the number of slots |
| MqttSession.CleanedIsEmpty | lib/MQTT/MQTTClient.h:299-302 | Clearing the filters leaves the empty map |
| MqttSession.EachMatchCalledOnce | lib/MQTT/MQTTClient.h:532-544 | A message invokes the handler of each matching filter exactly once, and no other |
| MqttSession.DefaultIffNoMatch | lib/MQTT/MQTTClient.h:546-553 | The default handler is invoked exactly when no filter of the table matches |
| MqttSession.UseIdKeeps | lib/MQTT/MQTTClient.h:349-361 | Entering a free id adds exactly that id to the table and keeps the entries distinct |
| MqttSession.FreeIdKeeps | lib/MQTT/MQTTClient.h:364-375 | Freeing an id removes exactly that id |
| MqttClient.Client.constructor | lib/MQTT/MQTTClient.h:327-333 | A new client is in the initial state: closed, both tables empty |
| MqttClient.Client.IsQoS2msgidFree | lib/MQTT/MQTTClient.h:336-346 | True exactly if no entry of the array is the id |
| MqttClient.Client.UseQoS2msgid | lib/MQTT/MQTTClient.h:349-361 | The first zero entry becomes the id, or nothing changes and the result is false |
| MqttClient.Client.FreeQoS2msgid | lib/MQTT/MQTTClient.h:364-375 | The first entry equal to the id becomes zero |
| MqttClient.Client.CleanSession | lib/MQTT/MQTTClient.h:298-314 | Both loops clear their arrays and the message in flight is forgotten; nothing else of the session changes |
| MqttClient.Client.CloseSession | lib/MQTT/MQTTClient.h:317-324 | Disconnected, no ping outstanding, and cleaned if the session is a clean one |
| MqttClient.Client.SetMessageHandler | lib/MQTT/MQTTClient.h:809-848 | The two scans of the array act as SetHandler on its contents |
| MqttClient.Client.DeliverMessage | lib/MQTT/MQTTClient.h:526-554 | The loop makes exactly the specified handler calls in slot order, and reports whether there was one |
| MqttClient.Client.Cycle | lib/MQTT/MQTTClient.h:578-675 | The new state, the acknowledgement sent with its id, and the return code of one cycle, for every packet type, serializer result and send result |
| MqttClient.Client.OnPublish | lib/MQTT/MQTTClient.h:599-637 | An incoming publish is delivered and answered by PUBACK or PUBREC with its own id, or the cycle fails |
| MqttClient.Client.OnAck | lib/MQTT/MQTTClient.h:640-655 | PUBREC is answered by PUBREL, PUBREL by PUBCOMP, with the same id, and only then is the id released |
| MqttClient.Client.Waitfor | lib/MQTT/MQTTClient.h:712-727 | The loop of cycles leaves the state and the code of Wait |
| MqttCalls.WaitMeaning | lib/MQTT/MQTTClient.h:712-727 | A packet waited for with success was received; with UNSUBACK it means disconnected, and a negative code does too; without a connection the message in flight is not touched |
| MqttCalls.WaitCycles | lib/MQTT/MQTTClient.h:713-728 | Waiting makes cycles up to the first whose code is the type waited for or negative, or all there is time for |
| MqttClient.Client.Yield | lib/MQTT/MQTTClient.h:558-575 | The loop of cycles stops at the first negative code with a failure |
| MqttCalls.YieldMeaning | lib/MQTT/MQTTClient.h:558-576 | Yielding succeeds exactly if no cycle's code is negative, and stops closed behind the first one that is |
| MqttClient.Client.Connect | lib/MQTT/MQTTClient.h:730-789 | State and return code of connecting, with the message in flight sent again in place of the answer of the server |
| MqttCalls.SuccessMeansAcceptedIff | lib/MQTT/MQTTClient.h:762-787 | Success of connect means a received and accepting CONNACK, however connecting turns out, if and only if nothing is in flight |
| MqttCalls.ConnectIff | lib/MQTT/MQTTClient.h:747-787 | With nothing in flight connect succeeds exactly if the server has accepted, and the session is then connected with no ping outstanding |
| MqttCalls.UnansweredSucceeds | lib/MQTT/MQTTClient.h:762-787 | With a message in flight connect can report success, and be connected, although the server has not answered |
| MqttCalls.LostPublishReaches | lib/MQTT/MQTTClient.h:934-1022 | A new client comes to that state by connecting without a clean session and publishing a message that is not acknowledged |
| MqttCalls.PubrelNeverResent | lib/MQTT/MQTTClient.h:763-772 | No run ever sets pubrel, so a QoS 2 message in flight is always sent again as a publish |
| MqttClient.Client.Subscribe | lib/MQTT/MQTTClient.h:851-887 | State and return code of subscribing |
| MqttCalls.SubscribeMeaning | lib/MQTT/MQTTClient.h:851-887 | A granted subscription succeeds exactly if a SUBACK came and its filter has an entry or there is room for one, and then its handler is in the map; a refused or unreadable one is reported as a success all the same and has none |
| MqttClient.Client.Unsubscribe | lib/MQTT/MQTTClient.h:898-930 | State and return code of unsubscribing |
| MqttCalls.UnsubscribeMeaning | lib/MQTT/MQTTClient.h:898-930 | Every unsubscribe ends disconnected, and on success without the handler |
| MqttClient.Client.SendPublish | lib/MQTT/MQTTClient.h:933-978 | State and return code of sending a publish and waiting for its acknowledgement, which ends its flight |
| MqttClient.Client.Publish | lib/MQTT/MQTTClient.h:982-1021 | State and return code of publishing, with the message kept in flight unless sessions are clean |
| MqttCalls.PublishMeaning | lib/MQTT/MQTTClient.h:933-1021 | Success at QoS 1 and 2 means that an acknowledgement was received, and if it carried the id of the message, that this is no longer in flight; a failure once built closes the session |
| MqttCalls.PublishIff | lib/MQTT/MQTTClient.h:933-1022 | A publish succeeds exactly if it goes out over a connection and, at QoS 1 and 2, a PUBACK or PUBCOMP comes that can be read |
| MqttClient.Client.Disconnect | lib/MQTT/MQTTClient.h:1039-1049 | Always ends disconnected; the code tells whether the packet went out |
| MqttCalls.DisconnectMeaning | lib/MQTT/MQTTClient.h:1040-1049 | Disconnecting succeeds exactly if the packet goes out, and closes the session; a clean one forgets handlers, ids and the message in flight |
| MqttCalls.ServeIsRun | lib/MQTT/MQTTClient.h:730-1049 | Every public call is a run of the actions of the session, so what holds of all runs holds of all uses |
| MqttPackets.SendPacket | lib/MQTT/MQTTClient.h:379-409 | However writes are split, the bytes on the wire are a prefix of the buffer, and SUCCESS says that it is all of it |
| MqttPackets.SendSucceedsIff | lib/MQTT/MQTTClient.h:385-401 | A packet is sent if and only if some write completes it, with no failed write up to it and no expiry before it |
| MqttPackets.PatientSendSucceeds | lib/MQTT/MQTTClient.h:385-398 | With progress on every write and no expiry, everything is sent |
| MqttPackets.DecodePacket | lib/MQTT/MQTTClient.h:412-438 | The multiplier loop computes the value of at most four length bytes, below 2^28 |
| MqttPackets.EncodeInto | lib/MQTT/MQTTPacket/MQTTPacket.c:28-44 | The length field is written behind the first byte and nothing else of the buffer changes |
| MqttPackets.LengthReadBack | lib/MQTT/MQTTClient.h:412-438 | Every length up to 268435455 is decoded from its encoding, and nothing behind it is consumed (section 2.2.3 of MQTT 3.1.1) |
| MqttPackets.FieldDecoded | lib/MQTT/MQTTClient.h:421-435 | Any length field of up to four bytes decodes to the number it stands for |
| MqttPackets.EncodedField | lib/MQTT/MQTTPacket/MQTTPacket.c:28-44 | The encoding of a length is a field of at most four bytes that stands for it |
| MqttPackets.ReadPacket | lib/MQTT/MQTTClient.h:447-490 | Return code, buffer contents and remaining input for every input and every split of the reads, with no write outside the buffer |
| MqttPackets.PacketReadBack | lib/MQTT/MQTTClient.h:447-490 | A packet that fits is read whole, copied exactly, and nothing behind it is consumed |
| MqttPackets.StreamReadBack | lib/MQTT/MQTTClient.h:447-490 | Packets sent back to back are read one by one, each whole and in order |
| MqttPackets.ReadFaithfullyIff | lib/MQTT/MQTTClient.h:447-490 | readPacket returns the type with the buffer holding exactly the bytes it took off the line if and only if a packet with its length in the shortest form stands there, fits, and all its reads are granted in full |
| MqttPackets.PacketTaken | lib/MQTT/MQTTClient.h:447-490 | Such a packet is copied exactly, whatever more the reads are granted, and nothing behind it is consumed |
| MqttPackets.CutLengthAccepted | lib/MQTT/MQTTClient.h:462-463 | A read that fails inside the length goes unnoticed: the bytes read so far count as the length, the type is returned, and the reading is never faithful |
| MqttPackets.CutLengthExample | lib/MQTT/MQTTClient.h:462-463 | A PUBLISH whose length is cut behind its first byte is taken for a shorter one |
| MqttPackets.ReencodedIffShortest | lib/MQTT/MQTTClient.h:463-463 | Re-encoding the length into the buffer reproduces the received bytes if and only if they were the shortest form |
| MqttPackets.OverlongLengthAccepted | lib/MQTT/MQTTClient.h:425-429 | A length that continues after four bytes is treated as if it ended there |
| MqttPackets.LoneHeaderAccepted | lib/MQTT/MQTTClient.h:462-462 | With nothing behind the first byte the packet counts as complete and empty |
| MqttPackets.TooLargeClosesSession | lib/MQTT/MQTTClient.h:465-469 | A packet that announces more than the buffer holds is code -2, nothing of its body is read, and a connected session closes |
| MqttPackets.ShortBodyClosesSession | lib/MQTT/MQTTClient.h:471-473 | A body cut short is reported as type 1, and the cycle then closes a connected session |
| Pipeline.PublishedInOrder | threads/communications_thread.cpp:125-136 | In every interleaving, the payloads handed to Publish are a prefix of one packet for each whole frame of the moves that put mails, in order: the list of the one datum the sensor gave with that frame's start, under its name, with its value and the time of the move that put it, or the empty list if it gave none |
| Pipeline.DrainedMeansPublished | threads/communications_thread.cpp:125-136 | Nothing is lost: when both mailboxes are drained, every whole frame has been published, each as that list |
| Pipeline.FramesAsGiven | threads/sensor_thread.cpp:79-129 | The mails put are start, datum and end of each frame as the moves give them, and the finished frames carry what the sensor gave |
| Pipeline.ControlSetsPeriod | threads/sensor_thread.cpp:26-46 | A rate of 10 or more that is asked for becomes the number of passes between two frames; a lower one changes nothing |
| Pipeline.ReadingGoesThrough | threads/behavior_coordinator_thread.cpp:30-87 | From a quiet state, eight moves of the sensor, eight of the coordinator and three of the communications thread hand exactly the packet of the reading to Publish |
| Pipeline.NeverStuck | threads/sensor_thread.cpp:83-88 | In no state do all three threads wait for each other; the sensor thread waits only while 256 blocks are in use |
| Pipeline.PutNeverDrops | threads/behavior_coordinator_thread.cpp:70-79 | Since each mail has a block of the pool, put never meets a full queue, so its ignored result loses nothing |
| Pipeline.RunKeeps | threads/behavior_coordinator_thread.cpp:30-87 | Every run keeps the accounting: published, queued and due packets are those of the mails sent |
| Pipeline.SensorKeeps | threads/sensor_thread.cpp:71-143 | Every atomic step of the sensor thread keeps it |
| Pipeline.CoordinatorKeeps | threads/behavior_coordinator_thread.cpp:35-82 | Every atomic step of the coordinator keeps it |
| Pipeline.CommsKeeps | threads/communications_thread.cpp:125-136 | Every atomic step of the communications thread keeps it |
| Pipeline.HandleAccounted | threads/behavior_coordinator_thread.cpp:44-58 | Handling one mail turns what it asks for into the entity list and the pending packet |
| Pipeline.FinishFramed | threads/sensor_thread.cpp:118-129 | The end mail makes exactly one packet due, the finished frame's |
| Pipeline.OneFrameEachPeriod | threads/sensor_thread.cpp:76-136 | While the poll rate is left alone, one frame is made in every period of passes, and in every pass if the interval is below a second |
| Pipeline.Board.SensorMove | threads/sensor_thread.cpp:71-143 | The thread's code over the shared variables makes exactly the specified step |
| Pipeline.Board.CoordinatorMove | threads/behavior_coordinator_thread.cpp:30-87 | The same for the coordinator |
| Pipeline.Board.CommsMove | threads/communications_thread.cpp:125-136 | The same for the communications thread |
| Pipeline.Board.Execute | threads/sensor_thread.cpp:71-143 | Any schedule of the three threads keeps the invariant and reaches the specified state |
| HttpBuilder.HttpRequestBuilder.Build | lib/HTTP/http_request_builder.h:61-124 | The buffer is head, body and a final NUL of exactly the computed size if and only if no header holds a NUL and the request is not chunked or has no body; bytes land past the end exactly when it is chunked with more than one byte of body |
| HttpBuilder.HttpRequestBuilder.RequestSize | lib/HTTP/http_request_builder.h:72-90 | The size computed beforehand is the length of what is printed |
| HttpBuilder.HttpRequestBuilder.PrintHead | lib/HTTP/http_request_builder.h:92-111 | The printing fills the buffer with the head and leaves zeros behind it |
| HttpBuilder.HttpRequestBuilder.SetHeader | lib/HTTP/http_request_builder.h:50-59 | Overwrites or inserts in key order |
| HttpBuilder.HttpRequestBuilder.HasHeader | lib/HTTP/http_request_builder.h:127-138 | True exactly if some header equals the key, and the value if one is given, as C strings |
| HttpBuilder.HttpRequestBuilder.constructor | lib/HTTP/http_request_builder.h:28-44 | The only header is Host, with the port exactly when it is not the schema's own |
| HttpBuilder.HostPort | lib/HTTP/http_request_builder.h:30-42 | The Host header carries the port, in decimal, exactly if the schema is http and it is not 80, or https and not 443 |
| HttpBuilder.PutHeaderIsUpdate | lib/HTTP/http_request_builder.h:50-59 | Setting a header is an assignment to a map and keeps the keys strictly increasing |
| HttpBuilder.PrintedIff | lib/HTTP/http_request_builder.h:96-111 | What is printed is the intended head if and only if no header holds a NUL; the lengths agree always |
| HttpBuilder.LengthTextIff | lib/HTTP/http_request_builder.h:66-70 | The announced Content-Length is the body's size if and only if that is below 10^9 |
| HttpBuilder.LengthAnnounced | lib/HTTP/http_request_builder.h:64-70 | Exactly the methods and bodies that call for a length get one, and writing it does not change whether the request is chunked |
| HttpReceiver.RequestReadBackIff | lib/HTTP/http_request_builder.h:74-116 | A receiver that follows section 3 of RFC 7230 reads back method, target, headers and exactly the body, and leaves what follows, if and only if the request is not chunked and no length is due or the body has less than 10^9 bytes |
| HttpReceiver.FieldsReadBack | lib/HTTP/http_request_builder.h:61-124 | The receiver reads the method, cuts the target into exactly path and query, and finds every header that was set, the length and the body |
| HttpReceiver.TargetReadBack | lib/HTTP/http_request_builder.h:96-100 | Cut at its first question mark the target gives back the path and the query, with no question mark exactly if the query is empty |
| HttpReceiver.MethodReadBack | lib/HTTP/http_request_builder.h:62-62 | The printed name of a method stands for that method |
| HttpReceiver.RequestExample | lib/HTTP/http_request_builder.h:61-124 | A whole request, byte by byte |
| HttpReceiver.AnyHeadersReadBackIff | lib/HTTP/http_request_builder.h:74-116 | For headers of any kind it does so exactly if they frame the body that is there |
| HttpReceiver.BuiltFraming | lib/HTTP/http_request_builder.h:64-70 | What the headers that build leaves tell the receiver about the body |
| HttpReceiver.ChunkedReadBack | lib/HTTP/http_request_base.h:131-184 | A chunked request is read back with the chunks joined together, whatever length it may also carry |
| HttpChunked.HttpRequestBase.SendBuffer | lib/HTTP/http_request_base.h:256-285 | Every byte goes out at most once and in order, with the return value and the log as specified |
| HttpChunked.HttpRequestBase.Send | lib/HTTP/http_request_base.h:88-111 | What goes out in one buffer is the printed head, which is the intended one exactly without NULs, and the body unless the request is chunked; a failed connection sends nothing |
| HttpChunked.HttpRequestBase.SendChunked | lib/HTTP/http_request_base.h:120-189 | The head, to which no length is added but in which one set before stays, then the chunks, stopping at the first error |
| HttpChunked.HttpRequestBase.SendChunks | lib/HTTP/http_request_base.h:145-184 | The chunk loop sends size line, data and line end of each chunk up to the first empty one, then the last chunk |
| HttpChunked.ChunkedArrives | lib/HTTP/http_request_base.h:145-184 | A chunked request goes out without an error, as head and chunked body that decodes to the chunks joined together, if and only if the socket's answers take head and parts one by one |
| HttpChunked.DechunkEncoding | lib/HTTP/http_request_base.h:145-184 | Decoding after section 4.1 of RFC 7230 undoes the chunked form, whatever follows |
| HttpChunked.SeriesArrives | lib/HTTP/http_request_base.h:256-285 | A series of buffers goes out whole and without an error if and only if the socket's answers are positive until they add up to the first buffer's length, and from there on for each following one |
| HttpChunked.SendWholeIff | lib/HTTP/http_request_base.h:256-285 | The same for one buffer, with the number of sends it takes; the only outcome without an error besides is a send that took nothing |
| HttpChunked.ProgressSendsAll | lib/HTTP/http_request_base.h:256-285 | A socket that always makes progress gets everything |
| HttpChunked.SizeLineFits | lib/HTTP/http_request_base.h:152-154 | The ten characters hold the size line if and only if the chunk is below 2^28 bytes |
| HttpChunked.PutChunked | lib/HTTP/http_request_base.h:131-134 | After asking for the chunked coding the request counts as chunked, whatever headers it had |
| HttpChunked.LogRepeatsPartialSends | lib/HTTP/http_request_base.h:264-268 | After a partial send the log holds the rest of the buffer twice |
| HttpChunked.LoggedWhole | lib/HTTP/http_request_base.h:262-268 | A buffer that goes out at once is logged as a whole if there is room for it, and otherwise not at all |
| HttpResponse.Reassembled | lib/HTTP/http_response.h:80-157 | However names, values, body and trailer are split into callbacks, the response is the assembled one: an entry for each header, the announced length, the whole body |
| HttpResponse.FragmentationIndependent | lib/HTTP/http_response.h:80-157 | Two ways to split the same message give the same response |
| HttpResponse.AllHeaders | lib/HTTP/http_response.h:80-106 | Every group of name and value fragments becomes one entry in each list |
| HttpResponse.LengthReadBack | lib/HTTP/http_response.h:108-115 | The first field named content-length, in any case, is read as the number it writes |
| HttpResponse.NoLengthKept | lib/HTTP/http_response.h:108-115 | Without such a field the expected length stays as it was |
| HttpResponse.AtoiReads | lib/HTTP/http_response.h:111-111 | The number is that of the digits behind any whitespace |
| HttpResponse.StrICmp | lib/HTTP/http_response.h:190-197 | Zero exactly for C strings that differ in nothing but case |
| HttpResponse.HttpResponse.SetHeaderField | lib/HTTP/http_response.h:80-92 | Appends to the current name or starts a new one |
| HttpResponse.HttpResponse.SetHeaderValue | lib/HTTP/http_response.h:94-106 | Appends to the current value or starts a new one |
| HttpResponse.HttpResponse.SetHeadersComplete | lib/HTTP/http_response.h:108-115 | The loop takes the length from the first field of that name |
| HttpResponse.HttpResponse.SetBody | lib/HTTP/http_response.h:129-157 | As long as nothing was written outside, the buffer holds exactly the bytes received; in chunked mode a write is never outside |
| HttpResponse.HttpResponse.Receive | lib/HTTP/http_response.h:80-157 | A whole message: the assembled response, and the bytes written outside the buffer are exactly those that arrive before the first chunk header and beyond the announced length |
| HttpResponse.HttpResponse.ReceiveBody | lib/HTTP/http_response.h:129-157 | The body callbacks, with that count of bytes outside |
| HttpResponse.HttpResponse.GetBodyAsString | lib/HTTP/http_response.h:163-166 | The body received |

## Left out

- Real numbers: `decodeDouble` is a parameter of the reader, and the printed text of a double is a parameter of the writers; values with reals are outside the round trip and the order.
- JsonGrammar.Grammatical: does not ask that text outside the escapes is UTF-8, so the results hold for more than RFC 8259 allows; the meaning of an escape pair whose second half is no low surrogate is the code's.
- JSON comments and source offsets: the reader runs with `collectComments` false, as the application does, and values carry no comments.
- `allowNumericKeys`, `dropNullPlaceholders` in the round trip, `useSpecialFloats`: features the application does not enable; the texts of numeric keys are not modelled.
- Reader.Reader.ReadArray: does not model arrays of 2^31 elements or more, whose index is an int that overflows.
- Reader.Reader.Parse: does not model nesting beyond 1000 levels, because the function that should stop it has an empty body and the behaviour is then undefined; the limit is a precondition.
- ValueOrder.LessTransitive: is stated for containers below 2^31 entries; `LessTransitiveIff` is the condition for all.
- `OurReader`, `StyledWriter`, `StyledStreamWriter`, `Path`: near copies of the modelled code, or experimental.
- Memory layout of `Value`: key policies, prefixed strings, moves and the null singleton are replaced by byte strings and sorted maps; a string longer than 2^32 - 1 bytes is not modelled.
- MQTT serializers: whether a packet can be built or decoded is an input of the cycle; MQTTAsync is a second, unfinished client.
- MqttClient.Client.Publish: does not model the packet id generator, whose next id is a parameter, nor the copy of the packet kept for sending again.
- Handlers that call back into the client while it delivers, and filters whose memory the caller changes after setting them.
- MqttPackets.SendPacket: the keepalive timer it restarts on success is not modelled; timers are inputs of the cycle.
- The '$' rule of section 4.7.2 of MQTT 3.1.1: the code has none.
- The text of a measurement packet: a payload is the entity list it is a function of, since its values are doubles.
- Fairness of the scheduler (Pipeline.ReadingGoesThrough gives the threads their turns), the wait for the flag that MQTT is up, the wait for a free block while `stdio_mutex` is held, the sensor-control mailbox with its double free, and service responses.
- Pipeline.PublishedInOrder: does not model a sensor entity named "header", which would be taken for a frame mark; the drivers' names are constants and none is that.
- Pipeline.SensorStep: does not model poll rates of 2147484 seconds or more, whose product with 1000 overflows a signed integer.
- `DecadaManager` reconnection, provisioning calls, TLS, secure elements, NTP, sensor drivers and the boot manager: network, foreign calls or finite domains.
- HttpReceiver.RequestReadBackIff: is stated for headers in which only the builder frames the body; AnyHeadersReadBackIff covers the others.
- HttpBuilder.HttpRequestBuilder.Build: does not model sizes of 2^32 bytes or more, where the unsigned size wraps around.
- HttpChunked.HttpRequestBase.SendChunks: does not model chunks of 2^28 bytes or more, which overflow the size buffer as SizeLineFits shows.
- HttpChunked.HttpRequestBase.SendBuffer: does not model buffers of 2^31 bytes or more, where the signed count wraps around.
- HttpResponse.HttpResponse.SetHeadersComplete: does not model numbers that `atoi` cannot represent, for which the standard leaves the result undefined.
- Failing allocations, the http_parser state machine that makes the callbacks, receiving from the socket, and URL parsing.
