# A Dafny model of the CBOR codec

This project models the core of the PHP CBOR extension: the encoder, the resumable stack-machine decoder, the
incremental `Decoder`, the two contextual tag systems (string references and value sharing), the diagnostic
notation printer, the UTF-8 automaton, and the hand-written arithmetic (integer keys, decimal fractions, float
narrowing). RFC 8949 is the format; RFC 8742 and RFC 3629 are cited where they apply.

`dafny verify dfyconfig.toml` checks everything.

## How it is built

| layer | modules |
|---|---|
| octets, UTF-8, integers, floats | `Bytes`, `Utf8`, `DecimalInt`, `Floats`, `FloatValues` (what patterns denote), `Reals` |
| heads of items | `Wire` (what a head means), `DiDecoder` (the reader with its 64-bit length accounting) |
| values and objects | `Values` (a heap of objects with ordered properties), `DecoderConfig` |
| decoding | `RecursiveDecoder` (recursive descent), `StackMachine` (frames, tokens, runs), `DecodeContext` (the class that does it in place), `IncrementalDecoder` (the buffer), `Chunking` (sessions over a stream) |
| what decoding keeps | `Invariants`, `Limits`, `Refinement`, `AppendixC`, `EarlyCount`, `PhpValues`, `TextValidity`, `TagHandling` |
| what data says | `Locality`, `IndefiniteLength`, `Members` (of maps), `AppendixA` (examples of RFC 8949) |
| encoding | `Encoder` (functions), `EncodeContext` (the class that does it in place) |
| what can be encoded | `Nesting` (levels), `Encodable`, `StringRefs` (their cost) |
| both together | `Cloning` (deep copy with sharing, the reference for a round trip), `Lockstep`, `RoundTrip`, `Isomorphism`, `Sharing`, `AnyGraph`, `ExactRoundTrip`, `DepthLimits` |
| string references, decoded | `Transparency`, `NamesAsValues` (where they are not transparent) |
| CBOR_CDE | `KeyOrder`, `Canonical`, `DeterministicForm`, `DeterministicRoundTrip`, `Injectivity`, `DeterministicErrors` |
| diagnostic notation | `EdnStrings`, `EdnPrinter` (machine and recursive printer), `EdnRefinement`, `EdnItems` (from bytes), `EdnReader` (an independent reader), `EdnOutput`, `EdnLayout`, `EdnContext` (the class) |
| decimal fractions | `BigNumber` (base-256 arrays in place), `RefusedNumber`, `DecimalFraction` |

The source works by changing objects step by step, so each of its stateful parts is a class here, with the fields
and the methods of the source. The methods are proved against functions on values (`Act`, `Drive`, `EncVal`,
`Completed`, ...); the theorems are about those functions and so hold for the methods.

Objects live in a heap (`Heap`, a sequence of property lists) and a value refers to them as `Obj(id)`. One model
therefore covers trees, shared objects and cycles. A round trip is stated against `Cloning`: a deep copy of the
value that visits objects once if they are shared and each time otherwise. That this copy is isomorphic to the
original (`Sharing`) or equal to it (`ExactRoundTrip`) is a theorem about the copy alone.

Assumed widths: 64-bit `size_t` and `zend_long`. Wrap-around of 64-bit lengths is modelled (`Wire.LexString`,
`DiDecoder`), and so are the limits of 32 bits on counts and string-reference numbers.

## Findings

These are points where the code does something that its comments or documentation do not say. The model follows
the code, and the theorems name the exact conditions.

- *The self-describe tag of a value is lost.* A value rooted at tag 55799 that is encoded without
  CBOR_SELF_DESCRIBE and decoded without it comes back without the tag, as the decoder skips the prefix
  (`RoundTrip.LosesTag`; src/decode.c:344-362). In every other case the root comes back.
- *The implicit namespace tag costs a level.* README.md:431 of the extension says it is not counted as a level;
  that is so for the encoder only. Encoder and decoder count levels differently in exactly these respects: the
  decoder counts the tags of references (both kinds), the namespace tag in front, and a self-describe tag that is
  kept; and it does not count a tag of the value that it skips. `RoundTrip.EncodingDecodes` says for every encoding
  how many levels the decoder needs, no more and no less; `DepthLimits.DepthLimitsAgree` relates the two limits, and
  `DepthLimits.NamespaceCostsLevelOfList` is a value that is encoded and not decoded under the same limit.
- *String references need the flag of the names' type.* A string met first as a name is registered as a PHP string,
  so a value that refers to it is one, too, instead of a `Cbor\Text` or `Cbor\Byte`; and a name that refers to a value of
  a class is refused. `NamesAsValues.FlagDecides`: references are transparent for all values exactly if the decoder
  turns values of the type of names into PHP strings. Without that flag they are transparent for every value in
  which names and values of that type have no string of three bytes or more in common
  (`Transparency.ReferencesAreTransparent`); `NamesAsValues.ValueBecomesName` and `NamesAsValues.NameBecomesValue`
  are the examples, for every name.
- *NaNs.* Every conversion through binary32 drops the sign of a NaN (`Floats.SingleIsLossless` is an
  if-and-only-if). Casting a negative NaN whose upper ten payload bits are 0 to binary16 gives minus infinity
  (`Floats.NarrowedNaN`).
- *One string length is reported as malformed instead of truncated*: 2^64 - 9 after a nine-byte head, for which the
  required length wraps to 0 (`Wire.TruncatedIffIncomplete`).
- *CBOR_CDE and cycles.* Recursion protection ends before the values of a map are encoded
  (src/encode.c:543-556), so a cycle ends with the depth error instead of the recursion error: if strings, names and
  tags are fine there is no other error (`DeterministicErrors.DeterministicOutcome`), and no cycle is ever encoded.
  `DeterministicErrors.SelfLoopIsTooDeep` and `DeterministicErrors.SelfLoopIsRecursion` compare the two encoders.
- *An invalid byte in diagnostic text takes lead bytes with it.* The comment at src/decode_edn.h:371 says the loop
  goes on over bytes that do not start a character; the condition is true of bytes that do (0xc0 and above). Nothing is
  lost by it, as `EdnStrings.TextRestReads` shows: more bytes are in hexadecimal than necessary.
- *`decode_dec_str` fails for some numbers that would fit*: exactly if 10^digits, rather than the number, does not
  fit the array (`BigNumber.DecodeDecStr`). 10^27530 is such a number (`RefusedNumber.RefusedThoughItFits`).

## Model

| member | source | states |
|---|---|---|
| Bytes.BigEndianRoundTrip | src/di_decoder.c:31-51 | Big-endian bytes of a number that fits the width denote that number |
| Bytes.ToBigEndianOf | src/di_encoder.c:12-46 | Every byte string is the big-endian form of its number at its length, so the form is unique |
| Wire.HeadRoundTrip | src/di_encoder.c:12-46 | Any 64-bit argument written behind any major type is read back with the same major type, argument and length, whatever follows |
| Wire.HeadIsShortest | src/di_encoder.c:12-46 | No head that carries the same argument is shorter than the one written (section 4.1 of RFC 8949) |
| Wire.TokenRoundTrip | src/decode_base.h:12-132 | Every token the encoder can write is read back whole, whatever bytes follow: tokens are self-delimiting |
| Wire.LexExtends | src/di_decoder.c:13-29 | A token read, or refused for another reason than truncation, is the same when more bytes follow |
| Wire.TruncatedIffIncomplete | src/decode_base.h:125-131 | "Truncated" is reported for exactly the inputs with a complete continuation, and for strings no buffer can hold except the one length that wraps to 0 |
| DiDecoder.ReadInt | src/di_decoder.c:110-139 | Success exactly if the head has an argument, with its value and length; on truncation a required length greater than what is there, and 0 if malformed |
| DiDecoder.ReadList | src/di_decoder.c:184-218 | As `ReadInt`, with indefinite length told apart |
| DiDecoder.ReadStr | src/di_decoder.c:141-182 | The content is the slice behind the head; required length 0 exactly where head plus content is a multiple of 2^64 or the head is reserved |
| DiDecoder.ReadFloat | src/di_decoder.c:220-240 | The bits of the float are the big-endian argument |
| DiDecoder.NextToken | src/decode_base.h:12-132 | Type dispatch, readers and the failure label together give the token that the wire format defines; nothing is stepped over on truncation |
| Utf8.TableIsAutomaton | src/utf8.c:22-41 | For every state and byte the table gives a class below 12 and exactly the transition of an automaton written from the byte ranges of RFC 3629 |
| Utf8.RejectIsAbsorbing | src/utf8.c:43-60 | From the reject state no input leads anywhere else |
| Utf8.RunMeansExpects | src/utf8.c:43-60 | From every state, acceptance means: the pending continuation bytes are in their ranges and well-formed UTF-8 follows |
| Utf8.IsUtf8 | src/utf8.c:43-60 | The loop, ASCII fast path included, returns true iff the string is well-formed (section 4 of RFC 3629) |
| Utf8.ScalarEncodes | src/utf8.c:62-87 | What a character decodes to is a scalar value, never a surrogate, and encodes to exactly the bytes read |
| Utf8.EncodeIsWellFormed | src/utf8.c:62-87 | Every scalar value encodes to one well-formed character that reads back as itself |
| Utf8.NextUtf8 | src/utf8.c:62-87 | The loop returns the scalar value and the position behind the character, or the invalid mark without moving |
| Utf8.CharacterwiseIffAccepted | src/utf8.c:62-87 | Reading character by character consumes the whole string iff the automaton accepts it |
| DecimalInt.ParsePrint | src/encode.c:366-418 | Every integer in [-2^64, 2^64-1] is parsed back from its decimal text |
| DecimalInt.ParsedIsPrinted | src/encode.c:366-418 | A string that parses is the canonical text of its integer, in range |
| DecimalInt.ParseIffPrinted | src/encode.c:366-418 | Parse and print are inverse: a string parses to i iff i is in range and the string is its text |
| DecimalInt.ScanUint64 | src/encode.c:366-418 | The digit loop stops at the right place with the exact value; the guard excludes overflow of 64 bits |
| DecimalInt.ConvertStringToInt | src/encode.c:366-418 | Succeeds iff the string is canonical, with sign and magnitude; covers the fix-up for -2^64 |
| DecimalInt.IntToStr | src/decode.c:434-453 | The text produced is the canonical decimal text, for every 64-bit magnitude and sign, including "...616" |
| Floats.HalfIsLossless | src/type_float_cast.h:55-72 | Where the size test answers 2, the binary16 form of a binary64 pattern expands to the identical 64 bits, infinities and NaN payloads included |
| Floats.SingleIsLossless | src/type_float_cast.h:55-72 | Where it answers 4, the binary32 form expands to the identical bits iff the pattern is not a NaN with the sign bit |
| Floats.SingleToHalfIsLossless | src/type_float_cast.h:39-53 | The same for binary32 to binary16 |
| Floats.NormalCast | src/type_float_cast_16.h:11-46 | The shift-and-or cast of a normal number with representable fraction gives exactly the fields of binary16 |
| Floats.NarrowedNaN | src/type_float_cast_16.h:11-46 | A NaN cast to binary16 stays a NaN iff it is positive or one of the ten kept payload bits is set |
| FloatValues.HalfDenotes | src/types.c:857-882 | Every binary16 pattern is widened to the same value: normal and subnormal numbers, infinities, NaNs with sign and payload (section 3.4 of IEEE 754) |
| FloatValues.SingleDenotes | src/types.c:884-902 | So is every binary32 pattern, except for the sign of NaNs |
| FloatValues.HalfItemDenotes | src/decode_zv.h:530-557 | A decoded half keeps its bits, or becomes a PHP float of the same value, as the flag says |
| FloatValues.SingleItemDenotes | src/decode_zv.h:530-562 | The same for single precision |
| FloatValues.HalfSizeIsExact | src/type_float_cast.h:55-72 | The size test answers 2 iff some binary16 pattern, +0, normal or not finite, is widened to the pattern |
| FloatValues.SingleSizeIsExact | src/type_float_cast.h:55-72 | and 4 iff none is but a normal or non-finite binary32 pattern is, signs of NaNs included |
| FloatValues.HalfSizeOfSingleIsExact | src/type_float_cast.h:39-53 | The test of binary32 answers 2 iff a binary16 pattern has the same form |
| Floats.LdexpIsExact | src/types.c:857-882 | Expanding by `ldexp` gives the pattern whose significand and exponent denote m * 2^e |
| Floats.SingleToHalf | src/type_float_cast_16.h:48-63 | The fields of the narrowed number, exponent rebiased and fraction shifted without loss |
| Values.SetPropIsUpdate | src/decode_zv.h:137-228 | Writing a property keeps names distinct, sets that one, leaves all others in place, and appends only new names |
| Values.NewKeyIsAppended | src/decode_zv.h:137-228 | A new name goes to the end: properties keep the order in which they were read |
| StackMachine.DriveResumes | src/decode.c:410-430 | A run over a, then b: a finished or failed run is the same with b appended, and a blocked one goes on from its saved state as if both had been there |
| StackMachine.ProcessResumes | src/decode.c:341-370 | The same with the optional self-describe prefix, which may be split anywhere |
| StackMachine.StepExtends | src/decode_base.h:12-132 | A step depends on the bytes it reads and no others |
| StackMachine.DriveLeavesSuffix | src/decode.c:410-430 | What is left over is always the end of the input |
| StackMachine.ProcessLeavesSuffix | src/decode.c:341-370 | The same after the prefix |
| Refinement.ItemRefined | src/decode_zv.h:271-295 | From any stack, running on equals decoding one item recursively and appending its value to that stack |
| Refinement.ElementsRefined | src/decode_zv.h:109-135 | A half-filled array frame stands for the rest of the recursive element loop |
| Refinement.PairsRefined | src/decode_zv.h:137-228 | A half-filled map frame stands for the rest of the recursive pair loop, errors in the same place |
| Refinement.TagRefined | src/decode_zv.h:230-269 | Entering, filling and leaving a tag frame, with handlers, equals the recursive tag rule |
| Refinement.BreakRefined | src/decode_zv.h:598-616 | A break closes what the recursive decoder would close |
| Refinement.MachineRefinesRecursion | src/decode.c:410-430 | For every input and configuration the machine reports exactly what recursive descent gives: value, objects, rest or error |
| Refinement.ProcessRefinesRecursion | src/decode.c:341-370 | The same for processing with the prefix |
| Invariants.AppendKeeps | src/decode_zv.h:271-295 | The append cascade keeps all frame invariants and fails no assertion |
| Invariants.PutPropertyKeeps | src/decode_zv.h:137-228 | Setting a property keeps names distinct and without leading NUL, and touches nothing but the heap |
| Invariants.ExitTagKeeps | src/decode_zv.h:686-833 | Leaving a contextual tag keeps the invariants and never finds its tables missing |
| Invariants.ActKeeps | src/decode_base.h:12-132 | Every token keeps the invariants: counts, pending keys in maps only, tables in step with the stack |
| Invariants.StepKeeps | src/decode_base.h:12-132 | Every step keeps them; the stack becomes empty only with a root value |
| Invariants.RunKeeps | src/decode.c:410-430 | Over whole runs: no reachable state violates them and no run ends with an internal error |
| Invariants.NamespacesMatchTags | src/decode_zv.h:618-684 | As many string-reference namespaces are live as there are namespace tags on the stack |
| Invariants.SharedRefsResolve | src/decode_zv.h:815-833 | A back-reference with a number that was given out always meets a known object, even if it is still being built |
| Invariants.ActNeedsNoMore | src/decode_zv.h:455-505 | Without a known data limit only the head reader reports truncation, so a blocked step has changed nothing |
| Limits.ActWithin | src/decode.c:262-273 | Every token keeps the stack within `max_depth`, every array and every object within `max_size`, what open containers still wait for included |
| Limits.RunStaysWithinLimits | src/decode.c:262-273 | Over whole runs: in every state where a run stops and for its result |
| Limits.AppendToMapWithin | src/decode_zv.h:137-228 | A property is added only where the count of a definite map, or the number of keys of an indefinite one, leaves room |
| AppendixC.TokensAgree | src/decode_base.h:12-132 | The head reader and the `well_formed` pseudocode agree on every head |
| AppendixC.ItemChecked | src/decode_base.h:12-132 | At any depth and position: an item that is decoded is well-formed with the same rest, and a syntax error means it is not |
| AppendixC.DecodingIsWellFormed | src/decode.c:410-430 | Decoding succeeds on well-formed items only (Appendix C of RFC 8949) and reads exactly their bytes; what fails with a syntax error is not well-formed |
| EarlyCount.ElementsTakeBytes | src/decode_zv.h:455-472 | n elements that decode take at least n bytes |
| EarlyCount.PairsTakeBytes | src/decode_zv.h:481-505 | n pairs that decode take at least 2n bytes |
| EarlyCount.ItemsAgree | src/decode_zv.h:455-505 | For items anywhere in the data, checked and unchecked decoding succeed together with the same outcome |
| EarlyCount.EarlyCheckIsSound | src/decode.c:394-404 | Decoding with the limit known and unknown succeeds on the same inputs with the same values |
| DecodeContext.Context.constructor | src/decode.c:313-333 | A new context is in the start state of the machine and valid |
| DecodeContext.Context.StackPop | src/decode.c:250-260 | The top frame is returned and gone, nothing from an empty stack; the depth counter stays the height of the stack |
| DecodeContext.Context.StackPush | src/decode.c:262-273 | A frame is pushed, with what the frame below passes on to its child, or the depth error is set |
| DecodeContext.Context.ZvAppend | src/decode_zv.h:271-295 | In place: the state of the machine after its append; terminates by the height of the stack |
| DecodeContext.Context.AppendToArray | src/decode_zv.h:117-135 | The element is added, and a complete array goes to its parent; or the size error |
| DecodeContext.Context.AppendToMap | src/decode_zv.h:137-228 | A key waits for its value, a value completes the pair; every refusal of a key as in the machine |
| DecodeContext.Context.AppendToTag | src/decode_zv.h:230-269 | The tag is popped and its content, handled or wrapped, goes to the parent |
| DecodeContext.Context.AppendCounted | src/decode_zv.h:109-115 | The frame is popped before its value is appended below |
| DecodeContext.Context.ExitStrRef | src/decode_zv.h:686-708 | The string with that number in the innermost namespace, or the error for a number out of range |
| DecodeContext.Context.ExitShareable | src/decode_zv.h:748-798 | The number reserved on entry belongs to the object |
| DecodeContext.Context.ExitSharedRef | src/decode_zv.h:815-833 | The object with that number, or the error for one not given out |
| DecodeContext.Context.AppendStringItem | src/decode_zv.h:371-401 | A string, checked, registered in the namespace if long enough, and appended |
| DecodeContext.Context.DoXString | src/decode_zv.h:403-433 | Chunks join the open string of their kind; other strings are items |
| DecodeContext.Context.ProcArrayStart | src/decode_zv.h:455-472 | Empty, too large, truncated early or a new frame |
| DecodeContext.Context.ProcMapStart | src/decode_zv.h:481-505 | The same for maps; the new object is known to an enclosing shareable tag at once |
| DecodeContext.Context.ProcIndefMapStart | src/decode_zv.h:507-518 | An open map frame with a new object |
| DecodeContext.Context.ProcTag | src/decode_zv.h:520-528 | Range check, handler, frame |
| DecodeContext.Context.ProcBreak | src/decode_zv.h:598-616 | Only an indefinite frame without a pending key is closed |
| DecodeContext.Context.ProcToken | src/decode_base.h:12-132 | The dispatch on tokens |
| DecodeContext.Context.DecItem | src/decode_base.h:12-132 | One step of the machine on the object; a truncated step reads nothing and changes nothing |
| DecodeContext.Context.DecodeNested | src/decode.c:410-430 | The loop ends as the run of the machine does, in the same state with the same bytes left |
| DecodeContext.Context.Process | src/decode.c:341-370 | The same with the prefix, which is skipped at most once |
| DecodeContext.DecodeFragment | src/decode.c:394-404 | Success iff one item fills the data exactly; otherwise the error |
| DecodeContext.CborDecode | src/decode.c:377-408 | The window given by offset and length is decoded as if it were all the data; a window outside the data is truncated |
| IncrementalDecoder.StreamGrows | src/decoder.c:107-128 | Two decodings that are bound to end alike still are when the same bytes are added to both |
| IncrementalDecoder.Decoder.constructor | src/decoder.c:28-40 | A new decoder has seen nothing and is not in the middle of an item |
| IncrementalDecoder.Decoder.Add | src/decoder.c:130-202 | Exactly the substring given by offset and length (negative ones as in `substr`) is appended to the stream; a shared buffer is never written to; fails only if the length would overflow |
| IncrementalDecoder.Decoder.Store | src/decoder.c:160-201 | Adopting, separating, compacting or growing: in every case the unread bytes are the old ones and the new chunk, and the count of consumed bytes is unchanged |
| IncrementalDecoder.Decoder.Append | src/decoder.c:181-200 | The copying branch does so in a buffer nobody else holds |
| IncrementalDecoder.Decoder.Separate | src/decoder.c:181-190 | The unread bytes move to a fresh buffer with room for the chunk |
| IncrementalDecoder.Decoder.MakeRoom | src/decoder.c:191-197 | Room by compaction first and reallocation second; unread and consumed bytes unchanged |
| IncrementalDecoder.Decoder.CopyToEnd | src/decoder.c:198-200 | The chunk lies behind the unread bytes |
| IncrementalDecoder.Decoder.ResetBufferOffset | src/decoder.c:94-105 | The overlapping move to the front keeps the unread bytes and the number of consumed ones |
| IncrementalDecoder.Decoder.DecodeBuffer | src/decoder.c:107-128 | Goes on with the item in progress as if its bytes had arrived together; a value, an error, or nothing yet |
| IncrementalDecoder.Decoder.Resume | src/decoder.c:115-127 | The saved context continues over the bytes not read so far |
| IncrementalDecoder.Decoder.Poll | src/decoder.c:204-222 | `process` answers true iff the bytes not used by earlier items start with a complete item at that moment; shrinking changes nothing one can see |
| IncrementalDecoder.Decoder.Shrink | src/decoder.c:212-216 | A smaller fresh buffer with the same unread bytes |
| IncrementalDecoder.Decoder.GetBuffer | src/decoder.c:279-285 | Consumed bytes and the returned copy make up everything added since the last reset |
| IncrementalDecoder.Decoder.GetValue | src/decoder.c:247-263 | The value of the last `process`, once unless asked to keep it |
| IncrementalDecoder.Decoder.Reset | src/decoder.c:224-238 | As new |
| Chunking.SessionSplitsStream | src/decoder.c:107-128 | Values so far and the items of what is pending are the items of the whole stream (RFC 8742) |
| Chunking.ChunkingIndependence | src/decoder.c:130-222 | For every interleaving of adds and polls: the values are a prefix of the items of the stream, all of them when drained, and an error is the error of the stream |
| Chunking.SplitsAgree | src/decoder.c:130-222 | Two drained sessions over the same bytes give the same values, and the same error or none |
| Chunking.Apply | src/decoder.c:130-222 | One operation on the object does what the abstract session does |
| Chunking.Session | src/decoder.c:130-222 | A whole session with a decoder object yields the abstract one |
| EncodeContext.Context.WriteInt | src/di_encoder.c:12-46 | The bytes made by shifts are the shortest head |
| EncodeContext.Context.EncLong | src/encode.c:281-288 | A signed 64-bit integer as unsigned or negative integer |
| EncodeContext.Context.EncStringRef | src/encode.c:881-919 | A reference, or the promise that the plain string with the updated table is what is left to write |
| EncodeContext.Context.EncStringLen | src/encode.c:343-364 | String, reference or UTF-8 error, with the table after it |
| EncodeContext.Context.EncPropertyKey | src/encode.c:497-524 | A name as integer or string, or the error for a missing flag |
| EncodeContext.Context.EncZval | src/encode.c:162-279 | The output grows by the encoding of the value and nothing else; depth and the set of busy objects are restored; errors as specified |
| EncodeContext.Context.EncodeList | src/encode.c:456-563 | A list: its head and its elements in order |
| EncodeContext.Context.EncRefCounted | src/encode.c:921-943 | The first encounter gets the next number and a tag, later ones a reference to it |
| EncodeContext.Context.EncodeObject | src/encode.c:211-218 | Sharing decides between a reference and the properties |
| EncodeContext.Context.EncodeHash | src/encode.c:456-563 | Recursion check, head, and properties in plain or sorted form |
| EncodeContext.Context.EncodeSorted | src/encode.c:476-556 | Keys to a buffer of their own, then sorted output after the recursion protection has ended |
| EncodeContext.Context.EncodeKeys | src/encode.c:492-533 | The encoded keys with their values, the output buffer as before |
| EncodeContext.Context.EncodeEntries | src/encode.c:440-448 | Sorted keys and the encodings of their values |
| EncodeContext.Context.EncodeTag | src/encode.c:603-644 | The namespace in force before the tag is in force after it; malformed references are refused |
| EncodeContext.CborEncode | src/encode.c:120-160 | The class computes the encoding function, prefix tags included |
| Lockstep.StringDecodes | src/decode_zv.h:371-401 | String or reference, it decodes to the string, and both sides' tables have grown alike (`next_index` equals the length of the decoder's list); a reference below the last level is the depth error |
| Lockstep.KnownStringDecodes | src/decode_zv.h:686-708 | A reference finds in the decoder's table what the string was when it was met first |
| Lockstep.KeyDecodes | src/encode.c:497-524 | A name, integer-looking ones included, comes back as a key with that name |
| Lockstep.HandmadeReference | src/encode.c:603-644 | A string reference made by hand is written iff the decoder will have a string under that number, and is decoded to it |
| Lockstep.ValDecodes | src/encode.c:162-279 | From any pair of states in step: the encoding of any value decodes to its clone, in place, with the states in step again, exactly if its levels fit; otherwise to the depth error |
| Lockstep.PropsDecode | src/encode.c:492-544 | The members of an object decode into the object under construction, in order |
| Lockstep.NewNamespace | src/encode.c:603-644 | A namespace tag starts with empty tables on both sides |
| Lockstep.OldNamespace | src/decode_zv.h:651-684 | Behind it both are back in the outer namespace |
| Lockstep.SharedInStep | src/encode.c:921-943 | A shared object gets the same number on both sides |
| Lockstep.SharedDecodes | src/decode_zv.h:719-813 | The first encounter makes the object known before its properties are read, so that back-edges resolve |
| Lockstep.ReferenceDecodes | src/decode_zv.h:815-833 | A later encounter decodes to the same object |
| RoundTrip.NoPrefix | src/decode.c:344-362 | Nothing but the self-describe tag is taken for the prefix |
| RoundTrip.DescribedDecodes | src/encode.c:131-133 | With the tag written: it is skipped, or comes back as a tag, by the decoder's flag |
| RoundTrip.LostTagDecodes | src/decode.c:344-362 | A value rooted at the tag that is written bare loses it |
| RoundTrip.EncodingDecodes | src/decode.c:377-408 | Whatever is encoded, under any compatible options, decodes to the clone of the value with exactly its objects if the decoder has the levels that the encoding needs, and to the depth error if not |
| Isomorphism.CloneValSame | src/decode_zv.h:719-833 | The copy has the shape of the original, every copied object mirrors its original, and back-edges lead to copies |
| Sharing.CloneValFrugal | src/encode.c:211-218 | If every object with two or more references is shared, no object is ever copied twice |
| Sharing.CloneIsIsomorphic | src/encode.c:921-943 | The copy of a graph, cycles included, is isomorphic to it |
| Sharing.EncodedGraphComesBack | src/decode_zv.h:719-833 | What has been encoded with sharing decodes to an isomorphic graph |
| AnyGraph.ValSucceeds | src/encode.c:162-279 | As no reference is followed twice except to shared objects, an object on the way down is never met again unless it is shared, and the depth is at most that of all objects together |
| AnyGraph.AnyGraphEncodes | src/encode.c:921-943 | Every finite graph, cyclic or not, whose multiply referenced objects are counted is encoded, given the flags for its strings and the levels of all its objects |
| AnyGraph.GraphComesBack | src/decode_zv.h:719-833 | Every such graph is encoded, and decodes to an isomorphic graph, back-edges included |
| AnyGraph.SelfLoopComesBack | src/decode_zv.h:719-833 | For instance an object that is its own property |
| ExactRoundTrip.ScalarComesBack | src/encode.c:290-320 | A scalar comes back identical iff the named options hold: floats by size and flags, string classes by flags |
| ExactRoundTrip.FloatComesBack | src/encode.c:301-320 | For every 64-bit pattern: identical iff the flags keep the chosen width and the sign of a NaN is not at stake |
| ExactRoundTrip.EqualIsIdentical | src/encode.c:162-279 | For values without objects, equal up to copies is identical |
| ExactRoundTrip.EncodedComesBack | src/decode.c:377-408 | What has been encoded decodes to the value: names, values and order of the properties of all objects |
| ExactRoundTrip.FullRoundTrip | src/decode.c:377-408 | Every value that meets the conditions of `CanEncode` is encoded, and decode(encode(v)) = v |
| Encodable.ValFits | src/encode.c:162-279 | If the flags cover strings and names, text is valid, tags are not negative and no path is too deep or comes back to an unshared object, encoding succeeds |
| Encodable.ValFitted | src/encode.c:162-279 | Without sharing nothing else is encoded |
| Encodable.EncodedIffEncodable | src/encode.c:120-160 | Without sharing a value is encoded iff it meets those conditions, with and without string references |
| Encodable.EncodableIsEncoded | src/encode.c:120-160 | With sharing, where a path may come back to counted objects, the conditions suffice |
| Encodable.NewString | src/encode.c:902-912 | As long as there are fewer than 2^32 different strings, there is a number for each new one |
| Encodable.ReferencesFollow | src/encode.c:881-919 | Then the encoding with references exists iff the plain one does |
| Encodable.ReferencesCostAtMostThree | README.md:421 | For every value with a plain encoding there is one with references, at most three bytes longer |
| StringRefs.ReferenceIsShorter | src/decode.c:455-470 | The length reaches the threshold for a number iff the encoded reference with that number is strictly shorter than the encoded string |
| StringRefs.NumberedIffShorter | src/encode.c:881-919 | A string with a number is written as a reference to it; any other is written in full and gets the next number iff a reference would have been shorter |
| StringRefs.ValNoLonger | src/encode.c:881-919 | For any value and table: where there is an encoding with references there is a plain one, no shorter, which needs at most one level less; if it is not longer either, the decoder needs what the encoder counts |
| StringRefs.CostAtMostThree | README.md:421 | An encoding with references is at most three bytes longer than the plain encoding |
| Locality.ItemIsLocal | src/decode.c:410-430 | An item that is decoded is the front of the input and with any other bytes behind it is decoded to the same value with the same objects, counts checked early or not |
| IndefiniteLength.ArraysDecodeAlike | src/decode_zv.h:117-135 | Anywhere in the data: n elements behind the head of an array of n are decoded to a list iff the same elements between 9f and a break are, to the same elements in the same order with the same objects |
| IndefiniteLength.ArrayDecodesAlike | src/decode_zv.h:117-135 | The same for whole inputs |
| IndefiniteLength.MapsDecodeAlike | src/decode_zv.h:137-228 | What is decoded behind the head of a map of n is decoded alike between bf and a break |
| IndefiniteLength.MapsDecodeBack | src/decode_zv.h:137-228 | and what is decoded between bf and a break is decoded alike behind a head with the number of its members |
| IndefiniteLength.MapDecodesAlike | src/decode_zv.h:137-228 | For whole inputs |
| IndefiniteLength.MapDecodesBack | src/decode_zv.h:137-228 | and back |
| IndefiniteLength.ChunksDecode | src/decode_zv.h:403-433 | Chunks are joined in order; if one of them is not text where it has to be, the string is refused even if the whole is valid |
| IndefiniteLength.StringsDecodeAlike | src/decode_zv.h:403-433 | A string in chunks is decoded to the value of the joined string, without a number in the namespace |
| IndefiniteLength.ChunkedIsChunks | src/decode_zv.h:403-433 | No other indefinite-length string is decoded |
| Members.ObjectsStay | src/decode_zv.h:137-228 | Decoding an item changes no object that existed before it |
| Members.MapDecoded | src/decode_zv.h:137-228 | The object of a decoded map has exactly the names of its members, under each the last value given for it; as many members as the head says; all names different under CBOR_MAP_NO_DUP_KEY |
| Members.MembersDecide | src/decode_zv.h:193-227 | Members that can be read are decoded as a map, or refused as duplicates iff CBOR_MAP_NO_DUP_KEY is given and a name comes up twice |
| Members.LastOneStays | src/decode_zv.h:203 | Written one after the other, the last value stays, and different names keep their order |
| Members.KeyFlagDecides | src/decode_zv.h:139-179 | A string is taken as a key iff the flag of its type is given, and text only if well-formed |
| TextValidity.DecodedTextIsValid | src/decode_zv.h:403-433 | Without CBOR_UNSAFE_TEXT every text string in the decoded data, chunks and keys included, is well-formed UTF-8, and an error says it is not only if one is not |
| TextValidity.ActJudges | src/decode_zv.h:403-433 | In every state: a text string that is not well-formed is refused for that, and nothing else is |
| TagHandling.OtherTagsAreKept | src/decode_zv.h:864-889 | A tag is interpreted only if it is one of those of an option that is given; any other is returned with its content |
| TagHandling.OnlyInstancesAreShared | src/decode_zv.h:748-790 | A shareable value whose place is not taken yet is accepted iff it is an instance of a class, and has its number from there on |
| PhpValues.DecodedIsPhp | src/decode_zv.h:117-135 | No integer and no tag number in what is decoded is out of the range of a PHP integer, in the value and in all objects |
| EarlyCount.CountIsChecked | src/decode_zv.h:445-497 | With known data, a count that the bytes behind the head cannot hold is refused at the head |
| AppendixA.Integers | src/decode_base.h:12-132 | Examples of Appendix A of RFC 8949 |
| AppendixA.LongerIntegers | src/decode_base.h:12-132 | with arguments of a byte |
| AppendixA.SimpleValues | src/decode_base.h:70-81 | false, true, null and undefined |
| AppendixA.Strings | src/decode_base.h:31-49 | and short strings |
| AppendixA.RegisteredTags | src/encode.c:881-919 | The tags of references, value sharing and self-described CBOR as they are registered |
| Transparency.ReferencesAreTransparent | src/decode_zv.h:618-717 | Whatever the plain encoding decodes to, the one with references, nested explicit namespaces included, is encoded and decodes to as well, given two levels more (three if a tag is skipped on one side) and names apart from values or the flag of their type |
| NamesAsValues.ValueBecomesName | src/decode_zv.h:371-401 | Without the flag: for every name of three bytes or more the value in {name: name} comes back as a PHP string with references, and unchanged without |
| NamesAsValues.NameBecomesValue | src/decode_zv.h:137-228 | and [name, {name: null}] is refused for its key |
| NamesAsValues.FlagDecides | src/decode_zv.h:371-401 | Under all options, with limits that allow a property in a namespace: references are transparent for all values iff the decoder turns values of the type of names into PHP strings |
| DepthLimits.ValLimited | src/encode.c:166-168 | A depth limit changes nothing but to turn success into the depth error, and does so iff the value takes more levels |
| Nesting.ValBounded | src/decode.c:262-273 | The decoder needs at least the levels that the encoder counts, one more at most for string references, and twice as many and one at most with sharing |
| DepthLimits.DepthLimitsAgree | src/decode.c:262-273 | Without sharing and emitted references: the decoder under limit m reports the depth error iff the encoder does under m less the levels of tags in front of the value (which may be -1, where a tag is skipped), and no error otherwise |
| DepthLimits.SameLimitAgrees | src/decode.c:262-273 | With no tag in front, encoder and decoder accept the same values under the same `max_depth`, empty containers costing nothing on either side |
| DepthLimits.EncoderLimit | src/encode.c:166-168 | A value is encoded under a limit, to the same bytes, iff the levels that the encoder counts are no more |
| DepthLimits.NamespaceCostsLevel | README.md:431 | With the implicit namespace, a value that takes all levels of one limit is encoded and then refused for its depth |
| DepthLimits.NamespaceCostsLevelOfList | README.md:431 | For instance a list with an element under the limit 1 |
| KeyOrder.LessIsBytewise | src/encode.c:420-424 | The order is that of bytes as unsigned numbers, a proper prefix first: one key is less iff at the first difference its byte is less or it has ended |
| KeyOrder.LessTotal | src/encode.c:420-424 | It is total: keys are less, equal or greater |
| KeyOrder.KeyIsInteger | src/encode.c:497-524 | With CBOR_INT_KEY a name is written as an integer iff it is the canonical text of one in range, and as that one |
| KeyOrder.LessTransitive | src/encode.c:420-424 | and transitive |
| KeyOrder.SortSorts | src/encode.c:437 | Sorting keeps the entries and makes distinct keys strictly ascending |
| KeyOrder.KeyIsInjective | src/encode.c:497-524 | Different names have different encoded keys, integer-looking ones included |
| Canonical.HashIsSorted | src/encode.c:426-454 | An object is its head and its entries in key order |
| Canonical.MapKeysAscend | src/encode.c:426-454 | The output of every map is its head, then keys and values by turns; each key is bytewise less than the later ones (section 4.2.1 of RFC 8949), and each member is that of a property, none missing |
| Canonical.SortedAlike | src/encode.c:426-454 | Objects equal up to property order have the same sorted keys, position by position |
| Canonical.ValCanonical | src/encode.c:456-563 | Values equal up to property order, at any depth, have the same encoding |
| Canonical.EncodingIsCanonical | src/encode.c:120-160 | The same for whole encodings: one value, one byte string |
| DeterministicForm.SortPermutes | src/encode.c:437 | Ordering properties loses none and adds none |
| DeterministicForm.SortEntries | src/encode.c:525-533 | Sorting properties by encoded key and encoding keys before sorting come to the same |
| DeterministicForm.ValOrdered | src/encode.c:426-454 | Where the ordinary encoding of the ordered graph exists, the deterministic encoding is the same bytes |
| DeterministicRoundTrip.NoCycle | src/encode.c:543-556 | No object that the deterministic encoder finishes contains itself, though nothing marks it as busy |
| DeterministicRoundTrip.DeterministicIffOrdered | src/encode.c:543-556 | It writes something iff the ordinary encoder does for the ordered graph, and then the same |
| DeterministicRoundTrip.DeterministicDecodes | src/encode.c:426-454 | A deterministic encoding decodes to the clone of the ordered graph, or to the depth error if the levels do not suffice |
| DeterministicRoundTrip.DeterministicRoundTrips | src/encode.c:426-454 | The value comes back, up to the order of properties, at every depth |
| DeterministicRoundTrip.OrderedComesBack | src/encode.c:426-454 | What comes back is the value with copies of its objects whose properties are in key order |
| Injectivity.EqualBytesAlike | src/encode.c:120-160 | Under CBOR_CDE values that a decoder could return as they were, and that are encoded to the same bytes, are equal up to property order at every depth |
| Injectivity.BytesDecide | src/encode.c:120-160 | So equal bytes mean equal values up to property order, and the other way round |
| DeterministicErrors.DeterministicIffEncodable | src/encode.c:426-454 | Under CBOR_CDE a value is encoded iff it meets the conditions for an encoding without sharing |
| DeterministicErrors.DeterministicOutcome | src/encode.c:543-556 | With fine strings, names and tags, whatever is not encoded ends with the depth error |
| DeterministicErrors.SelfLoopIsTooDeep | src/encode.c:543-556 | An object that is its own property ends with the depth error |
| DeterministicErrors.SelfLoopIsRecursion | src/encode.c:466-467 | where the ordinary encoder reports recursion |
| EdnStrings.TextRestReads | src/decode_edn.h:327-391 | At any point of a text, in either kind of fragment: an independent reader gets back exactly the remaining bytes, valid UTF-8 or not |
| EdnStrings.TextComesBack | src/decode_edn.h:327-391 | Whole texts lose nothing |
| EdnStrings.ByteRestReads | src/decode_edn.h:393-423 | The same for bytes under every spacing and wrapping |
| EdnStrings.BytesComeBack | src/decode_edn.h:393-423 | Whole byte strings lose nothing |
| EdnStrings.AtMostSixSpaces | src/decode_edn.h:408-418 | The spaces asked for never exceed those in the constant they are taken from |
| EdnItems.PrintedStringReads | src/decode_edn.h:286-426 | Every string as it is printed, at any level and under all accepted options, reads back as exactly its bytes |
| EdnItems.ItemOf | src/decode_base.h:12-132 | Every byte string that Appendix C of RFC 8949 calls well-formed spells an item, up to the same rest |
| EdnItems.WellFormedDataPrints | src/decode_edn.h:603-605 | So any well-formed data within the depth limit prints as the recursive printer prints its item |
| EdnReader.ItemReads | src/decode_edn.h:255-592 | Every printed item, at any level and under all options, is read back by an independent reader as what it means, whatever follows that does not continue it: integers, names, floats with indicator, strings, chunks, brackets, colons, commas, tags |
| EdnReader.WellFormedDataReads | src/decode_edn.h:603-605 | So the output for any well-formed data reads back as the item that the data spells |
| EdnReader.ScalarReads | src/decode_edn.h:490-558 | Scalars: false, true, null, undefined, simple(n), integers, floats |
| EdnReader.FloatReads | src/decode_edn.h:490-530 | Infinity, -Infinity and NaN exactly for the patterns that denote them, any other with a point, and the width |
| EdnReader.StringReads | src/decode_edn.h:286-426 | Strings, with their type |
| EdnOutput.PrintIsClean | src/decode_edn.h:286-426 | Whatever the data says, the output is well-formed UTF-8 without control, bidirectional control or line separator characters, and on one line unless indentation is asked for |
| EdnOutput.OutputIsValid | src/decode_edn.h:286-426 | So the output is well-formed UTF-8 for any data |
| EdnOutput.TextRestIsClean | src/decode_edn.h:327-391 | The same at any point of a text |
| EdnLayout.ActKeepsLevel | src/decode_edn.h:56-71 | With every token: the level of indentation is the indentation times the number of containers, chunked strings and tags that are open on lines of their own |
| EdnLayout.RunKeepsLevel | src/decode_edn.h:56-71 | So it is wherever a run stops |
| EdnLayout.ArrayLayout | src/decode_edn.h:192-203 | An array inside d others, in literal characters: elements one indentation deeper on lines of their own and the closing bracket back, or all on one line with spaces as asked for |
| EdnLayout.MapLayout | src/decode_edn.h:205-223 | The same for maps, with the colon |
| EdnLayout.TagLayout | src/decode_edn.h:225-231 | In a tag only a byte string longer than a fragment is put on lines of its own |
| EdnOutput.SpacesAreGroups | src/decode_edn.h:408-418 | One space for each group size asked for that ends at the offset |
| EdnOutput.WrapsAfter | src/decode_edn.h:393-423 | A wrapped fragment has as many bytes as asked for, and the next one starts afresh |
| EdnRefinement.ItemEndsWell | src/decode_edn.h:581-592 | No printed item ends with a separator character |
| EdnRefinement.TrimSeparator | src/decode_edn.h:581-592 | Removing the trailing separator removes it and nothing of the item before it |
| EdnRefinement.ItemPrints | src/decode_edn.h:233-254 | From any output, level and stack: the streaming machine adds exactly the text of the recursive printer, which joins with separators, and comes back to the same level |
| EdnRefinement.StreamingPrintsRecursively | src/decode_edn.h:233-254 | For every well-formed item and every setting the output is the recursive one and the level is 0 again |
| EdnRefinement.EncodedItemPrints | src/decode_edn.h:603-605 | The same from bytes, reading exactly those of the item |
| EdnContext.Context.AppendNl | src/decode_edn.h:40-54 | New line and indentation, or a space |
| EdnContext.Context.AppendIndent | src/decode_edn.h:67-71 | Level and new line together |
| EdnContext.Context.StackPop | src/decode_edn.h:106-112 | Nothing from an empty stack; a tag whose content was indented ends that |
| EdnContext.Context.StackPush | src/decode.c:262-273 | A frame within the depth limit, or the depth error |
| EdnContext.Context.Append | src/decode_edn.h:233-254 | The text, and the closing and separating that its frames ask for |
| EdnContext.Context.AppendCounted | src/decode_edn.h:184-190 | A complete container is closed on a line of its own |
| EdnContext.Context.AppendToArray | src/decode_edn.h:192-203 | Close or separate |
| EdnContext.Context.AppendToMap | src/decode_edn.h:205-223 | Colon, close or separate |
| EdnContext.Context.AppendToTag | src/decode_edn.h:225-231 | The parenthesis, and on to the parent |
| EdnContext.Context.AppendText | src/decode_edn.h:327-391 | The loop over a text writes the specified fragments |
| EdnContext.Context.AppendStep | src/decode_edn.h:332-390 | Each turn reads a byte or leaves a text fragment, so the loop ends although one branch reads nothing |
| EdnContext.Context.AppendInvalid | src/decode_edn.h:367-371 | The bytes written in hexadecimal, and where they end |
| EdnContext.Context.AppendBytes | src/decode_edn.h:393-423 | The loop over bytes with spacing and wrapping |
| EdnContext.Context.AppendSpaces | src/decode_edn.h:408-418 | One space for each group size that divides the offset |
| EdnContext.Context.DoXString | src/decode_edn.h:286-426 | A string or a chunk with its separators |
| EdnContext.Context.StartCounted | src/decode_edn.h:448-473 | The bracket, one level deeper, and a frame that expects the count |
| EdnContext.Context.StartIndef | src/decode_edn.h:459-478 | An opening bracket of indefinite length |
| EdnContext.Context.ProcTag | src/decode_edn.h:480-489 | The number and the parenthesis |
| EdnContext.Context.RemoveSeparator | src/decode_edn.h:581-592 | The backwards loop, unguarded as in the source, cuts off trailing separator characters; text before them stops it, so it never underflows |
| EdnContext.ActWrites | src/decode_edn.h:155-254 | In every state inside an array, map or tag something that is no separator has been written, as the loop needs |
| EdnContext.Context.ProcBreak | src/decode_edn.h:560-601 | Separator removed, closed, appended to the parent |
| EdnContext.Context.ProcToken | src/decode_base.h:12-132 | The dispatch on tokens |
| EdnContext.Context.DecodeNested | src/decode.c:410-430 | The loop over the bytes ends as the machine does |
| EdnContext.PrintItem | src/decode_edn.h:233-254 | From bytes to text: the output for a well-formed item is that of the recursive printer; it reads back as what the item means, and is clean |
| BigNumber.AddMultiple | src/encode.c:1215-1282 | Adding a multiple in place is exact and fails iff the sum does not fit |
| BigNumber.TimesTen | src/encode.c:1215-1282 | Multiplying by ten in place is exact and fails iff the product does not fit |
| BigNumber.TrimMax | src/encode.c:1215-1282 | The shortened range leaves out zeros only |
| BigNumber.NumberBound | src/encode.c:1215-1282 | A digit string denotes less than 10^digits |
| BigNumber.DecodeDecStr | src/encode.c:1215-1282 | None iff 10^digits does not fit; otherwise the minimal big-endian form of the number |
| RefusedNumber.RefusedThoughItFits | src/encode.c:1217 | 10^27530 fits the arrays that there are for its digits, and is refused |
| BigNumber.BinIntSub1 | src/encode.c:1284-1302 | One less, in place, and still minimal |
| DecimalFraction.MinimalIsUnique | src/encode.c:1284-1302 | A number has one minimal form |
| DecimalFraction.MinimalLength | src/encode.c:1165-1174 | At most eight bytes iff the number is below 2^64, so the choice of an integer or a bignum is right |
| DecimalFraction.FractionShifts | src/encode.c:1158-1164 | Shifting the point out of a digit string multiplies by the power of ten |
| DecimalFraction.DecimalIsExact | src/encode.c:1120-1176 | For every text of a finite number that is not too long: mantissa * 10^exponent is the number denoted |
| DecimalFraction.WholeIsPlain | src/encode.c:1165-1176 | A whole number of 64 bits is written as an integer without a tag |
| DecimalFraction.DecimalReads | src/encode.c:1165-1176 | The bytes written read back as exactly that exponent and mantissa, with and without the tag, as integer or bignum (section 3.4.4 of RFC 8949) |
| DecimalFraction.EncBinInt | src/encode.c:327-336 | Up to eight bytes as an integer of that value |
| DecimalFraction.BinaryMantissa | src/encode.c:1145-1157 | The binary form of the signed number, one less in magnitude for a negative one; zero loses its sign |
| DecimalFraction.EncDecimal | src/encode.c:1120-1176 | The method computes the specified encoding of the text, every error included |

## Left out

- PHP arrays that are not lists (CBOR_MAP_AS_ARRAY, non-list arrays as maps): another container for the same members.
- CBOR_FLOAT16 or CBOR_FLOAT32 alone: they round, and the software rounding combines the carry with an OR, so no
  nearest-rounding holds. Modelled are both flags together (the compact form) and neither.
- `Cbor\Serializable`, traversables and objects of other classes, `Cbor\EncodeParams`: user code.
- DateTime, GMP, `Uri` and `Decimal` objects: foreign calls; decimal fractions start from the text such a call returns.
- `shared_ref` modes `shareable`, `shareable_only` and `unsafe_ref`, and `Cbor\Shareable`: nested shareables do not
  round trip; modelled are `false` and `true`.
- Error offsets and message texts, and the error note behind diagnostic output that ends early.
- Diagnostic notation of data that is not well-formed: chunks that are not strings are not refused there.
- Digits of floats in diagnostic notation (`zend_gcvt`): a given text of digits, signs, points and exponents.
- Memory management, reference counts and object handlers: the set of objects with a reference count above one, and
  whether a buffer is held by others, are inputs.
- Option parsing, and the guard against re-entering a `Decoder`.
- The F16C instructions; modelled is the software cast.
- Equality of error codes between one-shot and incremental decoding: the early count check changes which error comes first.
- Sessions that go on after an error: a session ends with its first error here.
- Encoder.SortByKey: `zend_hash_sort` is taken to be a correct sort.
- BigNumber.DecodeDecStr: the `int` indices of the source are unbounded here, so inputs over 2 GB are not modelled.
- DecimalFraction.DecimalIsExact: `atoi` is unbounded here; exponents outside the range of `int` are not modelled.
- EdnContext.Context.AppendIndent: the indentation level is unbounded here.
- Lockstep.ValDecodes: values with tags 25, 28 or 29 made by the user are excluded when the decoder interprets these tags, since
  they are then references and not values.
- Transparency.ReferencesAreTransparent: that names and values are apart is asked for all objects of the heap and
  without regard to namespaces; a string that occurs as both in different namespaces does no harm.
- NamesAsValues.FlagDecides: under limits that are too small for an object with a property inside a namespace tag, nothing is
  said for decoders without the flag.
- Encodable.EncodableIsEncoded: with sharing the conditions ask every path to fit the depth, where the encoder takes each
  shared object on one path only; so there are shared graphs beyond them that are encoded.
- AnyGraph.GraphComesBack: every object with two or more references must be in the set of counted objects, as it is when
  PHP counts references and nothing else holds them.
- StringRefs.CostAtMostThree: not for CBOR_CDE, which excludes string references.
- Injectivity.EqualBytesAlike: values that no options return as they were (a float that is shortened, a string under the
  flag of the other class) share their bytes with what they come back as, so both values are asked to be kept by one decoder.
- DepthLimits.DepthLimitsAgree: with references the levels are those of `RoundTrip.Needs`, for which there is no encoder limit.
- Encodable.ReferencesCostAtMostThree: values with a tag 25 made by the user are excluded, as with references the encoder
  checks the number in such a tag, and refuses what the plain encoder writes.
- EdnItems.ItemOf: data of 4 GB and more, where counts over 32 bits could be well-formed and are refused.
- EdnReader.WellFormedDataReads: the same data is excluded; floats are read back as the text that `zend_gcvt` gave.
- EdnItems.WellFormedDataPrints: data of 4 GB and more, where counts over 32 bits could be well-formed.
