# Verification of the IoT kit's data formats

A Dafny model of four pieces of this firmware and of the theorems they rest on:

* **The Parson JSON library** (`src/parson_json/parson.c`): growable object and array containers, dotted paths,
  structural equality and deep copy, string unescaping and UTF-8, the serializer that runs once to measure and once to
  write, the recursive-descent parser, and the comment blanker.
* **The Paho MQTT packet codec** (`src/paho_mqtt_embedded_c/MQTTPacket`, MQTT 3.1.1): remaining length, strings,
  SUBSCRIBE, UNSUBSCRIBE, PUBLISH and CONNECT, the blocking and the resumable packet reader, and the client's topic
  matcher.
* **The kit protocol** (`src/atca_kit_client.c`, `src/usb_hid.c`, `scripts/at_kit_base.py`): hexadecimal in place, 64-byte
  reports with retries, and both ends of the conversation.
* **Two arithmetic kernels**: civil date to Unix seconds (`src/time_utils.c`) and fan speed to tachometer count
  (`src/devices/fan_click.c`).

Each format is specified by functions on values and sequences. Code that moves pointers, fills buffers or updates
structures is written as methods and classes and proved to do what the functions say; the theorems are lemmas about the
functions. What a text or packet means is defined a second time apart from the code, by the grammar of RFC 8259 in
`JsonGrammar` and by the byte layouts of `MqttWire` and `KitWire`, with literal bytes, and the two are proved to agree. `Json` values carry the capacity of their stores, because it decides when an insertion is refused. Text is a
sequence of bytes; a C string is what comes before the first NUL.

| part | files |
|---|---|
| shared | `Bytes` |
| JSON values and containers | `JsonValue`, `JsonMaps`, `JsonStore`, `JsonPath`, `JsonCompare`, `JsonTree` |
| JSON text | `Utf8`, `JsonText`, `JsonWriter`, `JsonParser`, `JsonReader`, `JsonUtf8`, `JsonComments` |
| the JSON grammar | `JsonGrammar`, `JsonLiterals`, `JsonSpelling`, `JsonAccepted`, `JsonRoundTrip`, `JsonParsed`, `JsonCommented` |
| MQTT | `MqttPacket`, `MqttSubscribe`, `MqttPublish`, `MqttConnect`, `MqttWire`, `MqttReader`, `MqttTopics` |
| kit protocol | `KitHex`, `KitDevice`, `KitReports`, `KitHost`, `KitRoundTrip`, `KitWire` |
| arithmetic | `Calendar`, `Fan` |

Verify with `dafny verify dfyconfig.toml`.

## Where the code and its promises part

Each of these is a lemma in the table below, with the exact condition where there is one.

* The serializer writes control bytes without a short escape raw, and the parser refuses them; so a text that holds such
  a byte as a `\u` escape is accepted once and not again.
* The parser accepts more than RFC 8259: vertical tab and form feed are white space, any byte opens a member's name, a
  dot needs no digits behind it, and anything may follow the value. It accepts less where a name is repeated, where an
  object has more than 960 members or an array more than 122880 elements, or where a value nests more than nineteen
  deep; and `\u0000` ends a string.
* An unpaired quote in a line comment makes the pass for block comments take everything behind it for a string and the
  other way round; that does harm exactly when the start of a block comment stands somewhere behind it.
* A comment that is never ended is not hidden: `/*[1]` is read as `[1]`.
* An object that has been parsed has its store cut to its count, so from 481 members on it refuses a new name that an
  object built by hand would take up to 960.
* `MQTTPacket_len` is one too large at exactly four lengths: 127, 16383, 2097150 and 2097151.
* A CONNECT for any version but 3 and 4 is counted twelve bytes short.
* The deserializers for lists and for PUBLISH leave the number of length bytes as the result of a failed read, so that
  the result is 1 exactly when the packet was read or its length took a single byte.
* The resumable reader counts "call again" answers towards its limit of four length bytes, and never completes a packet
  of remaining length zero.
* The blocking reader takes a length that does not end within four bytes for a complete one.
* The topic matcher misses a match of the standard exactly when a wildcard stands over nothing: `#` over a level that is
  not there, or either wildcard over an empty level.
* A kit command without its closing parenthesis, which is allowed, yields one zero byte too many.
* The limit on kit responses is cast to eight bits, 1147 becoming 123; at 123 data bytes the last is lost silently.
* Fan speeds whose count is the least of their configuration, those above product / (product / 65536 + 1), are read back
  as zero, and converting that back would divide by zero; for the smallest product they start above 63421 rpm.

## Model

| member | source | states |
|---|---|---|
| `JsonStore.JsonObject.Init` | src/parson_json/parson.c:295-304 | a new object is the empty one, with no store yet |
| `JsonStore.JsonObject.Resize` | src/parson_json/parson.c:329-359 | a resize changes the capacity and neither the members nor their order; capacity zero is refused |
| `JsonStore.JsonObject.NGetValue` | src/parson_json/parson.c:361-371 | finds the first member whose name is exactly the first n bytes given, or reports that there is none |
| `JsonStore.JsonObject.GetValue` | src/parson_json/parson.c:939-943 | is the lookup of a whole name |
| `JsonStore.JsonObject.Add` | src/parson_json/parson.c:306-327 | the object after the call is the one `ObjectAdd` describes: room is made first, a duplicate is refused second, so even a refused add may grow the store |
| `JsonStore.JsonObject.SetValue` | src/parson_json/parson.c:1461-1478 | replaces the value of a present name in place, else adds |
| `JsonStore.JsonObject.Remove` | src/parson_json/parson.c:1571-1589 | removes exactly the named member, the last one moving into its place; a missing name is refused and changes nothing |
| `JsonStore.JsonObject.Clear` | src/parson_json/parson.c:1609-1620 | no members, the store kept |
| `JsonStore.JsonArray.Resize` | src/parson_json/parson.c:407-423 | changes the capacity and nothing else |
| `JsonStore.JsonArray.Add` | src/parson_json/parson.c:394-405 | appends, growing by doubling from 15, and is refused only when the doubled capacity exceeds 122880 |
| `JsonStore.JsonArray.Remove` | src/parson_json/parson.c:1334-1345 | drops the element at the index, the last one moving into its place |
| `JsonStore.JsonArray.ReplaceValue` | src/parson_json/parson.c:1347-1354 | replaces one element, or is refused for an index out of range |
| `JsonStore.JsonArray.Clear` | src/parson_json/parson.c:1400-1409 | no elements, the store kept |
| `JsonMaps.AddBinds` | src/parson_json/parson.c:306-327 | adding binds the new name and no other, keeps names distinct, and succeeds exactly when there is room and the name is new |
| `JsonMaps.SetBinds` | src/parson_json/parson.c:1461-1478 | after a successful set the name looks up to the value and every other name to what it did before |
| `JsonMaps.RemoveUnbinds` | src/parson_json/parson.c:1571-1589 | swap-with-last removal drops exactly one binding |
| `JsonMaps.ApplyRefinesMap` | src/parson_json/parson.c:306-371 | every operation acts on the finite map of an object as the map operation does, and its status is decided by the map and the room left |
| `JsonMaps.RunRefinesMap` | src/parson_json/parson.c:306-371 | over every run of add, set, remove and clear: names distinct, count <= capacity <= 960, and the object is the map the run describes |
| `JsonMaps.ApplyRearranges` | src/parson_json/parson.c:306-327 | where things go: an added member is the last, a set one stays where it was, removal puts the last member into the hole, and everything else keeps its place; a refusal changes nothing |
| `JsonMaps.StoreDoubles` | src/parson_json/parson.c:306-316 | the store of an object grows for a new member of a full object only, to twice its size and at least 15, and not beyond 960; no other operation changes it |
| `JsonMaps.ArrayStoreDoubles` | src/parson_json/parson.c:394-405 | the same for arrays, up to 122880 |
| `JsonMaps.FreshObjectFillsTo960` | src/parson_json/parson.c:306-316 | an object grown from empty refuses a fresh name only when it holds 960 |
| `JsonMaps.TrimmedObjectRefusesFrom481` | src/parson_json/parson.c:309-314 | an object whose store was cut to its count, as the parser leaves it, refuses a fresh name exactly from 481 members on, because doubling would pass 960 |
| `JsonMaps.ArrayRemoveDropsOne` | src/parson_json/parson.c:1334-1345 | removal takes one element out of the bag, moves the last one into the hole and leaves every other in place |
| `JsonMaps.ArrayOpsByPlace` | src/parson_json/parson.c:1334-1409 | index by index: an append puts the element behind all others, a replacement changes the one index and keeps the length, removal moves the last element into the hole, a clear leaves none; an append is refused only by a full array, the others only for an index out of range, and a refusal changes nothing |
| `JsonMaps.ArrayRunByPlace` | src/parson_json/parson.c:1334-1409 | over every run of array operations the elements are those of a sequence that each operation changes at its place and nowhere else |
| `JsonMaps.ArrayOpsChangeBags` | src/parson_json/parson.c:394-405 | so the bag of elements changes by one element put in, one taken out, or one exchanged for another, and not at all when an operation is refused |
| `JsonMaps.TrimmedArrayRefusesFrom61441` | src/parson_json/parson.c:394-405 | an array whose store was cut to its count, as the parser leaves it, takes one more element exactly up to 61440, because doubling would pass 122880 |
| `JsonMaps.ArrayRunKeepsValid` | src/parson_json/parson.c:394-405 | over every run of array operations count <= capacity <= 122880 and all elements stay valid |
| `JsonPath.PathIsDotted` | src/parson_json/parson.c:965-971 | a path is its names with dots in between, empty names included |
| `JsonPath.DotSetKeepsGrown` | src/parson_json/parson.c:1496-1525 | every object a dotset changes or makes on its way has a store that has grown from nothing, at every level, so that only 960 members fill it |
| `JsonPath.DotSetThenGet` | src/parson_json/parson.c:1496-1525 | after a successful dotset the path reads back the value |
| `JsonPath.DotSetLeavesOthers` | src/parson_json/parson.c:1496-1525 | a dotset, successful or not, leaves every path that is not prefix-comparable by components as it was |
| `JsonPath.DotSetSucceedsWhen` | src/parson_json/parson.c:1496-1525 | a dotset succeeds if and only if every name on the way is an object or can be added, which a caller can check |
| `JsonPath.DotRemoveThenGet` | src/parson_json/parson.c:1591-1607 | dotremove succeeds exactly when the path leads somewhere, and afterwards it leads nowhere |
| `JsonPath.DotRemoveLeavesOthers` | src/parson_json/parson.c:1591-1607 | dotremove leaves every incomparable path as it was |
| `JsonPath.DotSetKeepsValid` | src/parson_json/parson.c:1496-1525 | objects changed through paths stay valid at every level |
| `JsonPath.DotRemoveKeepsValid` | src/parson_json/parson.c:1591-1607 | the same for removal |
| `JsonCompare.EqualsIffSameMeaning` | src/parson_json/parson.c:1676-1735 | equality is equality of meanings, arrays as sequences and objects as finite maps, although the loop over an object runs over one side only |
| `JsonCompare.EqualsIsAnEquivalence` | src/parson_json/parson.c:1676-1735 | reflexive, symmetric and transitive on values with distinct names |
| `JsonCompare.SymmetryIsDistinctness` | src/parson_json/parson.c:1707-1717 | a value compares the same way round with every other value if and only if its names are distinct at every level, which is why the equivalence law asks for distinct names; the library refuses to build anything else |
| `JsonCompare.ValidIsDistinct` | src/parson_json/parson.c:306-327 | every value the library builds has distinct names at every level |
| `JsonCompare.DeepCopyIsFaithful` | src/parson_json/parson.c:1146-1216 | the copy of any value the API can build is never refused, has the same contents in the same order, and is itself such a value, its stores grown from nothing at every level |
| `JsonCompare.DeepCopyEqualsOriginal` | src/parson_json/parson.c:1146-1216 | the library's own comparison finds the copy equal |
| `JsonTree.DeepCopy` | src/parson_json/parson.c:1146-1216 | on trees of nodes in memory: the copy is made of nodes that did not exist before, so it shares none with the original, which is untouched; it holds the value the value-level copy gives and compares equal |
| `JsonTree.Node.AddItem` | src/parson_json/parson.c:394-405 | adding a tree to an array node acts on the values as the append does, and takes over exactly the added nodes |
| `JsonTree.Node.AddMember` | src/parson_json/parson.c:306-327 | adding a tree to an object node acts on the values as the add does |
| `Utf8.VerifyIsRfc3629` | src/parson_json/parson.c:151-206 | the verifier accepts a sequence of k bytes if and only if it is a UTF8-char of section 4 of RFC 3629 |
| `Utf8.VerifyEncode` | src/parson_json/parson.c:166-206 | the encoding of any scalar value is accepted whatever follows it, and the same code point is recomputed |
| `Utf8.AcceptedIsEncoded` | src/parson_json/parson.c:166-206 | whatever is accepted is the encoding of a scalar value |
| `Utf8.IsValidUtf8` | src/parson_json/parson.c:208-218 | the loop decides validity of the whole text |
| `Utf8.ValidIffEncoded` | src/parson_json/parson.c:208-218 | a text is valid if and only if it encodes some sequence of scalar values |
| `Utf8.ValidConcat` | src/parson_json/parson.c:208-218 | valid texts joined are valid |
| `Utf8.EscapeEmitsEncoding` | src/parson_json/parson.c:458-495 | for every non-surrogate escape and every lead and trail pair (section 7 of RFC 8259) the bytes emitted are the encoding of the code point meant; everything else is refused |
| `JsonText.SerializeString` | src/parson_json/parson.c:840-866 | writes, or only measures, a string with its quotes and the seven short escapes |
| `JsonText.AppendString` | src/parson_json/parson.c:877-885 | copies the text with its NUL behind it, or only measures it |
| `JsonText.AppendIndent` | src/parson_json/parson.c:868-875 | four spaces a level |
| `JsonWriter.SerializeToBuffer` | src/parson_json/parson.c:730-838 | one pass without a buffer returns exactly the number of bytes that the pass with a buffer writes, and that text is the value's serialized form, NUL-terminated and nothing behind it changed |
| `JsonWriter.SerializationSize` | src/parson_json/parson.c:1218-1222 | is the length of the text plus its NUL |
| `JsonWriter.SerializeInto` | src/parson_json/parson.c:1224-1234 | refuses a buffer shorter than the size and leaves it alone; otherwise the buffer starts with the text and its NUL and is unchanged behind them |
| `JsonWriter.SerializeToString` | src/parson_json/parson.c:1256-1272 | allocates exactly the size and fills it with the text and its NUL |
| `JsonReader.SkipQuotes` | src/parson_json/parson.c:443-456 | stops past the first quote that is not escaped, or at the NUL before it |
| `JsonReader.ProcessString` | src/parson_json/parson.c:500-548 | unescapes into a buffer of one more byte than the body: the write position never passes the end of it, and the result is the specified one or a refusal |
| `JsonReader.GetQuotedString` | src/parson_json/parson.c:550-558 | the string literal at the cursor, and the cursor behind it |
| `JsonReader.ParseNumberValue` | src/parson_json/parson.c:697-708 | the decimal integer at the cursor, with or without a fraction of zeros |
| `JsonReader.ParseJsonValue` | src/parson_json/parson.c:560-582 | the recursive descent over cursors agrees with the specification of the grammar at every nesting, and leaves the cursor where the specification says |
| `JsonReader.ParseObjectValue` | src/parson_json/parson.c:584-631 | the same for objects: duplicate names, missing colons and values, and the trimming at the end |
| `JsonReader.ParseArrayValue` | src/parson_json/parson.c:633-669 | the same for arrays |
| `JsonReader.ParseJsonString` | src/parson_json/parson.c:908-915 | accepts only texts that start with an object or an array |
| `JsonReader.UnescapeStaysInside` | src/parson_json/parson.c:503-541 | an escape is never read past the closing quote |
| `JsonLiterals.LiteralRead` | src/parson_json/parson.c:443-558 | for every string body of section 7 of RFC 8259 (plain bytes, all short escapes, \uXXXX, surrogate pairs), apart from the reader's own functions: the literal is read to exactly the concatenation of what its pieces stand for, up to a NUL, and the cursor is left right behind its quote, whatever follows; a raw control byte makes it unreadable |
| `JsonLiterals.LiteralAt` | src/parson_json/parson.c:443-558 | and nothing else is read as a string: what is accepted is such a body between its first byte and a closing quote |
| `JsonSpelling.SpelledIsRead` | src/parson_json/parson.c:560-717 | for every spelling of an object or array by RFC 8259, defined apart from the parser, with any white space anywhere between its tokens and any text behind it: the parser gives exactly the value spelled, its stores cut to their counts, and the text behind, if and only if the value is one the library can hold, nests at most 19 deep and no literal holds a raw control byte; otherwise it refuses the text |
| `JsonAccepted.AcceptedIsSpelled` | src/parson_json/parson.c:560-717 | whatever is accepted is such a spelling of the value it gives, with white space in front of it |
| `JsonAccepted.AcceptsExactlyTheGrammar` | src/parson_json/parson.c:560-717 | so the parser accepts exactly that grammar, with exactly the value spelled and the text behind |
| `JsonRoundTrip.SerializeIsLaidOut` | src/parson_json/parson.c:730-875 | for every value and both layouts the serializer's text is the spelling of the value with four blanks a level, a line feed before every element and a blank behind every colon, or with none of these |
| `JsonRoundTrip.StringBack` | src/parson_json/parson.c:500-558 | a serialized string is read back exactly when it holds no control byte but the five with a short escape |
| `JsonRoundTrip.NumberBack` | src/parson_json/parson.c:697-708 | a serialized integer of any size, printed by %d or by %f, is read back in front of anything that ends a number |
| `JsonRoundTrip.RoundTrip` | src/parson_json/parson.c:560-717 | for every object or array the API can build, with integer numbers, compact or pretty: the parser reads the serializer's text to its very end and gives the same value, if and only if it nests at most 19 deep and no string holds a raw control byte; otherwise it refuses the text |
| `JsonRoundTrip.RoundTripEquals` | src/parson_json/parson.c:730-838 | what is read back compares equal to the original |
| `JsonRoundTrip.LayoutsAgree` | src/parson_json/parson.c:730-838 | the compact and the pretty text of a value are read to the same value |
| `JsonRoundTrip.RawControlByteIsRefused` | src/parson_json/parson.c:847-861 | any control byte without a short escape is written raw, and the text is then refused |
| `JsonParsed.ParsedIsValid` | src/parson_json/parson.c:560-669 | whatever text is accepted, its value is an object or array with distinct NUL-free names and counts within capacity at every level, every store cut to its count, and at most 19 levels deep |
| `JsonParsed.ParsedComesBack` | src/parson_json/parson.c:908-915 | for every accepted text and both layouts: writing the value and parsing it again gives back the very same value if and only if no string of it holds a raw control byte, and is refused otherwise |
| `JsonParsed.AcceptedThenRefused` | src/parson_json/parson.c:458-495 | a text with the escape \u0001 is accepted and its serialized form refused |
| `JsonParsed.AnyByteOpensAName` | src/parson_json/parson.c:443-456 | any byte but a NUL, white space and a closing brace opens a member's name as a quote does, because the reader skips it unseen |
| `JsonUtf8.ProcessKeepsUtf8` | src/parson_json/parson.c:500-548 | unescaping a well-formed UTF-8 body gives well-formed UTF-8, never longer than the body |
| `JsonUtf8.QuotedStringKeepsUtf8` | src/parson_json/parson.c:550-558 | so does reading a whole literal, as the C string its reader sees |
| `JsonComments.RemoveComments` | src/parson_json/parson.c:263-293 | the in-place pass leaves the text the specification of blanking gives, of the same length |
| `JsonComments.FindIsFirst` | src/parson_json/parson.c:276-283 | the search for a token finds its first place, and misses it only when it stands nowhere |
| `JsonComments.BlankOnlyBlanks` | src/parson_json/parson.c:263-293 | blanking keeps the length, and every byte is either kept or turned into a space |
| `JsonComments.ParseStringWithComments` | src/parson_json/parson.c:917-934 | both comment forms are blanked, one after the other, before parsing; the caller's text is not changed |
| `JsonCommented.CommentsAreInvisible` | src/parson_json/parson.c:263-293 | for every spelling, with any white space, block comments and line comments anywhere between its tokens, in front of it and behind it: the comment-tolerant parser gives what the plain one gives for the spelling without them; quotes in line comments come in pairs and no line comment holds the start of a block comment |
| `JsonCommented.SerializedTextHasNoComments` | src/parson_json/parson.c:263-293 | both passes are the identity on every serialized text |
| `JsonCommented.RoundTripWithComments` | src/parson_json/parson.c:917-934 | the comment-tolerant parser inverts the serializer exactly where the plain one does |
| `JsonCommented.LeadingCommentIsInvisible` | src/parson_json/parson.c:917-934 | white space and comments of either kind in front of serialized text do not change what is parsed |
| `JsonCommented.QuoteInALineComment` | src/parson_json/parson.c:263-293 | a line comment in front of a text without comments is blanked and nothing else if and only if its quotes come in pairs or no start of a block comment stands behind it, not even in a string |
| `JsonCommented.UnendedCommentIsRead` | src/parson_json/parson.c:276-283 | a comment that is never ended hides only its own two bytes: what follows a block comment's start is read as if it stood alone, its line comments blanked, and so is what follows the two slashes |
| `MqttPacket.Encode` | src/paho_mqtt_embedded_c/MQTTPacket/MQTTPacket.c:33-49 | writes the seven-bit groups of the length, lowest first, at the position given and nothing else |
| `MqttPacket.DecodeInvertsEncode` | src/paho_mqtt_embedded_c/MQTTPacket/MQTTPacket.c:58-85 | decoding inverts encoding for 0 to 268435455 whatever follows, in at most four bytes (section 2.2.3 of MQTT 3.1.1) |
| `MqttPacket.EncodeIsMinimal` | src/paho_mqtt_embedded_c/MQTTPacket/MQTTPacket.c:33-49 | no accepted encoding of a value is shorter than the one written |
| `MqttPacket.DecodedIsBounded` | src/paho_mqtt_embedded_c/MQTTPacket/MQTTPacket.c:58-85 | whatever the bytes, the decoded value stays within the protocol's limit |
| `MqttPacket.PacketLengthIsSafe` | src/paho_mqtt_embedded_c/MQTTPacket/MQTTPacket.c:88-102 | the size check never underestimates, and overestimates by one byte at exactly the four lengths 127, 16383, 2097150 and 2097151 |
| `MqttPacket.HeaderBack` | src/paho_mqtt_embedded_c/MQTTPacket/MQTTPacket.h:53-72 | type, dup, QoS and retain come back from the header byte |
| `MqttPacket.LengthsAgree` | src/paho_mqtt_embedded_c/MQTTPacket/MQTTPacket.c:246-255 | the length counted beforehand is the length written if and only if no string is given in two forms of different length |
| `MqttPacket.StringBack` | src/paho_mqtt_embedded_c/MQTTPacket/MQTTPacket.c:219-238 | a written string of at most 65535 bytes is read back inside a packet long enough for it |
| `MqttPacket.OutPointer.WriteString` | src/paho_mqtt_embedded_c/MQTTPacket/MQTTPacket.c:198-210 | appends the two length bytes and the content |
| `MqttPacket.InPointer.ReadLenString` | src/paho_mqtt_embedded_c/MQTTPacket/MQTTPacket.c:219-238 | reads a string if its length and content fit before the end; says where the pointer is left and what length has been stored either way |
| `MqttSubscribe.SerializeLength` | src/paho_mqtt_embedded_c/MQTTPacket/MQTTSubscribeClient.c:32-40 | the length of a list of filters, counted in a loop |
| `MqttSubscribe.Serialize` | src/paho_mqtt_embedded_c/MQTTPacket/MQTTSubscribeClient.c:54-90 | refuses a buffer shorter than the packet length and leaves it alone; otherwise writes header, counted length and list and nothing else, for SUBSCRIBE and UNSUBSCRIBE alike |
| `MqttSubscribe.WrittenIsPacket` | src/paho_mqtt_embedded_c/MQTTPacket/MQTTSubscribeClient.c:32-40 | what is written is the packet as the protocol has it when no filter is given in two forms of different length, and then it fits every buffer that passes the size check |
| `MqttSubscribe.Deserialize` | src/paho_mqtt_embedded_c/MQTTPacket/MQTTUnsubscribeServer.c:34-66 | fills the caller's arrays with the entries read; a broken list leaves the number of length bytes as the result; a packet of another type leaves everything as it was |
| `MqttSubscribe.RoundTrip` | src/paho_mqtt_embedded_c/MQTTPacket/MQTTSubscribeServer.c:35-70 | sections 3.8 and 3.10: for a list of any length, reading the serialized packet gives back packet id, dup and every filter with its QoS in order, whatever follows |
| `MqttSubscribe.OneMeansRead` | src/paho_mqtt_embedded_c/MQTTPacket/MQTTSubscribeServer.c:35-70 | for every packet of the right type: the result is 1 if and only if the whole list was read or the length took a single byte, which a caller can see in the buffer |
| `MqttSubscribe.OneIsAmbiguous` | src/paho_mqtt_embedded_c/MQTTPacket/MQTTSubscribeServer.c:55-66 | a packet of the second kind: result 1, and nothing of its list read |
| `MqttPublish.Serialize` | src/paho_mqtt_embedded_c/MQTTPacket/MQTTSerializePublish.c:59-95 | refuses a short buffer and leaves it alone, or writes header, counted length and body and nothing else |
| `MqttPublish.WrittenIsPacket` | src/paho_mqtt_embedded_c/MQTTPacket/MQTTSerializePublish.c:35-43 | what is written is the packet when the topic is not given in two forms of different length, and then it fits every buffer that passes the size check |
| `MqttPublish.Deserialize` | src/paho_mqtt_embedded_c/MQTTPacket/MQTTDeserializePublish.c:36-69 | reports flags, topic, packet id when the QoS is not zero, and the payload as a part of the buffer; says which of the caller's variables a packet of another type or an unreadable topic leaves alone |
| `MqttPublish.OneMeansRead` | src/paho_mqtt_embedded_c/MQTTPacket/MQTTDeserializePublish.c:36-69 | for every PUBLISH packet: the result is 1 if and only if the packet was read or its length took a single byte |
| `MqttPublish.RoundTrip` | src/paho_mqtt_embedded_c/MQTTPacket/MQTTDeserializePublish.c:36-69 | section 3.3: dup, QoS, retain, topic and payload come back, and the packet id when the QoS is not zero |
| `MqttConnect.LengthIsSize` | src/paho_mqtt_embedded_c/MQTTPacket/MQTTConnectClient.c:31-52 | for versions 3 and 4 the length computed beforehand is the length written |
| `MqttConnect.UnknownVersionIsMiscounted` | src/paho_mqtt_embedded_c/MQTTPacket/MQTTConnectClient.c:37-40 | any other version is written as version 3 but counted twelve bytes short |
| `MqttConnect.Serialize` | src/paho_mqtt_embedded_c/MQTTPacket/MQTTConnectClient.c:62-125 | refuses a short buffer and leaves it alone, or writes header, counted length and body and nothing else, for any version |
| `MqttConnect.WrittenIsPacket` | src/paho_mqtt_embedded_c/MQTTPacket/MQTTConnectClient.c:31-52 | for versions 3 and 4 and strings not given in two forms of different length, what is written is the packet, and it fits every buffer that passes the size check |
| `MqttConnect.Deserialize` | src/paho_mqtt_embedded_c/MQTTPacket/MQTTConnectServer.c:55-112 | reads the packet field by field over the structure given; the result, the structure, and on failure the fields read until then and the string being read are those specified |
| `MqttConnect.FlagsBack` | src/paho_mqtt_embedded_c/MQTTPacket/MQTTConnectClient.c:94-108 | every connect flag comes back from the flags byte |
| `MqttConnect.RoundTrip` | src/paho_mqtt_embedded_c/MQTTPacket/MQTTConnectServer.c:55-112 | section 3.1: the serialized packet is read back if and only if its credentials are readable (a password needs a user name and a byte; an empty user name passes only in front of a password), and then every field but the version comes back and the others stay as they were |
| `MqttWire.LengthIs` | src/paho_mqtt_embedded_c/MQTTPacket/MQTTPacket.c:33-49 | section 2.2.3: one to four seven-bit groups, lowest first, the top bit set on all but the last, given as a table of the four ranges |
| `MqttWire.SubscribeIsOnTheWire` | src/paho_mqtt_embedded_c/MQTTPacket/MQTTSubscribeClient.c:54-90 | sections 3.8 and 3.10, byte by byte: 0x82 or 0xA2 with the dup bit, the length, the packet id and every filter as a counted field, each with its QoS in a SUBSCRIBE |
| `MqttWire.PublishIsOnTheWire` | src/paho_mqtt_embedded_c/MQTTPacket/MQTTSerializePublish.c:59-95 | section 3.3, byte by byte: 0x30 with dup, QoS and retain, the length, the topic as a counted field, the packet id for QoS 1 and 2 only, the payload |
| `MqttWire.ConnectIsOnTheWire` | src/paho_mqtt_embedded_c/MQTTPacket/MQTTConnectClient.c:62-125 | section 3.1, byte by byte: 0x10, the length, MQIsdp and 3 or MQTT and 4, the flags from the top bit down, keep-alive, client id, will, user name and password |
| `MqttWire.OtherTypesAreRefused` | src/paho_mqtt_embedded_c/MQTTPacket/MQTTUnsubscribeServer.c:34-66 | a list packet is taken if and only if the upper half of its first byte is 8 or 10; any other type is reported by -1 for SUBSCRIBE and by 0 for UNSUBSCRIBE |
| `MqttWire.OtherTypesAreNotPublish` | src/paho_mqtt_embedded_c/MQTTPacket/MQTTDeserializePublish.c:36-69 | a packet is taken as a PUBLISH if and only if the upper half of its first byte is 3; any other type is reported by 0 and changes nothing |
| `MqttWire.UnreadableTopicLeavesFlags` | src/paho_mqtt_embedded_c/MQTTPacket/MQTTDeserializePublish.c:47-57 | a PUBLISH whose topic cannot be read leaves dup, QoS and retain of its first byte in the caller's variables and nothing else, and the number of length bytes as the result |
| `MqttWire.OtherTypesAreNotConnect` | src/paho_mqtt_embedded_c/MQTTPacket/MQTTConnectServer.c:68-84 | a packet of another type, or whose protocol name and version, compared up to the shorter name, are not MQIsdp and 3 or MQTT and 4, is refused and changes nothing |
| `MqttWire.WrittenListIsRead` | src/paho_mqtt_embedded_c/MQTTPacket/MQTTSubscribeServer.c:35-70 | every list of counted fields, each with its QoS in a SUBSCRIBE, is read to exactly its entries, whatever follows |
| `MqttWire.ReadListIsWritten` | src/paho_mqtt_embedded_c/MQTTPacket/MQTTSubscribeServer.c:35-70 | and a list that is read to its end is one of these, byte by byte |
| `MqttReader.BlockingSource.Decode` | src/paho_mqtt_embedded_c/MQTTPacket/MQTTPacket.c:58-85 | the decoding loop over a source: value, count and the bytes taken, also for a length that does not end |
| `MqttReader.BlockingSource.ReadInto` | src/paho_mqtt_embedded_c/MQTTPacket/MQTTPacket.c:294-320 | one blocking read of a packet: result, buffer and what is left of the stream |
| `MqttReader.Transport.DecodeNb` | src/paho_mqtt_embedded_c/MQTTPacket/MQTTPacket.c:328-355 | the resumable decoder carries on from the fields left by the last call exactly as the step specification does |
| `MqttReader.Transport.ReadNb` | src/paho_mqtt_embedded_c/MQTTPacket/MQTTPacket.c:365-413 | one call of the resumable reader moves the transport's fields, the buffer and the source as the step specification does, for a buffer that holds the header and length that come |
| `MqttReader.FiveBytesSuffice` | src/paho_mqtt_embedded_c/MQTTPacket/MQTTPacket.c:372-392 | any buffer of five bytes is large enough for the header and length that are written before its size is looked at |
| `MqttReader.PollNb` | src/paho_mqtt_embedded_c/MQTTPacket/MQTTPacket.c:357-413 | calling again while the result is 0 leads the transport, the buffer and the source to the end of the run that the theorems below are about |
| `MqttReader.PollingIsBlockingRead` | src/paho_mqtt_embedded_c/MQTTPacket/MQTTPacket.c:365-413 | for any answers of the transport and any number of calls, a packet completed since the last reset is the one a single blocking read takes from the same bytes; a call that completes nothing loses and repeats no byte |
| `MqttReader.PolledPacket` | src/paho_mqtt_embedded_c/MQTTPacket/MQTTPacket.c:365-413 | a positive result means the buffer holds the header byte, the shortest encoding of n, and the next n bytes of the stream, and the stream is left right behind them |
| `MqttReader.WhenPollingDelivers` | src/paho_mqtt_embedded_c/MQTTPacket/MQTTPacket.c:338-347 | polling a source that never fails delivers a packet that is there and fits, if and only if all its length bytes are among the four answers after the header, empty answers included, the body is not empty, and the answers allow for all of it |
| `MqttReader.FailureEndsTheRun` | src/paho_mqtt_embedded_c/MQTTPacket/MQTTPacket.c:365-413 | in every phase, for any answers and any number of calls: a failure of the transport, be it for the header, the length or the body, is the last answer used up, the result is then -1 and the reader is reset; so a run that ends in 0 has met none |
| `MqttReader.BlockingReadsOne` | src/paho_mqtt_embedded_c/MQTTPacket/MQTTPacket.c:294-320 | for every stream: the blocking reader takes one packet and leaves what follows, or fails for a short buffer with the stream behind the length, or for a short stream with nothing left; a length without an end after four bytes, or at the end of the stream, goes unnoticed and counts by its bytes so far |
| `MqttReader.OneEmptyAnswerLosesLongPackets` | src/paho_mqtt_embedded_c/MQTTPacket/MQTTPacket.c:338-347 | one call-again answer behind the header loses every packet whose length takes four bytes, whatever the transport answers later and however often it is polled |
| `MqttReader.SteadyAnswersDeliver` | src/paho_mqtt_embedded_c/MQTTPacket/MQTTPacket.c:365-413 | without it the same packet arrives: header and length byte by byte, then the body |
| `MqttReader.EmptyPacketNeverCompletes` | src/paho_mqtt_embedded_c/MQTTPacket/MQTTPacket.c:394-403 | a packet of remaining length zero is never completed, whatever the transport answers: a request for no bytes reads as call again |
| `MqttTopics.IsTopicMatched` | src/paho_mqtt_embedded_c/MQTTClient-C/MQTTClient.c:141-166 | the character loop decides the recursive relation of the specification from any pair of positions |
| `MqttTopics.MatcherIsLevelwise` | src/paho_mqtt_embedded_c/MQTTClient-C/MQTTClient.c:138-166 | for filters with wildcards placed as section 4.7.1 requires, and any topic: the matcher accepts if and only if the standard's level-by-level relation holds and every wildcard stands over a level that is there and not empty; so it is sound for the standard |
| `MqttTopics.StandardMatchesMissed` | src/paho_mqtt_embedded_c/MQTTClient-C/MQTTClient.c:145-165 | three matches of the standard the matcher misses: a multi-level wildcard over a level that is not there, one over an empty level, and a single-level wildcard over an empty level |
| `MqttTopics.MissedMatches` | src/paho_mqtt_embedded_c/MQTTClient-C/MQTTClient.c:138-166 | for every match of the standard: the matcher misses it if and only if some wildcard of the filter stands over an empty level or, the multi-level one, right behind the last level |
| `KitHex.HexBack` | src/atca_kit_client.c:116-145 | contracting the expansion of any data gives the data |
| `KitHex.LowerHexBack` | src/atca_kit_client.c:131-145 | the same for the host's lower-case digits |
| `KitHex.ConvertAsciiToBinary` | src/atca_kit_client.c:147-166 | contraction in place equals contraction of the text as it was, and touches nothing else: no unread digit is overwritten; a last odd digit is paired with the character behind it |
| `KitDevice.CreateUsbPacket` | src/atca_kit_client.c:913-942 | expansion in place, last byte first, leaves exactly the status and data in hexadecimal and nothing behind changed: no unread byte is overwritten |
| `KitDevice.ConvertData` | src/atca_kit_client.c:949-956 | a response over the limit is cut to it and its status replaced |
| `KitDevice.FinishResponse` | src/atca_kit_client.c:1010-1017 | status in front, length increased only below the limit, then the packet |
| `KitDevice.ExtractDataLoad` | src/atca_kit_client.c:881-903 | refuses a command without an opening parenthesis and leaves it alone; otherwise the data lies contracted right behind the parenthesis |
| `KitDevice.LowerMessage` | src/atca_kit_client.c:979-981 | all bytes but the last of the message are lowered, nothing else |
| `KitReports.Receiver.ReportOut` | src/usb_hid.c:152-171 | a report adds its bytes up to the first newline, which announces the message and puts a NUL behind it |
| `KitReports.GatherReports` | src/usb_hid.c:152-171 | a message ended by its only newline, cut into padded 64-byte reports, is gathered whole and announced once, with its last report |
| `KitReports.SendResponseMessage` | src/usb_hid.c:68-119 | the send loop terminates, and sends and reports what the specification with five retries says; a missing response is refused |
| `KitReports.SuccessMeansAllSent` | src/usb_hid.c:68-119 | what went out is always the first reports, once each and in order; for a non-empty response the sender returns true if and only if that is all of them |
| `KitReports.WhenSendingSucceeds` | src/usb_hid.c:103-114 | the sender succeeds if and only if at most five attempts are refused before the last report is accepted |
| `KitHost.KitWrite` | scripts/at_kit_base.py:43-50 | the host writes the command in 64-byte reports padded with EOT, each behind a report id of zero |
| `KitHost.KitRead` | scripts/at_kit_base.py:52-69 | the host reads reports until a newline and drops leading blanks of the first and everything after the newline |
| `KitHost.ReadReports` | scripts/at_kit_base.py:52-69 | a message comes back whole from its padded reports, and further reports are left alone |
| `KitHost.ParseResponse` | scripts/at_kit_base.py:71-80 | parsing a response gives its status and its data in hexadecimal |
| `KitRoundTrip.CommandArrives` | src/atca_kit_client.c:881-903 | for any target without parenthesis, newline or NUL and any data: the reports are gathered into the command, announced once, and lowering and extracting in the device's buffer gives exactly the data |
| `KitRoundTrip.ReceiveCommand` | src/usb_hid.c:152-171 | feeding those reports to the device's receiver, lowering and extracting reports success, announces one message and leaves exactly the data in the buffer |
| `KitRoundTrip.MissingParenthesisAddsAByte` | src/atca_kit_client.c:891-900 | a command without its closing parenthesis is accepted with one zero byte too many |
| `KitRoundTrip.ResponseArrives` | src/atca_kit_client.c:949-956 | the host recovers status and data if and only if the data has at most 122 bytes; at 123 the last byte is lost under an unchanged status, above that the status tells of the overflow |
| `KitRoundTrip.SentResponseArrives` | src/usb_hid.c:68-119 | a response the sender reports as sent is read by the host with its status and data; otherwise only a proper part of its reports went out |
| `KitWire.CommandIs` | scripts/at_kit_base.py:43-45 | a command is its target, the data in lower-case digits between parentheses, and a line feed |
| `KitWire.ResponseIs` | src/atca_kit_client.c:913-942 | a response is its status in upper-case digits, the data likewise between parentheses, and a line feed |
| `KitWire.ReportIs` | scripts/at_kit_base.py:43-50 | a report is 64 bytes: its part of the text and then the padding, the byte 4 from the host |
| `KitWire.LoweringIsCaseFolding` | src/atca_kit_client.c:979-981 | lowering leaves no upper-case letter and makes two texts equal if and only if they differ in the case of letters only |
| `KitWire.CaseMakesNoDifference` | src/atca_kit_client.c:979-981 | commands that differ in the case of letters only are the same to the device |
| `KitWire.EveryReportHasAnId` | scripts/at_kit_base.py:47-50 | every report goes out behind a report id of zero |
| `KitWire.LeadingBlanksAreIgnored` | scripts/at_kit_base.py:59-67 | whatever is not printable in front of the first report makes no difference, and a first report of nothing else leaves its last byte |
| `KitWire.FirstReplyCounts` | scripts/at_kit_base.py:71-80 | the first place in a text with two letters or digits, an opening parenthesis and a closing one somewhere behind it counts; its data ends at the first closing one, and it is refused unless the two are hexadecimal |
| `KitWire.NoReplyIsRefused` | scripts/at_kit_base.py:71-80 | a text without such a place is refused |
| `KitWire.ResponseLimitIs122` | src/atca_kit_client.c:949-956 | in numbers: recovered up to 122 bytes, the last one lost at 123, status 0xC2 above |
| `KitWire.FiveRefusalsAreTaken` | src/usb_hid.c:103-114 | in numbers: the sender succeeds if and only if the last report is accepted among the first attempts, five more than there are reports |
| `Calendar.CountsSteps` | src/time_utils.c:53-58 | the day count of the date reached by k steps of one calendar day from January 1st, 1970 is k |
| `Calendar.Reached` | src/time_utils.c:42-65 | every valid date from the epoch on is reached by stepping |
| `Calendar.LeapYearsByDivision` | src/time_utils.c:54-54 | the three divisions count the Gregorian leap years |
| `Calendar.ConvertCountsSeconds` | src/time_utils.c:42-65 | in 32-bit arithmetic the conversion is the seconds elapsed since the epoch if and only if they are below 2^32 |
| `Calendar.ConvertIsStrictlyIncreasing` | src/time_utils.c:42-65 | for points in time that 32 bits can count, a later one converts to a greater number and only a later one does |
| `Calendar.SecondsCountSteps` | src/time_utils.c:42-65 | the seconds counted for the moment reached by k steps of one second, through minutes, hours, days, months and leap years, from the epoch are k |
| `Fan.Product` | src/devices/fan_click.c:180-187 | for every edge and range setting the constant fits 32 bits and is a multiple of 2^16 |
| `Fan.ProductIs` | src/devices/fan_click.c:180-187 | for every configuration: the edges less one, 2, 4, 6 or 8, times the multiplier, 1, 2, 4 or 8, times 983040 |
| `Fan.CountsAreQuotients` | src/devices/fan_click.c:169-218 | both conversions give the constant divided by their argument, rounded down and cut to 16 bits |
| `Fan.RegistersAre` | src/devices/fan_click.c:242-243 | the high register holds the upper eight bits of a count and the low one its lower five, at the top |
| `Fan.SpeedRoundTrip` | src/devices/fan_click.c:169-218 | for every configuration and speed whose count fits the registers: the speed is read back as zero if and only if it is above product / (product / 65536 + 1); any other is read back as at least what was set and converts to the same count |
| `Fan.FastSpeedsReadZero` | src/devices/fan_click.c:198-218 | for the smallest product 64000 rpm is read back as zero and 63000 is not |
| `Fan.RegistersHoldThirteenBits` | src/devices/fan_click.c:242-243 | splitting a count over the two registers and joining it again is the identity if and only if it is at most 8191 |

## Left out

- JsonCommented.CommentsAreInvisible: line comments that hold the start of a block comment, which the first of the two passes takes for one, and line comments with an unpaired quote, for which `JsonCommented.QuoteInALineComment` has the exact condition in front of a text without comments.
- JsonReader.ParseNumberValue: numbers are integers of any size, written with at most a fraction of zeros, as the serializer writes them; a text whose number would leave the integers (another fraction, an exponent, a hexadecimal prefix, inf or nan) counts as not accepted, and the rounding of `strtod` for integers a double cannot hold is not modelled.
- JsonCompare.EqualsIffSameMeaning: numbers are integers and compared exactly, where the library allows a difference below 0.000001.
- JsonPath.DotSetThenGet: the nested object that the C code changes through its pointer is put back into a value; aliasing of subtrees is modelled for deep copy only.
- JsonReader.ProcessString: the output buffer is a second one, as in the C code; shrinking it afterwards by a copy is not a step of its own.
- MqttSubscribe.Deserialize: buffers that end before what the length field announces, and lists longer than the caller's arrays, which the C code reads and writes beyond; the name of an entry whose QoS is missing is not stored.
- MqttPublish.Deserialize: buffers that end before the length bytes, the rest of the packet or the packet id, which the C code reads beyond.
- MqttConnect.Deserialize: buffers that end before the fields read without a check, which the C code reads beyond.
- MqttSubscribe.Serialize: strings given in two forms of different length are written past the counted length; where that would leave the buffer, which the C code does not notice, the call is excluded.
- MqttPublish.Serialize: a topic given in two forms of different length, where writing it would leave the buffer, for the same reason.
- MqttConnect.Serialize: strings given in two forms and miscounted versions, where writing them would leave the buffer, for the same reason.
- MqttReader.BlockingSource.ReadInto: buffers too short for the header and the length that comes, which the C code writes beyond.
- KitReports.Receiver.ReportOut: a report whose line does not fit what is left of the buffer, which the C code writes beyond.
- MqttReader.PollNb: a packet of the reserved type 0 is excluded, because its result would read as call again.
- MqttReader.Transport.ReadNb: a transport that returns more bytes than asked for, and buffers too short for the header and the length that comes.
- MqttTopics.MatcherIsLevelwise: topics starting with a dollar sign (section 4.7.2) are a rule for servers and play no part in the client's matcher.
- KitHost.KitRead: timeouts are empty reports; real time is not modelled.
- Failing allocation, custom allocators, freeing, and lengths beyond the range of `int` or `size_t`: allocation is total and lengths are unbounded.
- File input and output, and the typed accessors built on the operations above.
- `json_validate`: its array branch compares with the success code, against its own documentation.
- The other MQTT packets (CONNACK, SUBACK, UNSUBACK, PINGREQ, acknowledgements), formatting and timers: small next to the codecs above.
- The rest of the MQTT client: packet ids are not matched with waits, and partial writes are not resumed, so there is no delivery theorem to state.
- Kit command parsing and execution, device discovery, the lib prefix and its search for a colon, and the status kept from an earlier receive error.
- Boards, clocks, the WINC and CryptoAuth libraries, registers behind I2C, and the wifi and client tasks.
