# Kiota Java: the in-memory backing store and the form parse node

This project models two pieces of the Kiota Java runtime in Dafny and proves
properties of them.

- **`InMemoryBackingStore`** is the change-tracking map that generated models keep
  their properties in. Each entry pairs a value with a dirty flag. The store has two
  switches. `isInitializationCompleted` decides how writes are stamped.
  `returnOnlyChangedValues` makes `get` and `enumerate` hide entries that are not
  marked changed. A table of subscriptions is notified of every write.
  `backing_store.dfy` models it as a Dafny class. Its fields are those of the Java
  class, and each method states the store's whole new state. The store's observable
  behaviour is given by the functions `Lookup`, `Visible`, `ChangedToNull` and
  `Restamped`, and lemmas relate these functions to each other.
- **`FormParseNode`** is the parse node for `application/x-www-form-urlencoded` text
  (`k1=v1&k2=v2`). It is modelled in `form_parse_node.dfy`.
  - **Construction.** The constructor splits the text into fields. `ParseFields`
    specifies this step, and `FormParseNode.Parse` implements it with the same loop.
  - **Child nodes.** The model proves that every child node's text parses to no fields.
  - **Typed getters.** They read only the node's raw text, so each is a function of
    that text.
  - **Enums.** The enum helpers take the enum's `forValue` lookup as a function
    parameter.
  - **`getObjectValue`.** The hooks, deserializers and target item are opaque. The
    model returns what the node does with them as a trace of events, and proves that
    every field is handled exactly once whatever the hash map's iteration order is.
- **`java_text.dfy`** states the Java library behaviour the node depends on:
  - `String.trim`;
  - `String.split` with a one-character pattern;
  - ASCII case folding;
  - decimal parsing as `Integer.parseInt` does it;
  - `URLDecoder.decode`.

  An independent percent-encoder (section 2.1 of RFC 3986) and a form encoder
  (`EncodeForm`) are the partners of the decoder and the parser. The round trips
  `UrlDecodeEncoded` and `ParseEncodedForm` connect each pair.
- **`common.dfy`** holds the shared types. `Option` models Java's null. `Result`
  and `Outcome` model a method that returns, returns null, or throws. Also here are
  the exception kinds and the order in which a hash map yields its keys.
- **`form_examples.dfy`** proves the parser and getters on concrete text.

Behaviour a reader may not expect, which the model follows:

- `set` stamps the new entry `changed = isInitializationCompleted`, so a write made
  after initialization is complete is marked changed. `setIsInitializationCompleted(v)`
  restamps every entry with `!v`.
- A repeated form key keeps its **first** value. The code builds the comma-joined
  string with `concat` and discards the result, so nothing is merged.
- `set` accepts an empty key. It throws `NullPointerException` when the key was absent
  and at least one subscription exists, because `oldValue.getValue1()` is called on
  null. The write has already happened at that point.
- `getCollectionOfEnumValues` keeps a null element for a label that does not resolve.
  Only `getEnumSetValue` skips such labels.
- `kv.split("=")` drops trailing empty parts. So `a=b=` yields the field `a` with value
  `b`. A segment made only of `=` gives an empty array, and reading `split[0]` throws
  `ArrayIndexOutOfBoundsException`.

## Model

| member | source | states |
|---|---|---|
| `Common.IterationOrder` | components/abstractions/src/main/java/com/microsoft/kiota/store/InMemoryBackingStore.java:134 | a hash map yields each of its keys exactly once, in some order |
| `BackingStore.Filtered` | components/abstractions/src/main/java/com/microsoft/kiota/store/InMemoryBackingStore.java:104-115 | getValueFromWrapper: a non-null result is the wrapper's value; the value is handed out whenever the filter is off or the entry is marked changed, and null for an unchanged entry under the filter |
| `BackingStore.Lookup` | components/abstractions/src/main/java/com/microsoft/kiota/store/InMemoryBackingStore.java:117-127 | get on an entry map: null for an absent key; a non-null result is the stored value; without the filter, the stored value |
| `BackingStore.Notify` | components/abstractions/src/main/java/com/microsoft/kiota/store/InMemoryBackingStore.java:134-136 | every subscription is called exactly once, with its own callback and the key, the previous value and the new value |
| `BackingStore.InMemoryBackingStore.constructor` | components/abstractions/src/main/java/com/microsoft/kiota/store/InMemoryBackingStore.java:48-52 | a new store has initialization completed, returns all values, and holds no entries and no subscriptions |
| `BackingStore.InMemoryBackingStore.SetIsInitializationCompleted` | components/abstractions/src/main/java/com/microsoft/kiota/store/InMemoryBackingStore.java:54-61 | sets the flag; every entry keeps its key and value and gets the dirty flag `!value`; nothing else changes |
| `BackingStore.InMemoryBackingStore.SetReturnOnlyChangedValues` | components/abstractions/src/main/java/com/microsoft/kiota/store/InMemoryBackingStore.java:67-69 | sets the filter flag and changes nothing else |
| `BackingStore.InMemoryBackingStore.Clear` | components/abstractions/src/main/java/com/microsoft/kiota/store/InMemoryBackingStore.java:75-77 | removes every entry; subscriptions and flags stay |
| `BackingStore.InMemoryBackingStore.Get` | components/abstractions/src/main/java/com/microsoft/kiota/store/InMemoryBackingStore.java:104-127 | null for an absent key; the stored value when unfiltered; with the filter on, the value only when its entry is marked changed |
| `BackingStore.InMemoryBackingStore.Enumerate` | components/abstractions/src/main/java/com/microsoft/kiota/store/InMemoryBackingStore.java:79-90 | the result maps exactly the keys for which `get` returns non-null, each to that value |
| `BackingStore.InMemoryBackingStore.EnumerateKeysForValuesChangedToNull` | components/abstractions/src/main/java/com/microsoft/kiota/store/InMemoryBackingStore.java:92-102 | lists, without repetition, exactly the keys whose value is null and whose entry is marked changed, whatever the filter; the keys listed are the set `ChangedToNull` of the store |
| `BackingStore.InMemoryBackingStore.Set` | components/abstractions/src/main/java/com/microsoft/kiota/store/InMemoryBackingStore.java:129-137 | the entry is written, stamped with the initialization flag; it throws a null dereference exactly when the key was new and a subscription exists; otherwise every subscription is notified once with the old and new value |
| `BackingStore.InMemoryBackingStore.Unsubscribe` | components/abstractions/src/main/java/com/microsoft/kiota/store/InMemoryBackingStore.java:139-142 | removes that one subscription, if present, and changes nothing else |
| `BackingStore.InMemoryBackingStore.SubscribeWithGeneratedId` | components/abstractions/src/main/java/com/microsoft/kiota/store/InMemoryBackingStore.java:144-148 | registers the callback under the generated id and returns that id |
| `BackingStore.InMemoryBackingStore.Subscribe` | components/abstractions/src/main/java/com/microsoft/kiota/store/InMemoryBackingStore.java:150-156 | registers the callback under the id, replacing an earlier one, and changes nothing else |
| `BackingStore.LookupAfterWrite` | components/abstractions/src/main/java/com/microsoft/kiota/store/InMemoryBackingStore.java:104-133 | after a write the key reads back its new value unless the filter hides it, and every other key reads as before |
| `BackingStore.VisibleIsLookup` | components/abstractions/src/main/java/com/microsoft/kiota/store/InMemoryBackingStore.java:79-115 | `enumerate` and `get` agree key by key: same keys and same values |
| `BackingStore.RestampedKeepsValues` | components/abstractions/src/main/java/com/microsoft/kiota/store/InMemoryBackingStore.java:54-61 | flipping the initialization flag keeps every key and value and sets every dirty flag to the same value |
| `BackingStore.RestampedTwice` | components/abstractions/src/main/java/com/microsoft/kiota/store/InMemoryBackingStore.java:54-61 | of two flag flips in a row, only the last matters |
| `BackingStore.ChangedAfterRestamp` | components/abstractions/src/main/java/com/microsoft/kiota/store/InMemoryBackingStore.java:54-102 | after completing initialization nothing reads as changed; after reopening it, every null value is reported as changed to null |
| `BackingStore.UnfilteredIgnoresFlags` | components/abstractions/src/main/java/com/microsoft/kiota/store/InMemoryBackingStore.java:54-90 | flag flips never change the unfiltered enumeration |
| `BackingStore.OnlyChangedIsSubmap` | components/abstractions/src/main/java/com/microsoft/kiota/store/InMemoryBackingStore.java:79-115 | the change-only enumeration is a sub-map of the full one |
| `JavaText.TrimStart` | components/serialization/form/src/main/java/com/microsoft/kiota/serialization/FormParseNode.java:45-48 | the result is a suffix of the input that does not start with a blank, and only blanks were cut |
| `JavaText.TrimEnd` | components/serialization/form/src/main/java/com/microsoft/kiota/serialization/FormParseNode.java:45-48 | the result is a prefix of the input that does not end with a blank, and only blanks were cut |
| `JavaText.Trim` | components/serialization/form/src/main/java/com/microsoft/kiota/serialization/FormParseNode.java:45-48 | the trimmed text is empty, or starts and ends with a character above U+0020 |
| `JavaText.TrimCutsTrimmable` | components/serialization/form/src/main/java/com/microsoft/kiota/serialization/FormParseNode.java:45-48 | trim returns an infix of the text, and everything it cuts off is a blank |
| `JavaText.TrimWithin` | components/serialization/form/src/main/java/com/microsoft/kiota/serialization/FormParseNode.java:39-41 | trim introduces no character |
| `JavaText.TrimFixedIff` | components/serialization/form/src/main/java/com/microsoft/kiota/serialization/FormParseNode.java:45-48 | trim leaves a text unchanged exactly when neither end is a blank |
| `JavaText.TrimIdempotent` | components/serialization/form/src/main/java/com/microsoft/kiota/serialization/FormParseNode.java:45-48 | trimming twice is trimming once |
| `JavaText.Split` | components/serialization/form/src/main/java/com/microsoft/kiota/serialization/FormParseNode.java:34-35 | String.split with a one-character pattern: a text without the separator is its own only part, and an empty last part occurs only as the lone part of the empty text (trailing empty parts are dropped) |
| `JavaText.SplitWithin` | components/serialization/form/src/main/java/com/microsoft/kiota/serialization/FormParseNode.java:34-35 | no split part holds the separator, and every part is made of the text's characters |
| `JavaText.SplitJoin` | components/serialization/form/src/main/java/com/microsoft/kiota/serialization/FormParseNode.java:34-35 | split undoes joining parts that hold no separator and do not end with an empty part |
| `JavaText.SplitEmptyIff` | components/serialization/form/src/main/java/com/microsoft/kiota/serialization/FormParseNode.java:35-36 | split returns the empty array exactly when the text is one or more separators |
| `JavaText.ToLower` | components/serialization/form/src/main/java/com/microsoft/kiota/serialization/FormParseNode.java:70 | lower-casing keeps the length and folds each letter A-Z |
| `JavaText.EqualsIgnoreCase` | components/serialization/form/src/main/java/com/microsoft/kiota/serialization/FormParseNode.java:65 | equalsIgnoreCase holds exactly when both texts lower-case to the same text |
| `JavaText.LowerEqualsIffIgnoreCase` | components/serialization/form/src/main/java/com/microsoft/kiota/serialization/FormParseNode.java:65-70 | comparing the lower-cased text with a lower-case word is the same as comparing against that word ignoring case |
| `JavaText.ParseDecimal` | components/serialization/form/src/main/java/com/microsoft/kiota/serialization/FormParseNode.java:81-136 | what parseByte/parseShort/parseInt/parseLong read before the range check: a text parses exactly when it is one or more digits with an optional leading `+` or `-`; a negative result needs a leading minus |
| `JavaText.ParseDecimalDigits` | components/serialization/form/src/main/java/com/microsoft/kiota/serialization/FormParseNode.java:81-136 | a run of digits denotes its value bare or after `+`, and the negated value after `-`, leading zeros included |
| `JavaText.NatString` | components/serialization/form/src/main/java/com/microsoft/kiota/serialization/FormParseNode.java:105-112 | the decimal digits of a number are non-empty digits denoting that number |
| `JavaText.ParseDecimalString` | components/serialization/form/src/main/java/com/microsoft/kiota/serialization/FormParseNode.java:105-112 | parsing the decimal text of any integer gives back that integer |
| `JavaText.UrlDecode` | components/serialization/form/src/main/java/com/microsoft/kiota/serialization/FormParseNode.java:64 | the only exception decoding throws is IllegalArgumentException |
| `JavaText.UrlDecodeErrIff` | components/serialization/form/src/main/java/com/microsoft/kiota/serialization/FormParseNode.java:64 | decoding throws exactly when some `%` is not followed by two characters that parseInt accepts as an escape |
| `JavaText.UrlDecodePlain` | components/serialization/form/src/main/java/com/microsoft/kiota/serialization/FormParseNode.java:64 | text without `+` and `%` decodes to itself |
| `JavaText.UrlDecodeEncoded` | components/serialization/form/src/main/java/com/microsoft/kiota/serialization/FormParseNode.java:64 | decoding undoes percent-encoding, for every ASCII text |
| `FormSerialization.SanitizeKey` | components/serialization/form/src/main/java/com/microsoft/kiota/serialization/FormParseNode.java:45-48 | sanitizeKey returns the key with a run of leading and a run of trailing blanks cut off, and neither end of the result is a blank; the result is no longer than the key and trim leaves it unchanged |
| `FormSerialization.ClassifySegment` | components/serialization/form/src/main/java/com/microsoft/kiota/serialization/FormParseNode.java:35-41 | a segment throws exactly when its `=`-split is empty, and yields a field exactly when the split has two parts; the field's key and value are trimmed |
| `FormSerialization.Classify` | components/serialization/form/src/main/java/com/microsoft/kiota/serialization/FormParseNode.java:34-37 | one classification per `&`-segment, in order |
| `FormSerialization.AddSegmentFirstWins` | components/serialization/form/src/main/java/com/microsoft/kiota/serialization/FormParseNode.java:36-41 | adding one segment to the fields read so far throws exactly for a broken segment; otherwise no field read so far changes, and only the segment's own key can be added, with its own value |
| `FormSerialization.ParseFields` | components/serialization/form/src/main/java/com/microsoft/kiota/serialization/FormParseNode.java:31-44 | the fields the constructor records; its only possible exception is the index-out-of-bounds one |
| `FormSerialization.AddEachSegment` | components/serialization/form/src/main/java/com/microsoft/kiota/serialization/FormParseNode.java:34-43 | the constructor's loop computes exactly the fold of the segment classifications: the same exception or the same map |
| `FormSerialization.CollectCharacterized` | components/serialization/form/src/main/java/com/microsoft/kiota/serialization/FormParseNode.java:34-43 | this is the meaning of the fold `Collect` over the segments: it throws exactly when some segment is broken, and then with the index-out-of-bounds exception; otherwise a key is present exactly when some segment yields it, with the value of the first such segment |
| `FormSerialization.ParseFieldsCharacterized` | components/serialization/form/src/main/java/com/microsoft/kiota/serialization/FormParseNode.java:31-44 | the same characterization, on the raw text split at `&` |
| `FormSerialization.FieldKeysTrimmed` | components/serialization/form/src/main/java/com/microsoft/kiota/serialization/FormParseNode.java:36-48 | every stored key is its own sanitized form, so a lookup through sanitizeKey finds it |
| `FormSerialization.SegmentValuePlain` | components/serialization/form/src/main/java/com/microsoft/kiota/serialization/FormParseNode.java:35-41 | a field read from a segment has a value holding neither `&` nor `=` |
| `FormSerialization.FieldValuesPlain` | components/serialization/form/src/main/java/com/microsoft/kiota/serialization/FormParseNode.java:34-41 | no stored value holds `&` or `=` |
| `FormSerialization.PlainTextHasNoFields` | components/serialization/form/src/main/java/com/microsoft/kiota/serialization/FormParseNode.java:31-44 | text without `&` and `=` parses without error and has no fields |
| `FormSerialization.ChildHasNoFields` | components/serialization/form/src/main/java/com/microsoft/kiota/serialization/FormParseNode.java:53-56 | the text of any field parses without error and has no fields |
| `FormSerialization.ChildrenHaveNoFields` | components/serialization/form/src/main/java/com/microsoft/kiota/serialization/FormParseNode.java:238-250 | every child node handed to a deserializer parses without error and has no fields, so its hooks never run for it |
| `FormSerialization.SegmentOfKeyValue` | components/serialization/form/src/main/java/com/microsoft/kiota/serialization/FormParseNode.java:35-41 | `key=value` yields the trimmed key and the trimmed value |
| `FormSerialization.SegmentWithTrailingEquals` | components/serialization/form/src/main/java/com/microsoft/kiota/serialization/FormParseNode.java:35-41 | `key=value=` yields the same field as `key=value` |
| `FormSerialization.SegmentWithoutValue` | components/serialization/form/src/main/java/com/microsoft/kiota/serialization/FormParseNode.java:35-37 | a segment without `=`, or `key=` with nothing after the `=`, yields no field |
| `FormSerialization.SegmentWithTwoEquals` | components/serialization/form/src/main/java/com/microsoft/kiota/serialization/FormParseNode.java:35-37 | `key=value=rest` yields no field |
| `FormSerialization.SegmentBrokenIff` | components/serialization/form/src/main/java/com/microsoft/kiota/serialization/FormParseNode.java:35-36 | a segment makes the constructor throw exactly when it is one or more `=` |
| `FormSerialization.ParseEncodedForm` | components/serialization/form/src/main/java/com/microsoft/kiota/serialization/FormParseNode.java:31-44 | parsing undoes form encoding of plain fields, and a repeated key keeps its first value |
| `FormSerialization.AddKeyValue` | components/serialization/form/src/main/java/com/microsoft/kiota/serialization/FormParseNode.java:35-42 | one turn of the loop does what the segment's classification prescribes: throw, skip, add a new key, or keep an existing one |
| `FormSerialization.FormParseNode.FromFields` | components/serialization/form/src/main/java/com/microsoft/kiota/serialization/FormParseNode.java:25-33 | a node over the text with exactly the fields the text parses to, and no hooks |
| `FormSerialization.FormParseNode.Parse` | components/serialization/form/src/main/java/com/microsoft/kiota/serialization/FormParseNode.java:31-44 | construction throws exactly when the specification function does, and otherwise yields a new node whose fields are those of the text |
| `FormSerialization.FormParseNode.SetOnBeforeAssignFieldValues` | components/serialization/form/src/main/java/com/microsoft/kiota/serialization/FormParseNode.java:268-271 | sets the before hook and leaves the after hook alone |
| `FormSerialization.FormParseNode.SetOnAfterAssignFieldValues` | components/serialization/form/src/main/java/com/microsoft/kiota/serialization/FormParseNode.java:272-275 | sets the after hook and leaves the before hook alone |
| `FormSerialization.FormParseNode.NewChild` | components/serialization/form/src/main/java/com/microsoft/kiota/serialization/FormParseNode.java:56-58 | a new node over the field's text, with no fields and with the given hooks |
| `FormSerialization.FormParseNode.GetChildNode` | components/serialization/form/src/main/java/com/microsoft/kiota/serialization/FormParseNode.java:50-61 | a child exists exactly when the trimmed identifier is a field; it is a new node over that field's text, with no fields and the parent's hooks |
| `FormSerialization.StringValue` | components/serialization/form/src/main/java/com/microsoft/kiota/serialization/FormParseNode.java:62-67 | throws exactly when decoding fails; null exactly when the decoded text is "null" in any casing; otherwise the decoded text |
| `FormSerialization.StringValueOfEncoded` | components/serialization/form/src/main/java/com/microsoft/kiota/serialization/FormParseNode.java:62-67 | a percent-encoded ASCII text reads back as itself, or as null when it spells "null" |
| `FormSerialization.BooleanValue` | components/serialization/form/src/main/java/com/microsoft/kiota/serialization/FormParseNode.java:68-80 | getBooleanValue throws exactly when the string value is not a value: a decode failure propagates, and a null string value gives a null dereference |
| `FormSerialization.BooleanValueRecognizes` | components/serialization/form/src/main/java/com/microsoft/kiota/serialization/FormParseNode.java:68-80 | true exactly for "true" (any casing) and "1"; false exactly for "false" and "0"; a null dereference exactly for "null"; null for everything else; a decode failure propagates |
| `FormSerialization.IntegralValue` | components/serialization/form/src/main/java/com/microsoft/kiota/serialization/FormParseNode.java:81-136 | a returned number lies in the type's range; the only exception is a decode failure |
| `FormSerialization.ByteValue` | components/serialization/form/src/main/java/com/microsoft/kiota/serialization/FormParseNode.java:81-88 | a returned byte lies in -128..127 |
| `FormSerialization.ShortValue` | components/serialization/form/src/main/java/com/microsoft/kiota/serialization/FormParseNode.java:89-96 | a returned short lies in -32768..32767 |
| `FormSerialization.IntegerValue` | components/serialization/form/src/main/java/com/microsoft/kiota/serialization/FormParseNode.java:105-112 | a returned int lies in the 32-bit range |
| `FormSerialization.LongValue` | components/serialization/form/src/main/java/com/microsoft/kiota/serialization/FormParseNode.java:129-136 | a returned long lies in the 64-bit range |
| `FormSerialization.IntegralValueIff` | components/serialization/form/src/main/java/com/microsoft/kiota/serialization/FormParseNode.java:81-136 | a getter returns n exactly when the decoded text is an optionally signed decimal for n within range; it throws exactly when decoding fails |
| `FormSerialization.IntegralValueOfDecimal` | components/serialization/form/src/main/java/com/microsoft/kiota/serialization/FormParseNode.java:105-112 | the decimal text of any integer reads back as that integer when it is in range, and as null otherwise |
| `FormSerialization.EnumValue` | components/serialization/form/src/main/java/com/microsoft/kiota/serialization/FormParseNode.java:197-212 | returns a value exactly when the string value is non-null and non-empty and its lookup succeeds, and then the value looked up; it throws exactly when the string getter does, with the same exception; otherwise null |
| `FormSerialization.ResolvedLabelsMembers` | components/serialization/form/src/main/java/com/microsoft/kiota/serialization/FormParseNode.java:219-227 | an enum value is in the set exactly when some item resolves to it |
| `FormSerialization.EnumSetIsNonNullItems` | components/serialization/form/src/main/java/com/microsoft/kiota/serialization/FormParseNode.java:175-228 | the enum set holds exactly the non-null elements of the enum collection over the same items |
| `FormSerialization.ResolveEach` | components/serialization/form/src/main/java/com/microsoft/kiota/serialization/FormParseNode.java:219-227 | the loop collects exactly the values the items resolve to |
| `FormSerialization.EnumSetValue` | components/serialization/form/src/main/java/com/microsoft/kiota/serialization/FormParseNode.java:213-228 | a decode failure propagates; null or empty text gives null; otherwise the values the comma-separated items resolve to |
| `FormSerialization.LookUpEach` | components/serialization/form/src/main/java/com/microsoft/kiota/serialization/FormParseNode.java:182-187 | one lookup per item, in order |
| `FormSerialization.CollectionOfEnumValues` | components/serialization/form/src/main/java/com/microsoft/kiota/serialization/FormParseNode.java:175-189 | a decode failure propagates; null or empty text gives null; otherwise one element per comma-separated item, null where it does not resolve |
| `FormSerialization.CollectionOfPrimitiveValues` | components/serialization/form/src/main/java/com/microsoft/kiota/serialization/FormParseNode.java:167-170 | always throws a RuntimeException |
| `FormSerialization.CollectionOfObjectValues` | components/serialization/form/src/main/java/com/microsoft/kiota/serialization/FormParseNode.java:171-174 | always throws a RuntimeException |
| `FormSerialization.Base64Text` | components/serialization/form/src/main/java/com/microsoft/kiota/serialization/FormParseNode.java:276-283 | null exactly for null or empty text; otherwise the non-empty string value handed to the decoder |
| `FormSerialization.FieldEvent` | components/serialization/form/src/main/java/com/microsoft/kiota/serialization/FormParseNode.java:239-253 | handling one field makes at most one field event, about that field |
| `FormSerialization.FieldEvents` | components/serialization/form/src/main/java/com/microsoft/kiota/serialization/FormParseNode.java:238-254 | the field loop makes only deserializer calls and bag writes |
| `FormSerialization.FieldEventsMembers` | components/serialization/form/src/main/java/com/microsoft/kiota/serialization/FormParseNode.java:238-254 | the events of the loop are exactly those of the visited fields, and no two are about the same field |
| `FormSerialization.FieldEventsEachFieldOnce` | components/serialization/form/src/main/java/com/microsoft/kiota/serialization/FormParseNode.java:238-254 | whatever the order: each field with a deserializer reaches it once with a child node carrying the hooks; each other field reaches the bag once if there is one, and otherwise nothing happens for it |
| `FormSerialization.AssignEachField` | components/serialization/form/src/main/java/com/microsoft/kiota/serialization/FormParseNode.java:234-254 | the loop's events are those of some iteration order of the fields; the bag gains exactly the fields without a deserializer |
| `FormSerialization.AssignInOrder` | components/serialization/form/src/main/java/com/microsoft/kiota/serialization/FormParseNode.java:238-254 | the loop in a given order without repetition makes exactly the events of the fields in that order, and the bag gains exactly the visited fields that have no deserializer |
| `FormSerialization.AssignField` | components/serialization/form/src/main/java/com/microsoft/kiota/serialization/FormParseNode.java:239-253 | one field: exactly its events; the bag gains the field's raw value only when there is a bag and no deserializer |
| `FormSerialization.FormParseNode.GetObjectValue` | components/serialization/form/src/main/java/com/microsoft/kiota/serialization/FormParseNode.java:229-259 | without fields nothing happens; otherwise the before hook, the field events of some order, then the after hook; the bag gains exactly the unmatched fields |
| `FormExamples.ExampleTrue` | components/serialization/form/src/main/java/com/microsoft/kiota/serialization/FormParseNode.java:68-73 | "TRUE" reads as true |
| `FormExamples.ExampleYes` | components/serialization/form/src/main/java/com/microsoft/kiota/serialization/FormParseNode.java:68-80 | "yes" reads as null |
| `FormExamples.ExampleNull` | components/serialization/form/src/main/java/com/microsoft/kiota/serialization/FormParseNode.java:62-70 | "NuLl" is the null string, and the boolean getter throws on "null" |
| `FormExamples.ExampleRepeatedKey` | components/serialization/form/src/main/java/com/microsoft/kiota/serialization/FormParseNode.java:38-41 | "t=1&t=2" keeps t = 1 |
| `FormExamples.ExampleTwoFields` | components/serialization/form/src/main/java/com/microsoft/kiota/serialization/FormParseNode.java:31-44 | "a=1&b=2" gives both fields |
| `FormExamples.ExampleIntegerOne` | components/serialization/form/src/main/java/com/microsoft/kiota/serialization/FormParseNode.java:105-112 | "1" reads as 1 |
| `FormExamples.ExampleIntegerNegative` | components/serialization/form/src/main/java/com/microsoft/kiota/serialization/FormParseNode.java:105-112 | "-25" reads as -25 |
| `FormExamples.ExampleIntegerExponent` | components/serialization/form/src/main/java/com/microsoft/kiota/serialization/FormParseNode.java:105-112 | "1e3" reads as null |
| `FormExamples.ExampleAdditionalData` | components/serialization/form/src/main/java/com/microsoft/kiota/serialization/FormParseNode.java:252-253 | with a deserializer for "name" only, the bag receives "extra" alone |

## Left out

- UrlDecode: decodes each `%hh` escape to the character with that code (Latin-1). Java instead decodes each run of escaped bytes as UTF-8. The two agree only when every escape is below `%80`: Java turns `%C3%A9` into one `é`, and `%80` into U+FFFD. Multi-byte UTF-8 sequences and the replacement of malformed bytes are not modelled.
- Base64Text: states the text handed to `Base64.getDecoder().decode`. It stops there, because Base64 decoding and its IllegalArgumentException on malformed input are not modelled.
- `getBigDecimalValue`, `getFloatValue` and `getDoubleValue` are not modelled, because they parse floating-point and arbitrary-precision text, which this model does not state.
- `getUUIDValue`, `getOffsetDateTimeValue`, `getLocalDateValue`, `getLocalTimeValue` and `getPeriodValue` are not modelled, because they delegate to the JDK's date, time and UUID parsers.
- Digits are ASCII `0`-`9` only. `Integer.parseInt` and its siblings also accept other Unicode decimal digits. Case folding covers ASCII letters only.
- The enum's `forValue` method, reached by reflection, is a function parameter. Any exception it throws is treated as not resolving, which is what the source's catch-all does.
- Hooks, field deserializers, subscription callbacks and the item factory are not run. What the code does with them is returned as a trace of events, so the effects of those calls are not modelled.
- The random UUID of `subscribe(callback)` is a parameter.
- The iteration order of a `HashMap` is left open: `IterationOrder` promises only that each key comes once.
- Thread safety is not modelled: the Java store is not synchronized.
- Null arguments are excluded by the types, so the `Objects.requireNonNull` checks have no counterpart. A null callback is excluded in the same way.
- The `ClassCastException` branch of `get` is not modelled, because the model's values are already of the caller's type.
- The `fieldValue == null` check of `assignFieldValues` is not modelled, because stored values are never null.
- `getIsInitializationCompleted`, `getReturnOnlyChangedValues` and the two hook getters are not modelled as methods. They only return the field, which the model exposes directly.
- `FormParseNode.Parse` is a static factory returning `Result`, because a Dafny constructor cannot throw. On success it gives a node built by `FromFields`.
