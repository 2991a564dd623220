# UriEditor conversion core, in Dafny

UriEditor is a small desktop editor for a URI or a JSON object. It turns the
text into an ordered key/value object, lets the user edit one field at a
time, and turns the object back into text. This project models that
conversion core:

- **Decoder** `String.toObj()` (module `Decoder`). It tries the text as a URI
  first. It stores the non-null components `scheme`, `authority`, `path` and
  `fragment`, then every `key=value` parameter of the raw query. A repeated
  key becomes an array of its values. Text that is not a URI is read as a
  JSON object. Anything else gives the empty object.
- **Field reconciler** `JsonObject.onUpdate(key, value)` (module `Reconciler`).
  It overwrites one entry in place. The kind of the old value decides how the
  new text is read. Every failure stores the text as a string.
- **Encoder** `JsonObject.toUri()` (module `Encoder`). An object that has a
  `path`, and whose structural keys (`scheme`, `authority`, `path`,
  `fragment`) all hold primitives, becomes
  `scheme://authority path ?query #fragment`. Any other object becomes its
  JSON text.
- The helpers of `Functions.kt` (module `Functions`): `catching`, the
  `set` operator and `getString`.

Supporting modules:

- `Json` holds the JSON tree (`Value`) and the ordered object. `Members` is
  the object as a value; the class `JsonObject` is the object updated in
  place. An object is an insertion-ordered map with unique keys. Adding an
  existing key replaces its value at the same position.
- `Strings` models the Kotlin library calls `split`, `split(limit = 2)`,
  `joinToString` and `toBoolean`.
- `Externals` describes the libraries whose code is not modelled: the URI
  parser, Gson's JSON parser and serialiser, `String.toDouble`, and the form
  codec. They are the function-valued fields of a `Platform` value that
  every operation takes as a parameter.

The decoder and the reconciler change objects in place, so they are methods
that update a `JsonObject`. The decoder's methods are proved against the
specification function `Decode` on `Members`, and the lemmas state the
properties of that function. `Reconciler.OnUpdate` has no specification
function: its contract gives the new entry case by case, from the kind of the
old value and the platform's parsers. The encoder only reads, so it is a
function on the object's contents.

One behaviour is easy to misread. Editing a field whose old value is a
string does not parse the new text as JSON: the code stores the text
verbatim (src/main/kotlin/Compose.kt:147), and so does `Reconciler.OnUpdate`.
Only an absent key, an array, an object or JSON null has the new text parsed
as JSON.

## Model

| member | source | states |
|---|---|---|
| `Strings.Split` | src/main/kotlin/Compose.kt:118 | `split("&")` returns at least one part, no part holds the separator, and joining the parts gives the text back |
| `Strings.SplitJoin` | src/main/kotlin/Compose.kt:118 | splitting separator-free parts joined with the separator gives exactly those parts |
| `Strings.SplitFirst` | src/main/kotlin/Compose.kt:119 | `split("=", limit = 2)` yields two pieces iff the segment holds '='; the first piece has no '=' and the pieces rejoin to the segment |
| `Strings.JoinWith` | src/main/kotlin/Compose.kt:163-166 | `joinToString` starts with the first part, contains the separator when there are two or more parts, and is empty only for zero parts or one empty part |
| `Strings.ToBoolean` | src/main/kotlin/Compose.kt:145 | `toBoolean()` is true iff the text is "true" in any letter case |
| `Json.Members.Put` | src/main/kotlin/Compose.kt:129 | adding a key keeps keys unique, sets that key, leaves every other key alone, keeps the order for an existing key and appends a new key |
| `Json.JsonObject.Add` | src/main/kotlin/Compose.kt:129 | the in-place `add` leaves the object as `Members.Put` describes and keeps it well formed |
| `Json.Value.AsString` | src/main/kotlin/Functions.kt:13 | `asString` gives a string verbatim, a number's text, and exactly "true" or "false" for a boolean, which `toBoolean` reads back as that boolean |
| `Functions.Catching` | src/main/kotlin/Functions.kt:3-7 | `catching` gives the block's result when it returns and null when it throws |
| `Functions.SetString` | src/main/kotlin/Functions.kt:9-11 | a null value leaves the object unchanged; any other value is stored as a string under the key, every other entry untouched |
| `Functions.Set` | src/main/kotlin/Functions.kt:9-11 | the in-place `set` leaves the object as `SetString` describes and keeps it well formed |
| `Functions.GetString` | src/main/kotlin/Functions.kt:13 | null iff the key is absent, the string form of a string, number or boolean, and a cast failure for an array, object or JSON null |
| `Decoder.Skeleton` | src/main/kotlin/Compose.kt:113-117 | the object after storing the components is well formed and its keys are exactly the non-null components, in the order scheme, authority, path, fragment |
| `Decoder.SegmentParameter` | src/main/kotlin/Compose.kt:119-121 | a segment gives no parameter iff it has no '='; otherwise one, whose key is the '='-free text before the first '=' and whose value is the decoded rest |
| `Decoder.Parameters` | src/main/kotlin/Compose.kt:118-121 | no more parameters than segments, and no key holds '=' |
| `Decoder.QueryParameters` | src/main/kotlin/Compose.kt:118-121 | no key read from a raw query holds '&' or '=' |
| `Decoder.ParameterKeysClean` | src/main/kotlin/Compose.kt:118-120 | a key read from `&`-free segments holds no '&' |
| `Decoder.Insert` | src/main/kotlin/Compose.kt:122-131 | an absent key gets the value as a string and is appended; an array gets the string appended; any other old value is replaced, at the same position, by the array of the old value and the new string; keys stay unique and no other key changes |
| `Decoder.FirstOccurrences` | src/main/kotlin/Compose.kt:122-123 | the new keys of a run of parameters are distinct and none of them was already known |
| `Decoder.InsertAll` | src/main/kotlin/Compose.kt:118-132 | storing the parameters one after the other keeps the object well formed |
| `Decoder.InsertAllOrder` | src/main/kotlin/Compose.kt:122-131 | after the parameters the keys are the old keys followed by the new parameter keys, in order of first occurrence |
| `Decoder.InsertParameter` | src/main/kotlin/Compose.kt:122-131 | the in-place insertion leaves the object as `Insert` describes |
| `Decoder.InsertSegment` | src/main/kotlin/Compose.kt:119-131 | the in-place handling of one segment stores its parameter, if it has one, as `InsertAll` describes |
| `Decoder.InsertSegments` | src/main/kotlin/Compose.kt:118-132 | the loop over the segments leaves the object as `InsertAll` of all their parameters, in segment order |
| `Decoder.InsertQuery` | src/main/kotlin/Compose.kt:118 | the in-place insertion stores the parameters of the raw query as `InsertAll` describes, and nothing when there is no query |
| `Decoder.ToObj` | src/main/kotlin/Compose.kt:111-140 | the fresh object is well formed and holds `Decode` of the text |
| `Decoder.Decode` | src/main/kotlin/Compose.kt:111-140 | the object decoded from any text is well formed |
| `Decoder.SkeletonGet` | src/main/kotlin/Compose.kt:113-117 | each stored component is its string verbatim, an empty one included |
| `Decoder.InsertAllCollects` | src/main/kotlin/Compose.kt:122-131 | a key ends up holding nothing, the one string it received, or the array of all strings it received in order |
| `Decoder.InsertAllKeepsOrder` | src/main/kotlin/Compose.kt:122-131 | every key appended by the parameters was absent before and is named by a parameter; a key is present afterwards iff it was before or a parameter names it |
| `Decoder.DecodeFallback` | src/main/kotlin/Compose.kt:134-139 | text that is not a URI gives the parsed JSON object, or the empty object when parsing fails or yields no object |
| `Decoder.DecodeKey` | src/main/kotlin/Compose.kt:113-131 | for a URI, every key holds its component followed by the decoded values of its parameters |
| `Decoder.DecodeStructuralKey` | src/main/kotlin/Compose.kt:113-117 | a structural key no parameter names is present iff its component is non-null, holding it verbatim |
| `Decoder.DecodeParameterKey` | src/main/kotlin/Compose.kt:118-131 | a non-structural key occurring 0, 1 or n>=2 times maps to nothing, its decoded string, or the array of its n decoded values in query order |
| `Decoder.DecodeOrder` | src/main/kotlin/Compose.kt:113-131 | the keys are the present structural keys in URI order, followed by the query keys in order of first occurrence; every later key is named by a query parameter and has no URI component (it may be a structural key whose component is null) |
| `Decoder.SegmentSplitsAtFirstEquals` | src/main/kotlin/Compose.kt:119-121 | a segment is cut at its first '=': the raw key, and the form-decoded rest, which may hold '=' |
| `Reconciler.OnUpdate` | src/main/kotlin/Compose.kt:142-154 | boolean gets `toBoolean`, number gets the parsed number or the raw text, string gets the text verbatim, anything else gets the parsed JSON or the raw text; the key is present afterwards, keeps its position, and no other entry changes |
| `Encoder.ValueText` | src/main/kotlin/Compose.kt:165 | a query value is a string verbatim, a number's text, exactly "true" or "false" for a boolean, and the JSON text of an array, object or JSON null |
| `Encoder.PairsOf` | src/main/kotlin/Compose.kt:163-165 | every query pair names a non-structural key of the object and carries the text of its value |
| `Encoder.PairsOfFromKeys` | src/main/kotlin/Compose.kt:163-165 | every query pair comes from a key of the entry list |
| `Encoder.PairsOfComplete` | src/main/kotlin/Compose.kt:163-165 | every listed key that the table holds and that is not structural gives a query pair |
| `Encoder.PairsOfInOrder` | src/main/kotlin/Compose.kt:163-165 | the query pairs follow the order of the entry list |
| `Encoder.PairsOfDistinct` | src/main/kotlin/Compose.kt:163-165 | an entry list without repeats gives pairs without repeated keys |
| `Encoder.QueryPairsOfObject` | src/main/kotlin/Compose.kt:163-165 | the query pairs of a well-formed object name exactly its non-structural keys, each once, in insertion order, each with the text of its value |
| `Encoder.RenderedPairs` | src/main/kotlin/Compose.kt:166 | one segment per pair, made of the key, '=' and the encoded text, whatever the key holds; a segment whose key has no '=' splits at its first '=' into the key and the encoded text |
| `Encoder.RenderQuery` | src/main/kotlin/Compose.kt:163-166 | the query text is empty iff there are no pairs |
| `Encoder.UriAttempt` | src/main/kotlin/Compose.kt:156-168 | the block returns null iff there is no `path`, throws iff there is a `path` but some structural key holds a non-primitive, and returns a URI iff the object is URI-shaped |
| `Encoder.ToUri` | src/main/kotlin/Compose.kt:156-169 | with no `path`, or a structural key holding a non-primitive, the result is the object's JSON text |
| `Encoder.PairsOfEmpty` | src/main/kotlin/Compose.kt:163-165 | there are no query pairs iff every listed key that the table holds is structural |
| `Encoder.QueryEmptyIff` | src/main/kotlin/Compose.kt:163-168 | the query text is empty iff the object has no non-structural key |
| `Encoder.ToUriAssembly` | src/main/kotlin/Compose.kt:157-168 | otherwise the result is `scheme://` if a scheme is present, the authority if present, the path, `?query` only if a non-structural key exists, and `#fragment` whenever a fragment is present |
| `Encoder.ThroughCodec` | src/main/kotlin/Compose.kt:166 | the reference read-back: one pair per pair, each key unchanged and each text encoded and then decoded |
| `Encoder.RenderedPairsReadBack` | src/main/kotlin/Compose.kt:119-121 | parsing the rendered segments of pairs with '='-free keys gives exactly `ThroughCodec` of the pairs |
| `Encoder.QueryRoundTrip` | src/main/kotlin/Compose.kt:163-166 | decoding a rendered query gives back as many pairs as were rendered, each key unchanged and each text passed through the form codec, when keys hold no '&' or '=' and the encoder never emits '&' |
| `Encoder.DecodedParameterKeysClean` | src/main/kotlin/Compose.kt:113-131 | every non-structural key of a URI-decoded object is free of '&' and '=' |
| `Encoder.DecodedQueryRoundTrip` | src/main/kotlin/Compose.kt:118-166 | the query pairs of a URI-decoded object name exactly its non-structural keys, once each, in insertion order; re-encoding them and decoding again gives them back in that order, each text through the form codec |

## Left out

- The `editor` composable (src/main/kotlin/Compose.kt:29-109) is not modelled. It holds the dialog window, the debounced coroutine jobs, the per-field pending texts and the nested editors. Its state changes only call `toObj`, `onUpdate` and `toUri` and clear the pending texts.
- src/main/kotlin/Main.kt is not part of this model: it reads and writes a file and starts the application.
- The grammar of `java.net.URI` is not modelled. `Platform.parseUri` gives the components of an accepted URI, or `None` for a syntax error.
- Gson's JSON parser and its `toString` serialisation are not modelled. `Platform.parseJson` gives the parsed value or `None`, and `Platform.jsonText` gives the JSON text of a value. The model assumes (as `Platform.Valid`) that a parsed object never repeats a key.
- `String.toDouble` and the formatting of doubles are not modelled. `Platform.toDouble` gives the number Gson then stores, or `None`; a number is carried as its string form.
- `URLDecoder.decode` and `URLEncoder.encode` with the platform charset are not modelled; they are `Platform.formDecode` and `Platform.formEncode`. The decoder is total here. `URLDecoder` throws on a malformed `%` escape, but the URI parser has already rejected such a raw query.
- `Strings.ToBoolean` folds case for ASCII letters only. No other character folds to a letter of "true", so the result is the same as Java's `equalsIgnoreCase`.
- Appending to a repeated parameter's `JsonArray` in place is modelled as storing the longer array under the same key. The array is referenced only from that entry, so nothing else can observe the difference.
- `catching` catches every `Throwable`. The model's only throw inside `toUri` is the cast failure of `getString`; errors such as running out of stack are not modelled.
- `Encoder.PairsOf` skips a listed key that the table lacks. A well-formed object has no such key, so this never changes the result.
- A Dafny `char` is a Unicode scalar value, so a Kotlin string that holds a lone UTF-16 surrogate cannot be represented. Splitting on the ASCII characters `&` and `=` is not affected by this.
- There is no general `decode(encode(o)) == o` lemma, because the code does not guarantee it. A repeated parameter is re-emitted as one JSON-text value, and a scheme is always followed by `://`. The round trip is proved for the query, as `Encoder.DecodedQueryRoundTrip`.
