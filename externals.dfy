/**
 * The libraries the editor calls but whose code is not part of this model:
 * java.net.URI, Gson's parser and serialiser, `String.toDouble`, and
 * URLDecoder/URLEncoder. Each is a function value the caller supplies.
 */
module Externals {
  import opened Wrappers
  import opened Json

  /**
   * What `java.net.URI` reports of an accepted URI: `getScheme`,
   * `getAuthority`, `getPath`, `getRawQuery` and `getFragment`, each
   * `None` where the URI method returns null.
   */
  datatype UriParts = UriParts(
    scheme: Option<string>,
    authority: Option<string>,
    path: Option<string>,
    rawQuery: Option<string>,
    fragment: Option<string>)

  datatype Platform = Platform(
    /** `URI(text)`; `None` when it throws URISyntaxException. */
    parseUri: string -> Option<UriParts>,
    /** `JsonParser.parseString(text)`; `None` when it throws. */
    parseJson: string -> Option<Value>,
    /** `text.toDouble()`, as the number Gson then stores; `None` when it throws. */
    toDouble: string -> Option<Number>,
    /** `URLDecoder.decode(text, Charset.defaultCharset())`. */
    formDecode: string -> string,
    /** `URLEncoder.encode(text, Charset.defaultCharset())`. */
    formEncode: string -> string,
    /** `JsonElement.toString()`: the compact JSON text of a value. */
    jsonText: Value -> string)
  {
    /** Gson's parser never yields an object with a repeated key. */
    ghost predicate Valid()
    {
      forall text :: parseJson(text).Some? && parseJson(text).value.Obj? ==>
        parseJson(text).value.members.Valid()
    }
  }
}
