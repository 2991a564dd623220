/**
 * `JsonObject.toUri()`: the encoder. An object with a `path` whose
 * structural keys all hold primitives becomes a URI assembled from those
 * keys and a query made of all its other keys; any other object becomes its
 * JSON text.
 */
module Encoder {
  import opened Wrappers
  import opened Strings
  import opened Json
  import opened Externals
  import opened Functions
  import opened Decoder

  /**
   * The text a query value is rendered from: a string verbatim, a number's
   * text, a boolean's `true`/`false`, and the JSON text of anything else.
   */
  function ValueText(v: Value, P: Platform): (r: string)
    ensures v.Str? ==> r == v.str
    ensures v.Num? ==> r == v.num.text
    ensures v.Bool? ==> r == (if v.flag then "true" else "false")
    ensures v.Bool? ==> ToBoolean(r) == v.flag
    ensures !v.IsPrimitive() ==> r == P.jsonText(v)
  {
    if v.IsPrimitive() then v.AsString() else P.jsonText(v)
  }

  /**
   * The `(key, text)` pairs of the non-structural entries listed in `keys`,
   * in that order: each names a non-structural key of the table and carries
   * the text of its value.
   */
  function PairsOf(keys: seq<string>, table: map<string, Value>, P: Platform): (r: seq<(string, string)>)
    ensures |r| <= |keys|
    ensures forall i :: 0 <= i < |r| ==>
      && r[i].0 in table
      && !IsStructural(r[i].0)
      && r[i].1 == ValueText(table[r[i].0], P)
    decreases |keys|
  {
    if keys == [] then []
    else
      var n := |keys| - 1;
      var k := keys[n];
      PairsOf(keys[..n], table, P)
      + (if IsStructural(k) || k !in table then [] else [(k, ValueText(table[k], P))])
  }

  /** The query pairs of an object: every non-structural entry in insertion order. */
  function QueryPairs(m: Members, P: Platform): seq<(string, string)>
  {
    PairsOf(m.order, m.table, P)
  }

  /**
   * Each pair rendered as `key=encode(text)`; the key is not encoded, so a
   * key holding '=' is cut at its own '=' when read back.
   */
  function RenderedPairs(pairs: seq<(string, string)>, encode: string -> string): (r: seq<string>)
    ensures |r| == |pairs|
    ensures forall i :: 0 <= i < |pairs| ==>
      pairs[i].0 + "=" <= r[i] && r[i][|pairs[i].0| + 1..] == encode(pairs[i].1)
    ensures forall i {:trigger SplitFirst(r[i], '=')} :: 0 <= i < |pairs| && '=' !in pairs[i].0 ==>
      SplitFirst(r[i], '=') == Some((pairs[i].0, encode(pairs[i].1)))
  {
    var r := seq(|pairs|, i requires 0 <= i < |pairs| => pairs[i].0 + "=" + encode(pairs[i].1));
    assert forall i :: 0 <= i < |pairs| && '=' !in pairs[i].0 ==>
      SplitFirst(r[i], '=') == Some((pairs[i].0, encode(pairs[i].1))) by {
      forall i | 0 <= i < |pairs| && '=' !in pairs[i].0
        ensures SplitFirst(r[i], '=') == Some((pairs[i].0, encode(pairs[i].1)))
      {
        SplitFirstOfJoined(pairs[i].0, '=', encode(pairs[i].1));
      }
    }
    r
  }

  /** `joinToString("&")` of the rendered pairs: empty exactly when there are no pairs. */
  function RenderQuery(pairs: seq<(string, string)>, encode: string -> string): (r: string)
    ensures r == "" <==> pairs == []
  {
    var rendered := RenderedPairs(pairs, encode);
    assert pairs != [] ==> |rendered[0]| > 0;
    JoinWith(rendered, '&')
  }

  /** A string-valued structural component wrapped in a prefix and suffix, or "" when absent. */
  function Affix(component: Option<string>, prefix: string, suffix: string): string
  {
    match component
    case None => ""
    case Some(c) => prefix + c + suffix
  }

  /**
   * The block `toUri` runs inside `catching`: null when there is no path,
   * a throw when a structural key holds a non-primitive, else the URI.
   */
  function UriAttempt(m: Members, P: Platform): (r: Attempt<Option<string>>)
    ensures r == Returned(None) <==> "path" !in m.table
    ensures r.Threw? <==> "path" in m.table && !UriShaped(m)
    ensures r.Returned? && r.value.Some? <==> UriShaped(m)
  {
    match GetString(m, "path")
    case Threw => Threw
    case Returned(None) => Returned(None)
    case Returned(Some(path)) =>
      match (GetString(m, "scheme"), GetString(m, "authority"), GetString(m, "fragment"))
      case (Returned(scheme), Returned(authority), Returned(fragment)) =>
        var query := RenderQuery(QueryPairs(m, P), P.formEncode);
        Returned(Some(
          Affix(scheme, "", "://") + Affix(authority, "", "") + path
          + (if query == "" then "" else "?" + query)
          + Affix(fragment, "#", "")))
      case _ => Threw
  }

  /**
   * `obj.toUri()`: the URI form when it can be built; without a `path`, or
   * with a structural key holding an array, an object or JSON null, the
   * object's JSON text.
   */
  function ToUri(m: Members, P: Platform): (r: string)
    ensures !UriShaped(m) ==> r == P.jsonText(Obj(m))
  {
    match Catching(UriAttempt(m, P))
    case Some(uri) => uri
    case None => P.jsonText(Obj(m))
  }

  /** The object has a `path`, and every structural key it has holds a primitive. */
  predicate UriShaped(m: Members)
  {
    && "path" in m.table
    && (forall k :: k in m.table && IsStructural(k) ==> m.table[k].IsPrimitive())
  }

  /** The string form of a present structural key, `None` when absent. */
  function ComponentText(m: Members, key: string): Option<string>
    requires UriShaped(m) && IsStructural(key)
  {
    if key in m.table then Some(m.table[key].AsString()) else None
  }

  /** Some key of the object is not structural. */
  predicate HasParameters(m: Members)
  {
    exists k :: k in m.table && !IsStructural(k)
  }

  /** The pairs list every non-structural key of `keys` that the table has, and no other. */
  lemma {:induction false} PairsOfEmpty(keys: seq<string>, table: map<string, Value>, P: Platform)
    ensures PairsOf(keys, table, P) == [] <==>
      forall i :: 0 <= i < |keys| && keys[i] in table ==> IsStructural(keys[i])
    decreases |keys|
  {
    if keys != [] {
      var n := |keys| - 1;
      PairsOfEmpty(keys[..n], table, P);
      assert forall i :: 0 <= i < n ==> keys[..n][i] == keys[i];
    }
  }

  /** `key` occurs in `keys`. */
  predicate Listed(keys: seq<string>, key: string)
  {
    exists a :: 0 <= a < |keys| && keys[a] == key
  }

  /** `first` occurs in `keys` before an occurrence of `second`. */
  predicate ListedBefore(keys: seq<string>, first: string, second: string)
  {
    exists a, b :: 0 <= a < b < |keys| && keys[a] == first && keys[b] == second
  }

  /** Some pair of `pairs` has the key `key`. */
  predicate Emits(pairs: seq<(string, string)>, key: string)
  {
    exists i :: 0 <= i < |pairs| && pairs[i].0 == key
  }

  /** Every query pair comes from a key listed in `keys`. */
  lemma {:induction false} PairsOfFromKeys(keys: seq<string>, table: map<string, Value>, P: Platform)
    ensures forall i :: 0 <= i < |PairsOf(keys, table, P)| ==> Listed(keys, PairsOf(keys, table, P)[i].0)
    decreases |keys|
  {
    if keys != [] {
      var n := |keys| - 1;
      PairsOfFromKeys(keys[..n], table, P);
      var before := PairsOf(keys[..n], table, P);
      var r := PairsOf(keys, table, P);
      assert forall i :: 0 <= i < |before| ==> r[i] == before[i];
      forall i | 0 <= i < |r|
        ensures Listed(keys, r[i].0)
      {
        if i < |before| {
          assert Listed(keys[..n], before[i].0);
          var a :| 0 <= a < n && keys[..n][a] == before[i].0;
          assert keys[a] == r[i].0;
        } else {
          assert keys[n] == r[i].0;
        }
      }
    } else {
      assert PairsOf(keys, table, P) == [];
    }
  }

  /** Every listed key that the table holds and that is not structural gives a query pair. */
  lemma {:induction false} PairsOfComplete(keys: seq<string>, table: map<string, Value>, P: Platform)
    ensures forall j :: 0 <= j < |keys| && keys[j] in table && !IsStructural(keys[j]) ==>
      Emits(PairsOf(keys, table, P), keys[j])
    decreases |keys|
  {
    if keys != [] {
      var n := |keys| - 1;
      PairsOfComplete(keys[..n], table, P);
      var before := PairsOf(keys[..n], table, P);
      var r := PairsOf(keys, table, P);
      assert forall i :: 0 <= i < |before| ==> r[i] == before[i];
      forall j | 0 <= j < |keys| && keys[j] in table && !IsStructural(keys[j])
        ensures Emits(r, keys[j])
      {
        if j < n {
          assert keys[..n][j] == keys[j];
          assert Emits(before, keys[j]);
          var i :| 0 <= i < |before| && before[i].0 == keys[j];
          assert r[i].0 == keys[j];
        } else {
          assert r[|before|].0 == keys[j];
        }
      }
    }
  }

  /** The query pairs keep the order of `keys`. */
  lemma {:induction false} PairsOfInOrder(keys: seq<string>, table: map<string, Value>, P: Platform)
    ensures forall i, j :: 0 <= i < j < |PairsOf(keys, table, P)| ==>
      ListedBefore(keys, PairsOf(keys, table, P)[i].0, PairsOf(keys, table, P)[j].0)
    decreases |keys|
  {
    if keys != [] {
      var n := |keys| - 1;
      PairsOfInOrder(keys[..n], table, P);
      PairsOfFromKeys(keys[..n], table, P);
      var before := PairsOf(keys[..n], table, P);
      var r := PairsOf(keys, table, P);
      assert forall i :: 0 <= i < |before| ==> r[i] == before[i];
      forall i, j | 0 <= i < j < |r|
        ensures ListedBefore(keys, r[i].0, r[j].0)
      {
        if j < |before| {
          assert ListedBefore(keys[..n], before[i].0, before[j].0);
          var a, b :| 0 <= a < b < n && keys[..n][a] == before[i].0 && keys[..n][b] == before[j].0;
          assert keys[a] == r[i].0 && keys[b] == r[j].0;
        } else {
          assert Listed(keys[..n], before[i].0);
          var a :| 0 <= a < n && keys[..n][a] == before[i].0;
          assert keys[a] == r[i].0 && keys[n] == r[j].0;
        }
      }
    } else {
      assert PairsOf(keys, table, P) == [];
    }
  }

  /** Distinct keys give query pairs with distinct keys: no key is emitted twice. */
  lemma {:induction false} PairsOfDistinct(keys: seq<string>, table: map<string, Value>, P: Platform)
    requires Distinct(keys)
    ensures forall i, j :: 0 <= i < j < |PairsOf(keys, table, P)| ==>
      PairsOf(keys, table, P)[i].0 != PairsOf(keys, table, P)[j].0
    decreases |keys|
  {
    if keys != [] {
      var n := |keys| - 1;
      assert Distinct(keys[..n]);
      PairsOfDistinct(keys[..n], table, P);
      PairsOfFromKeys(keys[..n], table, P);
      var before := PairsOf(keys[..n], table, P);
      var r := PairsOf(keys, table, P);
      assert forall i :: 0 <= i < |before| ==> r[i] == before[i];
      forall i, j | 0 <= i < j < |r|
        ensures r[i].0 != r[j].0
      {
        if j >= |before| {
          assert Listed(keys[..n], before[i].0);
          var a :| 0 <= a < n && keys[..n][a] == before[i].0;
          assert keys[a] != keys[n];
        }
      }
    } else {
      assert PairsOf(keys, table, P) == [];
    }
  }

  /**
   * The query pairs of a well-formed object name exactly its
   * non-structural keys, each once, in insertion order, each with the text
   * of its value.
   */
  lemma QueryPairsOfObject(m: Members, P: Platform)
    requires m.Valid()
    ensures forall k :: Emits(QueryPairs(m, P), k) <==> k in m.table && !IsStructural(k)
    ensures forall i, j :: 0 <= i < j < |QueryPairs(m, P)| ==> QueryPairs(m, P)[i].0 != QueryPairs(m, P)[j].0
    ensures forall i, j :: 0 <= i < j < |QueryPairs(m, P)| ==>
      ListedBefore(m.order, QueryPairs(m, P)[i].0, QueryPairs(m, P)[j].0)
    ensures forall i :: 0 <= i < |QueryPairs(m, P)| ==>
      QueryPairs(m, P)[i].1 == ValueText(m.table[QueryPairs(m, P)[i].0], P)
  {
    PairsOfComplete(m.order, m.table, P);
    PairsOfInOrder(m.order, m.table, P);
    PairsOfDistinct(m.order, m.table, P);
    var r := QueryPairs(m, P);
    forall k
      ensures Emits(r, k) <==> k in m.table && !IsStructural(k)
    {
      if k in m.table && !IsStructural(k) {
        var j :| 0 <= j < |m.order| && m.order[j] == k;
        assert Emits(r, m.order[j]);
      }
    }
  }

  /** The query text is empty exactly when the object has no non-structural key. */
  lemma QueryEmptyIff(m: Members, P: Platform)
    requires m.Valid()
    ensures RenderQuery(QueryPairs(m, P), P.formEncode) == "" <==> !HasParameters(m)
  {
    PairsOfEmpty(m.order, m.table, P);
    var pairs := QueryPairs(m, P);
    var rendered := RenderedPairs(pairs, P.formEncode);
    if pairs != [] {
      assert |rendered[0]| > 0;
      assert |JoinWith(rendered, '&')| >= |rendered[0]|;
      var i :| 0 <= i < |m.order| && m.order[i] in m.table && !IsStructural(m.order[i]);
      assert HasParameters(m);
    }
  }

  /**
   * For a URI-shaped object the encoder concatenates `scheme://` (if a
   * scheme is present), the authority (if present), the path, `?query`
   * (only if some non-structural key exists) and `#fragment` (whenever a
   * fragment is present, even an empty one).
   */
  lemma ToUriAssembly(m: Members, P: Platform)
    requires m.Valid() && UriShaped(m)
    ensures ToUri(m, P)
         == Affix(ComponentText(m, "scheme"), "", "://")
          + Affix(ComponentText(m, "authority"), "", "")
          + m.table["path"].AsString()
          + (if HasParameters(m) then "?" + RenderQuery(QueryPairs(m, P), P.formEncode) else "")
          + Affix(ComponentText(m, "fragment"), "#", "")
  {
    QueryEmptyIff(m, P);
    assert GetString(m, "scheme") == Returned(ComponentText(m, "scheme"));
    assert GetString(m, "authority") == Returned(ComponentText(m, "authority"));
    assert GetString(m, "fragment") == Returned(ComponentText(m, "fragment"));
  }

  /** Reading back the rendered pairs takes one more pair from one more segment. */
  lemma RenderedPairsStep(pairs: seq<(string, string)>, encode: string -> string, decode: string -> string)
    requires pairs != [] && '=' !in pairs[|pairs| - 1].0
    ensures var n := |pairs| - 1;
      Parameters(RenderedPairs(pairs, encode), decode)
      == Parameters(RenderedPairs(pairs[..n], encode), decode) + [(pairs[n].0, decode(encode(pairs[n].1)))]
  {
    var n := |pairs| - 1;
    var rendered := RenderedPairs(pairs, encode);
    assert rendered[..n] == RenderedPairs(pairs[..n], encode);
    assert SegmentParameter(rendered[n], decode) == [(pairs[n].0, decode(encode(pairs[n].1)))];
  }

  /** The pairs with each text passed through `encode` and then `decode`, keys unchanged. */
  function ThroughCodec(pairs: seq<(string, string)>, encode: string -> string, decode: string -> string): (r: seq<(string, string)>)
    ensures |r| == |pairs|
    ensures forall i :: 0 <= i < |pairs| ==> r[i] == (pairs[i].0, decode(encode(pairs[i].1)))
    decreases |pairs|
  {
    if pairs == [] then []
    else
      var n := |pairs| - 1;
      var before := ThroughCodec(pairs[..n], encode, decode);
      assert forall i :: 0 <= i < n ==> pairs[..n][i] == pairs[i];
      before + [(pairs[n].0, decode(encode(pairs[n].1)))]
  }

  /** The segments of a rendered query read back as the pairs with their texts form-decoded. */
  lemma {:induction false} RenderedPairsReadBack(pairs: seq<(string, string)>, encode: string -> string, decode: string -> string)
    requires forall i :: 0 <= i < |pairs| ==> '=' !in pairs[i].0
    ensures Parameters(RenderedPairs(pairs, encode), decode) == ThroughCodec(pairs, encode, decode)
    decreases |pairs|
  {
    if pairs != [] {
      RenderedPairsReadBack(pairs[..|pairs| - 1], encode, decode);
      RenderedPairsStep(pairs, encode, decode);
    }
  }

  /**
   * Decoding what the encoder made of the query gives back every pair, in
   * order, with its text passed through the form codec, as long as no key
   * holds '&' or '=' and the encoder never emits '&'.
   */
  lemma QueryRoundTrip(pairs: seq<(string, string)>, P: Platform)
    requires forall i :: 0 <= i < |pairs| ==> '&' !in pairs[i].0 && '=' !in pairs[i].0
    requires forall t :: '&' !in P.formEncode(t)
    ensures |QueryParameters(Some(RenderQuery(pairs, P.formEncode)), P.formDecode)| == |pairs|
    ensures forall i :: 0 <= i < |pairs| ==>
      QueryParameters(Some(RenderQuery(pairs, P.formEncode)), P.formDecode)[i]
      == (pairs[i].0, P.formDecode(P.formEncode(pairs[i].1)))
  {
    var rendered := RenderedPairs(pairs, P.formEncode);
    if pairs == [] {
      assert Split("", '&') == [""];
      assert Parameters([""], P.formDecode) == Parameters([], P.formDecode) + SegmentParameter("", P.formDecode);
    } else {
      forall i | 0 <= i < |rendered|
        ensures '&' !in rendered[i]
      {
        assert rendered[i] == pairs[i].0 + "=" + P.formEncode(pairs[i].1);
      }
      SplitJoin(rendered, '&');
      RenderedPairsReadBack(pairs, P.formEncode, P.formDecode);
    }
  }

  /** A key that receives a value is the key of some parameter. */
  lemma {:induction false} ValuesOfNamesKey(params: seq<(string, string)>, key: string)
    requires ValuesOf(params, key) != []
    ensures exists i :: 0 <= i < |params| && params[i].0 == key
    decreases |params|
  {
    var n := |params| - 1;
    if params[n].0 != key {
      ValuesOfNamesKey(params[..n], key);
      var i :| 0 <= i < n && params[..n][i].0 == key;
      assert params[i].0 == key;
    }
  }

  /** Every non-structural key of a URI-decoded object is free of '&' and '='. */
  lemma DecodedParameterKeysClean(text: string, P: Platform, u: UriParts)
    requires P.parseUri(text) == Some(u)
    ensures forall k :: k in Decode(text, P).table && !IsStructural(k) ==> '&' !in k && '=' !in k
  {
    var params := QueryParameters(u.rawQuery, P.formDecode);
    InsertAllKeepsOrder(Skeleton(u), params);
    forall k | k in Decode(text, P).table && !IsStructural(k)
      ensures '&' !in k && '=' !in k
    {
      SkeletonGet(u, k);
      ValuesOfNamesKey(params, k);
    }
  }

  /**
   * Re-encoding the query of a URI-decoded object and decoding it again
   * gives back its non-structural keys in insertion order, each with its
   * text passed through the form codec.
   */
  lemma DecodedQueryRoundTrip(text: string, P: Platform, u: UriParts)
    requires P.parseUri(text) == Some(u)
    requires forall t :: '&' !in P.formEncode(t)
    ensures var pairs := QueryPairs(Decode(text, P), P);
      && |QueryParameters(Some(RenderQuery(pairs, P.formEncode)), P.formDecode)| == |pairs|
      && (forall i :: 0 <= i < |pairs| ==>
           QueryParameters(Some(RenderQuery(pairs, P.formEncode)), P.formDecode)[i]
           == (pairs[i].0, P.formDecode(P.formEncode(pairs[i].1))))
      && (forall k :: Emits(pairs, k) <==> k in Decode(text, P).table && !IsStructural(k))
      && (forall i, j :: 0 <= i < j < |pairs| ==>
           pairs[i].0 != pairs[j].0 && ListedBefore(Decode(text, P).order, pairs[i].0, pairs[j].0))
  {
    var m := Decode(text, P);
    DecodedParameterKeysClean(text, P, u);
    QueryRoundTrip(QueryPairs(m, P), P);
    QueryPairsOfObject(m, P);
  }
}
