/**
 * `String.toObj()`: the decoder that turns the editor's text into an
 * object. A URI gives its structural components and then its query
 * parameters; text that is not a URI is read as a JSON object; anything
 * else gives the empty object.
 */
module Decoder {
  import opened Wrappers
  import opened Strings
  import opened Json
  import opened Externals
  import opened Functions

  /** The keys that carry a URI component rather than a query parameter. */
  predicate IsStructural(key: string)
  {
    key == "scheme" || key == "authority" || key == "path" || key == "fragment"
  }

  /** The component of `u` a structural key stands for. */
  function Component(u: UriParts, key: string): Option<string>
  {
    if key == "scheme" then u.scheme
    else if key == "authority" then u.authority
    else if key == "path" then u.path
    else if key == "fragment" then u.fragment
    else None
  }

  /**
   * The object holding only the non-null structural components of `u`:
   * well formed, with its keys in the order scheme, authority, path,
   * fragment.
   */
  function Skeleton(u: UriParts): (r: Members)
    ensures r.Valid()
    ensures r.order == PresentStructuralKeys(u)
  {
    var withScheme := SetString(Empty, "scheme", u.scheme);
    var withAuthority := SetString(withScheme, "authority", u.authority);
    var withPath := SetString(withAuthority, "path", u.path);
    StructuralStepsAppend(u, withScheme, withAuthority, withPath);
    SetString(withPath, "fragment", u.fragment)
  }

  /** Each of the four stores of the skeleton appends its key when the component is present. */
  lemma StructuralStepsAppend(u: UriParts, withScheme: Members, withAuthority: Members, withPath: Members)
    requires withScheme == SetString(Empty, "scheme", u.scheme)
    requires withAuthority == SetString(withScheme, "authority", u.authority)
    requires withPath == SetString(withAuthority, "path", u.path)
    ensures SetString(withPath, "fragment", u.fragment).Valid()
    ensures SetString(withPath, "fragment", u.fragment).order == PresentStructuralKeys(u)
  {
    SetStringAppends(Empty, "scheme", u.scheme);
    var order := Appended([], "scheme", u.scheme);
    assert "authority" !in order;
    SetStringAppends(withScheme, "authority", u.authority);
    order := Appended(order, "authority", u.authority);
    assert "path" !in order;
    SetStringAppends(withAuthority, "path", u.path);
    order := Appended(order, "path", u.path);
    assert "fragment" !in order;
    SetStringAppends(withPath, "fragment", u.fragment);
  }

  /** Storing a new key keeps the object well formed and appends the key when there is a value. */
  lemma SetStringAppends(m: Members, key: string, value: Option<string>)
    requires m.Valid() && key !in m.order
    ensures SetString(m, key, value).Valid()
    ensures SetString(m, key, value).order == Appended(m.order, key, value)
  {
    assert key !in m.table;
  }

  /** The structural keys whose component `u` has, in the order they are stored. */
  function PresentStructuralKeys(u: UriParts): seq<string>
  {
    var withScheme := Appended([], "scheme", u.scheme);
    var withAuthority := Appended(withScheme, "authority", u.authority);
    var withPath := Appended(withAuthority, "path", u.path);
    Appended(withPath, "fragment", u.fragment)
  }

  /** `keys` followed by `key` when the component is present. */
  function Appended(keys: seq<string>, key: string, component: Option<string>): seq<string>
  {
    keys + (if component.Some? then [key] else [])
  }

  /**
   * The parameter one `&`-separated segment contributes: none when the
   * segment has no '=', otherwise the raw text before the first '=' as the
   * key and the form-decoded rest as the value.
   */
  function SegmentParameter(segment: string, decode: string -> string): (r: seq<(string, string)>)
    ensures |r| <= 1
    ensures r == [] <==> '=' !in segment
    ensures r != [] ==>
      && '=' !in r[0].0
      && r[0].0 + "=" <= segment
      && r[0].1 == decode(segment[|r[0].0| + 1..])
  {
    match SplitFirst(segment, '=')
    case None => []
    case Some((key, raw)) => [(key, decode(raw))]
  }

  /** The parameters of a run of segments, in segment order. */
  function Parameters(segments: seq<string>, decode: string -> string): (r: seq<(string, string)>)
    ensures |r| <= |segments|
    ensures forall i :: 0 <= i < |r| ==> '=' !in r[i].0
    decreases |segments|
  {
    if segments == [] then []
    else
      var n := |segments| - 1;
      Parameters(segments[..n], decode) + SegmentParameter(segments[n], decode)
  }

  /** The parameters of a URI's raw query; none when the URI has no query. */
  function QueryParameters(rawQuery: Option<string>, decode: string -> string): (r: seq<(string, string)>)
    ensures forall i :: 0 <= i < |r| ==> '&' !in r[i].0 && '=' !in r[i].0
  {
    match rawQuery
    case None => []
    case Some(q) =>
      ParameterKeysClean(Split(q, '&'), decode);
      Parameters(Split(q, '&'), decode)
  }

  /** A key read from `&`-free segments holds no '&'. */
  lemma {:induction false} ParameterKeysClean(segments: seq<string>, decode: string -> string)
    requires forall j :: 0 <= j < |segments| ==> '&' !in segments[j]
    ensures forall i :: 0 <= i < |Parameters(segments, decode)| ==> '&' !in Parameters(segments, decode)[i].0
    decreases |segments|
  {
    if segments != [] {
      var n := |segments| - 1;
      ParameterKeysClean(segments[..n], decode);
      var own := SegmentParameter(segments[n], decode);
      if own != [] {
        assert segments[n][..|own[0].0|] == own[0].0;
      }
    }
  }

  /**
   * Storing one parameter: a new key gets the value as a string, an array
   * gets the value appended, and any other value is replaced, at the same
   * position, by the array of the old and the new value.
   */
  function Insert(m: Members, key: string, value: string): (r: Members)
    ensures m.Valid() ==> r.Valid()
    ensures forall k :: k != key ==> r.Get(k) == m.Get(k)
    ensures r.order == if key in m.table then m.order else m.order + [key]
    ensures m.Get(key).None? ==> r.Get(key) == Some(Str(value))
    ensures m.Get(key).Some? && m.Get(key).value.Arr? ==>
      r.Get(key) == Some(Arr(m.Get(key).value.elements + [Str(value)]))
    ensures m.Get(key).Some? && !m.Get(key).value.Arr? ==>
      r.Get(key) == Some(Arr([m.Get(key).value, Str(value)]))
  {
    match m.Get(key)
    case None => SetString(m, key, Some(value))
    case Some(Arr(items)) => m.Put(key, Arr(items + [Str(value)]))
    case Some(previous) => m.Put(key, Arr([previous, Str(value)]))
  }

  /**
   * The keys `params` names that are not in `known`, each once, in the
   * order of their first occurrence.
   */
  function FirstOccurrences(params: seq<(string, string)>, known: seq<string>): (r: seq<string>)
    ensures Distinct(r)
    ensures forall i :: 0 <= i < |r| ==> r[i] !in known
    decreases |params|
  {
    if params == [] then []
    else
      var n := |params| - 1;
      var earlier := FirstOccurrences(params[..n], known);
      var key := params[n].0;
      earlier + (if key in known || key in earlier then [] else [key])
  }

  /** Storing the parameters one after the other keeps the object well formed. */
  function InsertAll(m: Members, params: seq<(string, string)>): (r: Members)
    ensures m.Valid() ==> r.Valid()
    decreases |params|
  {
    if params == [] then m
    else
      var n := |params| - 1;
      Insert(InsertAll(m, params[..n]), params[n].0, params[n].1)
  }

  /**
   * After storing the parameters the keys are the old keys followed by the
   * new parameter keys, in the order they first occur.
   */
  lemma {:induction false} InsertAllOrder(m: Members, params: seq<(string, string)>)
    requires m.Valid()
    ensures InsertAll(m, params).order == m.order + FirstOccurrences(params, m.order)
    decreases |params|
  {
    if params != [] {
      var n := |params| - 1;
      InsertAllOrder(m, params[..n]);
      var before := InsertAll(m, params[..n]);
      var key := params[n].0;
      assert key in before.table <==> key in m.order || key in FirstOccurrences(params[..n], m.order);
    }
  }

  /** The object `toObj` builds from `text`; it is well formed whatever the text. */
  function Decode(text: string, P: Platform): (r: Members)
    ensures P.Valid() ==> r.Valid()
  {
    match P.parseUri(text)
    case Some(u) => InsertAll(Skeleton(u), QueryParameters(u.rawQuery, P.formDecode))
    case None =>
      match P.parseJson(text)
      case Some(Obj(m)) => m
      case _ => Empty
  }

  /** The values given to `key` by `params`, in order. */
  function ValuesOf(params: seq<(string, string)>, key: string): seq<string>
    decreases |params|
  {
    if params == [] then []
    else
      var n := |params| - 1;
      ValuesOf(params[..n], key) + (if params[n].0 == key then [params[n].1] else [])
  }

  /** Each text as a string primitive. */
  function Strs(texts: seq<string>): seq<Value>
  {
    seq(|texts|, i requires 0 <= i < |texts| => Str(texts[i]))
  }

  /**
   * What a key holds after receiving `texts` one by one: nothing, a single
   * string, or the array of all of them.
   */
  function Collected(texts: seq<string>): Option<Value>
  {
    if |texts| == 0 then None
    else if |texts| == 1 then Some(Str(texts[0]))
    else Some(Arr(Strs(texts)))
  }

  /** The string `m` holds under `key`, as a list of zero or one texts. */
  function Held(m: Members, key: string): seq<string>
  {
    if key in m.table && m.table[key].Str? then [m.table[key].str] else []
  }

  /** The component stored under `key` when decoding `u`, as zero or one texts. */
  function ComponentTexts(u: UriParts, key: string): seq<string>
  {
    if IsStructural(key) && Component(u, key).Some? then [Component(u, key).value] else []
  }

  /**
   * Starting from string values, a key ends up holding the one string it
   * received, or the array of every string it received in order.
   */
  lemma {:induction false} InsertAllCollects(m: Members, params: seq<(string, string)>, key: string)
    requires key in m.table ==> m.table[key].Str?
    ensures InsertAll(m, params).Get(key) == Collected(Held(m, key) + ValuesOf(params, key))
    decreases |params|
  {
    if params == [] {
      assert Held(m, key) + [] == Held(m, key);
    } else {
      var n := |params| - 1;
      InsertAllCollects(m, params[..n], key);
      var before := Held(m, key) + ValuesOf(params[..n], key);
      if params[n].0 == key {
        var v := params[n].1;
        assert Held(m, key) + ValuesOf(params, key) == before + [v];
        if |before| == 1 {
          assert Strs(before + [v]) == [Str(before[0]), Str(v)];
        } else if |before| >= 2 {
          assert Strs(before + [v]) == Strs(before) + [Str(v)];
        }
      } else {
        assert Held(m, key) + ValuesOf(params, key) == before;
      }
    }
  }

  /**
   * Storing parameters appends only keys that were absent and that some
   * parameter names; a key is present afterwards exactly when it was
   * before or a parameter names it.
   */
  lemma {:induction false} InsertAllKeepsOrder(m: Members, params: seq<(string, string)>)
    requires m.Valid()
    ensures forall i :: |m.order| <= i < |InsertAll(m, params).order| ==>
      InsertAll(m, params).order[i] !in m.table && ValuesOf(params, InsertAll(m, params).order[i]) != []
    ensures forall k :: k in InsertAll(m, params).table <==> k in m.table || ValuesOf(params, k) != []
    decreases |params|
  {
    if params != [] {
      var n := |params| - 1;
      InsertAllKeepsOrder(m, params[..n]);
      var before := InsertAll(m, params[..n]);
      var after := InsertAll(m, params);
      assert after == Insert(before, params[n].0, params[n].1);
      forall k
        ensures ValuesOf(params[..n], k) != [] ==> ValuesOf(params, k) != []
        ensures ValuesOf(params, k) != [] ==> ValuesOf(params[..n], k) != [] || k == params[n].0
      {
      }
    }
  }

  /** Each key of the skeleton holds its component verbatim, as a string. */
  lemma SkeletonGet(u: UriParts, key: string)
    ensures Skeleton(u).Get(key) == Collected(ComponentTexts(u, key))
  {
    var withScheme := SetString(Empty, "scheme", u.scheme);
    var withAuthority := SetString(withScheme, "authority", u.authority);
    var withPath := SetString(withAuthority, "path", u.path);
    if key == "scheme" {
      assert withScheme.Get(key) == Collected(ComponentTexts(u, key));
    } else if key == "authority" {
      assert withAuthority.Get(key) == Collected(ComponentTexts(u, key));
    } else if key == "path" {
      assert withPath.Get(key) == Collected(ComponentTexts(u, key));
    } else if key != "fragment" {
      assert Skeleton(u).Get(key) == Empty.Get(key);
    }
  }

  /** Text that is not a URI is read as a JSON object, else gives the empty object. */
  lemma DecodeFallback(text: string, P: Platform)
    requires P.parseUri(text).None?
    ensures P.parseJson(text).Some? && P.parseJson(text).value.Obj? ==>
      Decode(text, P) == P.parseJson(text).value.members
    ensures !(P.parseJson(text).Some? && P.parseJson(text).value.Obj?) ==> Decode(text, P) == Empty
  {
  }

  /**
   * For an accepted URI, every key holds its component (if it is a
   * structural key) followed by the decoded values of its query
   * parameters: nothing, one string, or the array of all of them.
   */
  lemma DecodeKey(text: string, P: Platform, u: UriParts, key: string)
    requires P.parseUri(text) == Some(u)
    ensures Decode(text, P).Get(key)
         == Collected(ComponentTexts(u, key) + ValuesOf(QueryParameters(u.rawQuery, P.formDecode), key))
  {
    SkeletonGet(u, key);
    InsertAllCollects(Skeleton(u), QueryParameters(u.rawQuery, P.formDecode), key);
  }

  /**
   * A structural key no parameter names is present exactly when its
   * component is non-null, holding the component verbatim, empty or not.
   */
  lemma DecodeStructuralKey(text: string, P: Platform, u: UriParts, key: string)
    requires P.parseUri(text) == Some(u)
    requires IsStructural(key)
    requires ValuesOf(QueryParameters(u.rawQuery, P.formDecode), key) == []
    ensures Component(u, key).None? ==> Decode(text, P).Get(key).None?
    ensures Component(u, key).Some? ==> Decode(text, P).Get(key) == Some(Str(Component(u, key).value))
  {
    DecodeKey(text, P, u, key);
    assert ComponentTexts(u, key) + [] == ComponentTexts(u, key);
  }

  /**
   * A parameter key that is not structural holds nothing if it never
   * occurs, the decoded string if it occurs once, and the array of its
   * decoded values in query order if it occurs two or more times.
   */
  lemma DecodeParameterKey(text: string, P: Platform, u: UriParts, key: string)
    requires P.parseUri(text) == Some(u)
    requires !IsStructural(key)
    ensures var values := ValuesOf(QueryParameters(u.rawQuery, P.formDecode), key);
      && (|values| == 0 ==> Decode(text, P).Get(key).None?)
      && (|values| == 1 ==> Decode(text, P).Get(key) == Some(Str(values[0])))
      && (|values| >= 2 ==> Decode(text, P).Get(key) == Some(Arr(Strs(values))))
  {
    var values := ValuesOf(QueryParameters(u.rawQuery, P.formDecode), key);
    DecodeKey(text, P, u, key);
    assert ComponentTexts(u, key) == [];
    assert ComponentTexts(u, key) + values == values;
    assert Decode(text, P).Get(key) == Collected(values);
  }

  /**
   * For an accepted URI the non-null structural keys come first, in the
   * order scheme, authority, path, fragment; the parameter keys follow in
   * the order they first occur in the query, and every one of them is
   * named by some query parameter.
   */
  lemma DecodeOrder(text: string, P: Platform, u: UriParts)
    requires P.parseUri(text) == Some(u)
    ensures var order := Decode(text, P).order;
      && order == PresentStructuralKeys(u)
                  + FirstOccurrences(QueryParameters(u.rawQuery, P.formDecode), PresentStructuralKeys(u))
      && forall i :: |PresentStructuralKeys(u)| <= i < |order| ==>
           ComponentTexts(u, order[i]) == [] && ValuesOf(QueryParameters(u.rawQuery, P.formDecode), order[i]) != []
  {
    var params := QueryParameters(u.rawQuery, P.formDecode);
    InsertAllKeepsOrder(Skeleton(u), params);
    InsertAllOrder(Skeleton(u), params);
    var order := Decode(text, P).order;
    forall i | |PresentStructuralKeys(u)| <= i < |order|
      ensures ComponentTexts(u, order[i]) == []
    {
      SkeletonGet(u, order[i]);
    }
  }

  /**
   * A segment is cut at its first '=' only: the raw key before it, and the
   * form-decoded rest, which may itself contain '='.
   */
  lemma SegmentSplitsAtFirstEquals(key: string, raw: string, decode: string -> string)
    requires '=' !in key
    ensures SegmentParameter(key + "=" + raw, decode) == [(key, decode(raw))]
  {
    SplitFirstOfJoined(key, '=', raw);
  }

  /** The parameters of one more segment follow those of the segments before it. */
  lemma ParametersStep(segments: seq<string>, i: nat, decode: string -> string)
    requires i < |segments|
    ensures Parameters(segments[..i + 1], decode)
         == Parameters(segments[..i], decode) + SegmentParameter(segments[i], decode)
  {
    assert segments[..i + 1][..i] == segments[..i];
  }

  /** Storing the parameters of one more segment after those of the segments before it. */
  lemma InsertAllSegmentStep(m: Members, segments: seq<string>, i: nat, decode: string -> string)
    requires i < |segments|
    ensures InsertAll(m, Parameters(segments[..i + 1], decode))
         == InsertAll(InsertAll(m, Parameters(segments[..i], decode)), SegmentParameter(segments[i], decode))
  {
    ParametersStep(segments, i, decode);
    var before := Parameters(segments[..i], decode);
    var own := SegmentParameter(segments[i], decode);
    if own == [] {
      assert before + own == before;
    } else {
      InsertAllStep(m, before, own[0].0, own[0].1);
      InsertAllStep(InsertAll(m, before), [], own[0].0, own[0].1);
      assert own == [(own[0].0, own[0].1)];
      assert [] + own == own;
    }
  }

  /** Storing one more parameter after a run of them. */
  lemma InsertAllStep(m: Members, params: seq<(string, string)>, key: string, value: string)
    ensures InsertAll(m, params + [(key, value)]) == Insert(InsertAll(m, params), key, value)
  {
    assert (params + [(key, value)])[..|params|] == params;
  }

  /** Compose.kt:122-131 on the object itself: stores one query parameter in place. */
  method InsertParameter(obj: JsonObject, key: string, value: string)
    requires obj.Valid()
    modifies obj
    ensures obj.Valid()
    ensures obj.View() == Insert(old(obj.View()), key, value)
  {
    var current := obj.Get(key);
    if current.None? {
      Set(obj, key, Some(value));
    } else if current.value.Arr? {
      obj.Add(key, Arr(current.value.elements + [Str(value)]));
    } else {
      obj.Add(key, Arr([current.value, Str(value)]));
    }
  }

  /** Compose.kt:119-131: stores the parameter of one segment, if it has one. */
  method InsertSegment(obj: JsonObject, segment: string, decode: string -> string)
    requires obj.Valid()
    modifies obj
    ensures obj.Valid()
    ensures obj.View() == InsertAll(old(obj.View()), SegmentParameter(segment, decode))
  {
    var parameter := SplitFirst(segment, '=');
    if parameter.Some? {
      var (key, raw) := parameter.value;
      ghost var before := obj.View();
      InsertParameter(obj, key, decode(raw));
      assert SegmentParameter(segment, decode) == [(key, decode(raw))];
      InsertAllStep(before, [], key, decode(raw));
      assert [] + [(key, decode(raw))] == [(key, decode(raw))];
    }
  }

  /** Compose.kt:118-132: the loop storing the parameters of the segments, in segment order. */
  method InsertSegments(obj: JsonObject, segments: seq<string>, decode: string -> string)
    requires obj.Valid()
    modifies obj
    ensures obj.Valid()
    ensures obj.View() == InsertAll(old(obj.View()), Parameters(segments, decode))
  {
    ghost var start := obj.View();
    var i := 0;
    while i < |segments|
      invariant 0 <= i <= |segments|
      invariant obj.Valid()
      invariant obj.View() == InsertAll(start, Parameters(segments[..i], decode))
    {
      InsertAllSegmentStep(start, segments, i, decode);
      InsertSegment(obj, segments[i], decode);
      i := i + 1;
    }
    assert segments[..|segments|] == segments;
  }

  /** Compose.kt:118: stores every parameter of the raw query, and nothing when there is none. */
  method InsertQuery(obj: JsonObject, rawQuery: Option<string>, decode: string -> string)
    requires obj.Valid()
    modifies obj
    ensures obj.Valid()
    ensures obj.View() == InsertAll(old(obj.View()), QueryParameters(rawQuery, decode))
  {
    if rawQuery.Some? {
      InsertSegments(obj, Split(rawQuery.value, '&'), decode);
    }
  }

  /** `text.toObj()`: builds a fresh object from the text. */
  method ToObj(text: string, P: Platform) returns (obj: JsonObject)
    requires P.Valid()
    ensures fresh(obj) && obj.Valid()
    ensures obj.View() == Decode(text, P)
  {
    var parsed := P.parseUri(text);
    if parsed.Some? {
      var uri := parsed.value;
      obj := new JsonObject();
      Set(obj, "scheme", uri.scheme);
      Set(obj, "authority", uri.authority);
      Set(obj, "path", uri.path);
      Set(obj, "fragment", uri.fragment);
      InsertQuery(obj, uri.rawQuery, P.formDecode);
    } else {
      var json := P.parseJson(text);
      if json.Some? && json.value.Obj? {
        obj := new JsonObject.Holding(json.value.members);
      } else {
        obj := new JsonObject();
      }
    }
  }
}
