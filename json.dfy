/**
 * The JSON tree the editor works on (Gson's JsonElement family) and the
 * mutable object at its root (Gson's JsonObject: an insertion-ordered map
 * with unique keys).
 */
module Json {
  import opened Wrappers
  import opened Strings

  /** A JSON number, carried as the text Gson renders for it (`asString`). */
  datatype Number = Number(text: string)

  /** A JSON element: a primitive, an array, an object or JSON null. */
  datatype Value =
    | Str(str: string)
    | Num(num: Number)
    | Bool(flag: bool)
    | Arr(elements: seq<Value>)
    | Obj(members: Members)
    | Null
  {
    /** Gson's JsonPrimitive: a string, a number or a boolean. */
    predicate IsPrimitive()
    {
      Str? || Num? || Bool?
    }

    /** `JsonPrimitive.asString`: the primitive's string form. */
    function AsString(): (r: string)
      requires IsPrimitive()
      ensures Str? ==> r == str
      ensures Num? ==> r == num.text
      ensures Bool? ==> r == (if flag then "true" else "false")
      ensures Bool? ==> ToBoolean(r) == flag
    {
      match this
      case Str(s) => s
      case Num(n) => n.text
      case Bool(b) => if b then "true" else "false"
    }
  }

  /** No key occurs twice in `keys`. */
  predicate Distinct(keys: seq<string>)
  {
    forall i, j :: 0 <= i < j < |keys| ==> keys[i] != keys[j]
  }

  /**
   * The contents of a JSON object: the keys in insertion order, and the
   * value each key maps to.
   */
  datatype Members = Members(order: seq<string>, table: map<string, Value>)
  {
    /** Keys are unique and are exactly the keys of the table. */
    ghost predicate Valid()
    {
      && Distinct(order)
      && forall k :: k in table <==> k in order
    }

    /** `JsonObject.get(key)`: the value stored under `key`, if any. */
    function Get(key: string): Option<Value>
    {
      if key in table then Some(table[key]) else None
    }

    /**
     * `JsonObject.add(key, v)`: a new key goes to the end, an existing key
     * keeps its position and only its value is replaced.
     */
    function Put(key: string, v: Value): (r: Members)
      ensures Valid() ==> r.Valid()
      ensures r.Get(key) == Some(v)
      ensures forall k :: k != key ==> r.Get(k) == Get(k)
      ensures key in table ==> r.order == order
      ensures key !in table ==> r.order == order + [key]
    {
      if key in table then Members(order, table[key := v])
      else Members(order + [key], table[key := v])
    }
  }

  /** The object with no members. */
  const Empty: Members := Members([], map[])

  /**
   * A JSON object updated in place. Its state is the insertion order of its
   * keys and the table from keys to values.
   */
  class JsonObject {
    var order: seq<string>
    var table: map<string, Value>

    /** The current contents, as a value. */
    function View(): Members
      reads this
    {
      Members(order, table)
    }

    ghost predicate Valid()
      reads this
    {
      View().Valid()
    }

    /** `JsonObject()`: a new, empty object. */
    constructor ()
      ensures Valid() && View() == Empty
    {
      order := [];
      table := map[];
    }

    /** An object holding the given members, as a parser hands it over. */
    constructor Holding(m: Members)
      requires m.Valid()
      ensures Valid() && View() == m
    {
      order := m.order;
      table := m.table;
    }

    /** `JsonObject.get(key)`. */
    function Get(key: string): (r: Option<Value>)
      reads this
      ensures r.Some? <==> key in table
    {
      View().Get(key)
    }

    /** `JsonObject.add(key, v)` and `addProperty(key, v)`, in place. */
    method Add(key: string, v: Value)
      requires Valid()
      modifies this
      ensures Valid()
      ensures View() == old(View()).Put(key, v)
    {
      if key !in table {
        order := order + [key];
      }
      table := table[key := v];
    }
  }
}
