/**
 * `JsonObject.onUpdate(key, value)`: the field reconciler. The kind of the
 * value already stored under `key` decides how the newly typed text is
 * read; every failure stores the text itself as a string.
 */
module Reconciler {
  import opened Wrappers
  import opened Strings
  import opened Json
  import opened Externals

  /**
   * Overwrites the entry under `key` in place: a boolean takes
   * `value.toBoolean()`, a number takes the parsed number, a string takes
   * the text verbatim, and an absent key, array, object or JSON null takes
   * the JSON the text parses to. A failed number or JSON parse stores the
   * text as a string. The key keeps its position (or is appended when new)
   * and no other entry changes.
   */
  method OnUpdate(obj: JsonObject, key: string, value: string, P: Platform)
    requires obj.Valid()
    modifies obj
    ensures obj.Valid()
    ensures obj.order == if key in old(obj.table) then old(obj.order) else old(obj.order) + [key]
    ensures forall k :: k != key ==> obj.Get(k) == old(obj.Get(k))
    ensures key in obj.table
    ensures old(obj.Get(key)).Some? && old(obj.Get(key)).value.Bool? ==> obj.table[key] == Bool(ToBoolean(value))
    ensures old(obj.Get(key)).Some? && old(obj.Get(key)).value.Num? ==>
      obj.table[key] == (match P.toDouble(value) case Some(n) => Num(n) case None => Str(value))
    ensures old(obj.Get(key)).Some? && old(obj.Get(key)).value.Str? ==> obj.table[key] == Str(value)
    ensures old(obj.Get(key)).None? || !old(obj.Get(key)).value.IsPrimitive() ==>
      obj.table[key] == (match P.parseJson(value) case Some(v) => v case None => Str(value))
  {
    var current := obj.Get(key);
    if current.Some? && current.value.Bool? {
      obj.Add(key, Bool(ToBoolean(value)));
    } else if current.Some? && current.value.Num? {
      var number := P.toDouble(value);
      if number.Some? {
        obj.Add(key, Num(number.value));
      } else {
        obj.Add(key, Str(value));
      }
    } else if current.Some? && current.value.Str? {
      obj.Add(key, Str(value));
    } else {
      var parsed := P.parseJson(value);
      if parsed.Some? {
        obj.Add(key, parsed.value);
      } else {
        obj.Add(key, Str(value));
      }
    }
  }
}
