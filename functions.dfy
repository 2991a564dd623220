/** The small helpers of Functions.kt. */
module Functions {
  import opened Wrappers
  import opened Json

  /**
   * `catching { block }`: what the block returns (itself nullable) when it
   * completes, and null when it throws anything.
   */
  function Catching<R>(block: Attempt<Option<R>>): (r: Option<R>)
    ensures block.Returned? ==> r == block.value
    ensures block.Threw? ==> r.None?
  {
    match block
    case Returned(v) => v
    case Threw => None
  }

  /**
   * The contents after `obj[property] = value`: a null value changes
   * nothing, any other value is stored as a string primitive under
   * `property`, in place if the key was there, at the end otherwise.
   */
  function SetString(m: Members, property: string, value: Option<string>): (r: Members)
    ensures value.None? ==> r == m
    ensures value.Some? ==> r.Get(property) == Some(Str(value.value))
    ensures forall k :: k != property ==> r.Get(k) == m.Get(k)
    ensures property in m.table || value.None? ==> r.order == m.order
    ensures property !in m.table && value.Some? ==> r.order == m.order + [property]
    ensures m.Valid() ==> r.Valid()
  {
    match value
    case None => m
    case Some(s) => m.Put(property, Str(s))
  }

  /** The `JsonObject.set` operator, updating `obj` in place. */
  method Set(obj: JsonObject, property: string, value: Option<string>)
    requires obj.Valid()
    modifies obj
    ensures obj.Valid()
    ensures obj.View() == SetString(old(obj.View()), property, value)
  {
    if value.Some? {
      obj.Add(property, Str(value.value));
    }
  }

  /**
   * `obj.getString(key)`: null for an absent key, the string form of a
   * primitive, and a ClassCastException (`Threw`) for an array, an object
   * or JSON null.
   */
  function GetString(m: Members, key: string): (r: Attempt<Option<string>>)
    ensures r == Returned(None) <==> key !in m.table
    ensures r.Threw? <==> key in m.table && !m.table[key].IsPrimitive()
    ensures r.Returned? && r.value.Some? ==>
      key in m.table && m.table[key].IsPrimitive() && r.value.value == m.table[key].AsString()
  {
    match m.Get(key)
    case None => Returned(None)
    case Some(v) => if v.IsPrimitive() then Returned(Some(v.AsString())) else Threw
  }
}
