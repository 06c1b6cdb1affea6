/** The relay's view of an uploaded bundle. */
module Schemas {
  import opened Wrappers
  import opened Json

  /**
   * A bundle as the relay receives it (a JSON object): `fields` holds the
   * top-level keys other than "metadata", `metadata` the nested object.  A
   * missing, null or empty "metadata" is the empty map, as all three read the
   * same through `bundle.get("metadata") or {}`.
   */
  datatype Bundle = Bundle(fields: map<string, Value>, metadata: map<string, Value>)

  /**
   * `meta.get(key) or bundle.get(key)`: the metadata entry when it is truthy,
   * else the top-level one when that is truthy, else nothing.
   */
  function Lookup(b: Bundle, key: string): (r: Option<Value>)
    ensures r.Some? ==> Truthy(r.value)
    ensures Present(Get(b.metadata, key)) ==> r == Get(b.metadata, key)
    ensures !Present(Get(b.metadata, key)) && Present(Get(b.fields, key)) ==> r == Get(b.fields, key)
    ensures !Present(Get(b.metadata, key)) && !Present(Get(b.fields, key)) ==> r.None?
  {
    FirstTruthy(Get(b.metadata, key), Get(b.fields, key))
  }
}
