/** Optional values and request outcomes shared by every part of the model. */
module Outcomes {

  /** A nullable value: a form field that may be missing, a column that may be NULL. */
  datatype Option<+T> = None | Some(value: T) {

    /** The carried value, or `default` when there is none. */
    function GetOr(default: T): T {
      match this
      case Some(v) => v
      case None => default
    }
  }

  /** Why a request fails instead of committing. */
  datatype Failure =
    | NotFound                   // a lookup by id found no row (HTTP 404)
    | MissingValue(column: string) // a NOT NULL column was given no value
    | BadInput(field: string)      // a form value the handler cannot convert

  /** The store after a committed request, or the reason nothing was committed. */
  datatype Result<+T> = Ok(value: T) | Err(failure: Failure)

  /** The value a form (or any string map) holds under `k`, as `dict.get` reads it. */
  function Get<K, V>(m: map<K, V>, k: K): (r: Option<V>)
    ensures r.Some? <==> k in m
    ensures r.Some? ==> r.value == m[k]
  {
    if k in m then Some(m[k]) else None
  }
}
