/**
 * Shared vocabulary of the backend model: optional request fields, HTTP
 * outcomes, JavaScript truthiness of string fields, and a first-match search
 * standing in for the record store's `findOne` / `findById`.
 */
module Common {

  /** A value that may be absent: `undefined` / `null` in a request body or a document. */
  datatype Option<+T> = None | Some(value: T) {
    function GetOr(default: T): T {
      match this
      case Some(v) => v
      case None => default
    }
  }

  /**
   * The outcome of one request handler, one constructor per status code the
   * handlers send: 200, 201, 400, 404, and 500 (a save that the schema
   * validator rejects).
   */
  datatype Response<+T> =
    | Ok(body: T)
    | Created(body: T)
    | BadRequest
    | NotFound
    | ServerError

  /**
   * JavaScript truthiness of a string request field: `!x` is true exactly for
   * `undefined`, `null` and the empty string.
   */
  predicate Present(x: Option<string>) {
    x.Some? && x.value != ""
  }

  /** `x || d` on a string field: the field when it is truthy, else `d`. */
  function OrElse(x: Option<string>, d: string): string {
    if Present(x) then x.value else d
  }

  /**
   * Position of the first element of `s` that satisfies `p`, as a store's
   * `findOne(filter)` returns the first matching document.
   */
  function IndexWhere<T>(s: seq<T>, p: T -> bool): (r: Option<nat>)
    ensures r.Some? ==> r.value < |s| && p(s[r.value])
    ensures r.Some? ==> forall j :: 0 <= j < r.value ==> !p(s[j])
    ensures r.None? <==> forall j :: 0 <= j < |s| ==> !p(s[j])
  {
    if |s| == 0 then None
    else if p(s[0]) then Some(0)
    else match IndexWhere(s[1..], p)
      case None => None
      case Some(k) => Some(k + 1)
  }
}
