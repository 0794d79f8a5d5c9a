/**
 * Values shared by every controller: nullable references, the status codes a
 * controller answers with, and the response wrapper that carries them.
 */
module Common {

  /** A Java reference that may be null (`None`), or an optional result. */
  datatype Option<T> = None | Some(value: T)

  /** The fixed set of statuses a controller can answer with. */
  datatype Status = Ok | Created | BadRequest | NotFound | Conflict

  /**
   * The result wrapper: a status and an optional payload. The human-readable
   * message the source attaches is not part of this model.
   */
  datatype Response<T> = Response(status: Status, data: Option<T>)

  /** A response that carries no payload (`Response.of(status, message)`). */
  function Fail<T>(status: Status): Response<T>
  {
    Response(status, None)
  }

  /** The elements of a list of nullable values that are not null, in order. */
  function Present<T(!new)>(s: seq<Option<T>>): (r: seq<T>)
    ensures |r| <= |s|
    ensures forall x :: x in r <==> Some(x) in s
  {
    if s == [] then []
    else if s[|s| - 1].None? then Present(s[..|s| - 1])
    else Present(s[..|s| - 1]) + [s[|s| - 1].value]
  }
}
