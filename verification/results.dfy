/** Failure values shared by the whole model: the exceptions the tutoring core
    raises (a missing JSON resource, an unknown source type, an index outside a
    list, a failed embedding call) become values of `Error`. */
module Results {

  datatype Error =
    | NotFound(resource: string)          // FileNotFoundError for a plan, pack or index
    | UnknownSourceType(sourceType: string) // ValueError in the pack builder
    | IndexOutOfRange                     // IndexError from a Python list subscript
    | Upstream                            // the embedding provider failed

  datatype Option<+T> = None | Some(value: T)

  /** Python truthiness of an optional string: present and not empty. */
  predicate Truthy(o: Option<string>) {
    o.Some? && o.value != ""
  }

  datatype Result<+T> = Ok(value: T) | Err(error: Error) {
    predicate IsFailure() { Err? }

    function PropagateFailure<U>(): Result<U>
      requires Err?
    {
      Err(error)
    }

    function Extract(): T
      requires Ok?
    {
      value
    }
  }

  /** A lookup in an in-memory store standing in for one JSON file per key. */
  function Load<K, V>(store: map<K, V>, key: K, what: string): (r: Result<V>)
    ensures key in store <==> r.Ok?
    ensures r.Ok? ==> r.value == store[key]
    ensures r.Err? ==> r.error == NotFound(what)
  {
    if key in store then Ok(store[key]) else Err(NotFound(what))
  }

  /** Python's `s[i]` on a list: a negative `i` counts from the end, and an
      index outside `[-|s|, |s|)` raises IndexError. */
  function Subscript<T>(s: seq<T>, i: int): (r: Result<T>)
    ensures r.Ok? <==> -|s| <= i < |s|
    ensures 0 <= i < |s| ==> r.value == s[i]
    ensures -|s| <= i < 0 ==> r.value == s[|s| + i]
    ensures r.Err? ==> r.error == IndexOutOfRange
  {
    if 0 <= i < |s| then Ok(s[i])
    else if -|s| <= i < 0 then Ok(s[|s| + i])
    else Err(IndexOutOfRange)
  }
}
