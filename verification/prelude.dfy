/** Small vocabulary shared by every component: optional values and operations on Go slices. */
module Prelude {

  datatype Option<+T> = None | Some(value: T)

  datatype Result<+T, +E> = Ok(value: T) | Err(error: E)

  /** The slice with its elements in the opposite order. */
  function Reverse<T>(s: seq<T>): (r: seq<T>)
    ensures |r| == |s|
    ensures forall i :: 0 <= i < |s| ==> r[i] == s[|s| - 1 - i]
  {
    seq(|s|, i requires 0 <= i < |s| => s[|s| - 1 - i])
  }

  lemma ReverseTwice<T>(s: seq<T>)
    ensures Reverse(Reverse(s)) == s
  {
  }

  ghost predicate Distinct<T>(s: seq<T>) {
    forall i, j :: 0 <= i < j < |s| ==> s[i] != s[j]
  }

  /** s[offset:] followed by s[:limit] the way logbook pages its items; None where Go panics. */
  function Page<T>(s: seq<T>, offset: int, limit: int): Option<seq<T>> {
    var from := if offset > |s| then |s| else offset;
    if from < 0 then None
    else
      var rest := s[from..];
      if limit < |rest| && limit != -1 then
        if limit < 0 then None else Some(rest[..limit])
      else Some(rest)
  }
}
