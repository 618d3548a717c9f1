/**
 * Python / numpy subscript semantics for a single integer index into a
 * sequence of length n: non-negative indices below n address themselves,
 * indices in [-n, -1] count from the end, anything else is an IndexError
 * (modelled as None).
 */
module PyIndex {
  import opened Wrappers

  function Normalize(i: int, n: nat): (r: Option<nat>)
    ensures r.Some? <==> 0 <= i + n && i < n
    ensures r.Some? ==> r.value < n && (r.value == i || r.value == i + n)
  {
    if 0 <= i < n then Some(i)
    else if 0 <= i + n && i < 0 then Some(i + n)
    else None
  }

  /** Exactly two subscripts reach column c of a length-n sequence: c itself and c - n. */
  lemma NormalizeHits(i: int, n: nat, c: nat)
    requires c < n
    ensures Normalize(i, n) == Some(c) <==> i == c || i == c - n
  {
  }
}
