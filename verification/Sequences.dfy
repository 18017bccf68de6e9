/** Joining and searching sequences. */
module Sequences {
  import opened Wrappers

  function Concat<T>(parts: seq<seq<T>>): seq<T> {
    if parts == [] then [] else parts[0] + Concat(parts[1..])
  }

  lemma {:induction false} ConcatMore<T>(parts: seq<seq<T>>, last: seq<T>)
    ensures Concat(parts + [last]) == Concat(parts) + last
  {
    if parts == [] {
      assert [last][1..] == [];
    } else {
      assert (parts + [last])[1..] == parts[1..] + [last];
      ConcatMore(parts[1..], last);
    }
  }

  /** The first place of a value. */
  function IndexOf<T(==)>(s: seq<T>, x: T): (i: Option<nat>)
    ensures i.Some? ==> i.value < |s| && s[i.value] == x
    ensures forall k :: 0 <= k < |s| && (i.Some? ==> k < i.value) ==> s[k] != x
  {
    if s == [] then None
    else if s[0] == x then Some(0)
    else
      var j := IndexOf(s[1..], x);
      if j.None? then None else Some(j.value + 1)
  }
}
