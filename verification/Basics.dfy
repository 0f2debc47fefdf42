/** What several modules need of lists and of values that may be missing. */
module Basics {

  datatype Option<+T> = None | Some(value: T)

  // A piece of text, as the key of a table.
  datatype Name = Name(text: string)

  function One(b: bool): nat {
    if b then 1 else 0
  }

  function Min(a: int, b: int): int {
    if a < b then a else b
  }

  function First<T>(s: seq<T>): Option<T> {
    if s == [] then None else Some(s[0])
  }

  lemma Associates<T>(s: seq<T>, t: seq<T>, u: seq<T>)
    ensures s + (t + u) == (s + t) + u
  {}

  predicate Distinct<T(==)>(s: seq<T>) {
    forall i, j :: 0 <= i < j < |s| ==> s[i] != s[j]
  }

  // g_list_remove() and g_slist_remove(): the first occurrence goes.
  function RemoveFirst<T(!new,==)>(s: seq<T>, x: T): (r: seq<T>)
    ensures forall y :: y in r ==> y in s
    ensures Distinct(s) ==> Distinct(r)
    ensures Distinct(s) ==> forall y :: y in r <==> y in s && y != x
    ensures x !in s ==> r == s
  {
    if s == [] then []
    else if s[0] == x then s[1..]
    else
      var rest := RemoveFirst(s[1..], x);
      assert Distinct(s) ==> Distinct(s[1..]) && s[0] !in s[1..];
      assert Distinct(rest) && s[0] !in rest ==> Distinct([s[0]] + rest);
      [s[0]] + rest
  }
}
