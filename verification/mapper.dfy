/** The generic `Map` helper of the userplan service: apply a function to every element. */
module Mapper {

  /** The elements of `s`, each transformed by `f`, in the same order. */
  function MapSeq<T, U>(s: seq<T>, f: T -> U): (r: seq<U>)
    ensures |r| == |s|
    ensures forall i :: 0 <= i < |s| ==> r[i] == f(s[i])
  {
    if s == [] then [] else [f(s[0])] + MapSeq(s[1..], f)
  }

  /** Allocates a result of the same length and fills it index by index; `s` is only read. */
  method Map<T, U(0)>(s: array<T>, f: T -> U) returns (res: array<U>)
    ensures fresh(res)
    ensures res[..] == MapSeq(s[..], f)
  {
    res := new U[s.Length];
    for i := 0 to s.Length
      invariant forall j :: 0 <= j < i ==> res[j] == f(s[j])
    {
      res[i] := f(s[i]);
    }
  }

  lemma MapEmpty<T, U>(f: T -> U)
    ensures MapSeq([], f) == []
  {
  }

  /** Mapping with `f` and then with `g` is mapping once with their composition. */
  lemma {:induction false} MapCompose<T, U, V>(s: seq<T>, f: T -> U, g: U -> V)
    ensures MapSeq(MapSeq(s, f), g) == MapSeq(s, x => g(f(x)))
  {
    if s != [] {
      MapCompose(s[1..], f, g);
      assert MapSeq(s, f)[1..] == MapSeq(s[1..], f);
    }
  }
}
