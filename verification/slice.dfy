/** The append-only list vertices record results in, with each operation
    taken as atomic (the read/write lock only serialises them). */
module Slice {

  /** `slice`: the elements behind the lock, oldest first. */
  datatype Slice<T> = Slice(d: seq<T>)

  /** `Get`: the elements in the order they were added. */
  function Get<T>(s: Slice<T>): seq<T>
  {
    s.d
  }

  /** `Length`: the number of elements added so far. */
  function Length<T>(s: Slice<T>): (n: nat)
    ensures n == |Get(s)|
  {
    |s.d|
  }

  /** `New`: a list with no elements. */
  function New<T>(): (r: Slice<T>)
    ensures Length(r) == 0
    ensures Get(r) == []
  {
    Slice([])
  }

  /** `Add`: `v` becomes the last element; the earlier ones keep their
      positions. */
  function Add<T>(s: Slice<T>, v: T): (r: Slice<T>)
    ensures Length(r) == Length(s) + 1
    ensures Get(r)[Length(s)] == v
    ensures Get(r)[..Length(s)] == Get(s)
  {
    Slice(s.d + [v])
  }

  /** Adding the elements of `vs` one at a time, first to last. */
  function AddAll<T>(s: Slice<T>, vs: seq<T>): Slice<T>
    decreases |vs|
  {
    if |vs| == 0 then s else AddAll(Add(s, vs[0]), vs[1..])
  }

  /** Whatever was added, `Get` returns it in insertion order after what
      was already there. */
  lemma {:induction false} AddAllAppends<T>(s: Slice<T>, vs: seq<T>)
    ensures Get(AddAll(s, vs)) == Get(s) + vs
    decreases |vs|
  {
    if |vs| > 0 {
      AddAllAppends(Add(s, vs[0]), vs[1..]);
      assert Get(Add(s, vs[0])) == Get(s) + [vs[0]];
      assert vs == [vs[0]] + vs[1..];
    }
  }

  /** A list built from `New` by adding `vs` holds exactly `vs`. */
  lemma FromNew<T>(vs: seq<T>)
    ensures Get(AddAll(New<T>(), vs)) == vs
    ensures Length(AddAll(New<T>(), vs)) == |vs|
  {
    AddAllAppends(New<T>(), vs);
  }
}
