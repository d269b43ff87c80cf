/** The string-keyed store of heterogeneous values that vertices use to pass
    payloads around, with each operation taken as atomic (the read/write lock
    only serialises them). A value is Go's `any` as the store sees it: nil,
    a nested `map[string]any`, a nested `[]any`, or something else that is
    copied as it is. */
module Kv {

  /** Go's `any` as `copy` sees it: nil, a `map[string]any` or a `[]any`,
      both of which it descends into, or any other value of type `A` (a
      number, a string, a `[]string`, a struct, ...), which it takes as it
      is. */
  datatype Value<A> =
    | Nil
    | Scalar(a: A)
    | Obj(entries: map<string, Value<A>>)
    | List(items: seq<Value<A>>)

  /** `kv`: the map behind the lock. */
  datatype Store<A> = Store(d: map<string, Value<A>>)

  /** `GetValue`: the stored value, or nil for a key that is not stored. */
  function GetValue<A>(s: Store<A>, k: string): (v: Value<A>)
    ensures k !in s.d ==> v == Nil
    ensures k in s.d ==> v == s.d[k]
  {
    if k in s.d then s.d[k] else Nil
  }

  /** `copy`: a deep copy, descending into nested maps and lists; as a
      value it is equal to what it copies. */
  function Copy<A>(v: Value<A>): (r: Value<A>)
    ensures r == v
  {
    match v
    case Obj(m) =>
      var c := map k | k in m :: Copy(m[k]);
      assert forall k :: k in m ==> c[k] == m[k];
      assert c == m;
      Obj(c)
    case List(items) =>
      var c := seq(|items|, i requires 0 <= i < |items| => Copy(items[i]));
      assert forall i :: 0 <= i < |items| ==> c[i] == items[i];
      assert c == items;
      List(c)
    case _ => v
  }

  /** `Get`: a snapshot with exactly the stored keys, each value a deep copy
      of the stored one. */
  function Get<A>(s: Store<A>): (snapshot: map<string, Value<A>>)
    ensures snapshot.Keys == s.d.Keys
    ensures forall k :: k in snapshot ==> snapshot[k] == GetValue(s, k)
  {
    map k | k in s.d :: Copy(s.d[k])
  }

  /** `Length`: the number of stored keys. */
  function Length<A>(s: Store<A>): (n: nat)
    ensures n == |Get(s)|
  {
    |s.d|
  }

  /** `New`: an empty store. */
  function New<A>(): (r: Store<A>)
    ensures Length(r) == 0
    ensures forall k :: GetValue(r, k) == Nil
  {
    Store(map[])
  }

  /** `AddEntry`: store `v` under `k`, replacing any earlier value; every
      other key keeps its value. */
  function AddEntry<A>(s: Store<A>, k: string, v: Value<A>): (r: Store<A>)
    ensures r.d.Keys == s.d.Keys + {k}
    ensures GetValue(r, k) == v
    ensures forall k' :: k' != k ==> GetValue(r, k') == GetValue(s, k')
  {
    Store(s.d[k := v])
  }

  /** `Add`: copy every entry of `o` into `s`, one key at a time in an
      arbitrary order; the entries of `o` win over those already stored. */
  method Add<A>(s: Store<A>, o: Store<A>) returns (r: Store<A>)
    ensures r.d.Keys == s.d.Keys + o.d.Keys
    ensures forall k :: k in o.d ==> GetValue(r, k) == GetValue(o, k)
    ensures forall k :: k !in o.d ==> GetValue(r, k) == GetValue(s, k)
  {
    var snapshot := Get(o);
    var d := s.d;
    var todo := snapshot.Keys;
    while todo != {}
      invariant todo <= snapshot.Keys
      invariant d.Keys == s.d.Keys + (snapshot.Keys - todo)
      invariant forall k :: k in snapshot && k !in todo ==> d[k] == snapshot[k]
      invariant forall k :: k in d && (k !in snapshot || k in todo) ==> d[k] == s.d[k]
      decreases todo
    {
      var k :| k in todo;
      d := d[k := snapshot[k]];
      todo := todo - {k};
    }
    r := Store(d);
  }

  /** Storing under a new key adds one to the length; storing under a key
      already present leaves it unchanged. */
  lemma AddEntryLength<A>(s: Store<A>, k: string, v: Value<A>)
    ensures k in s.d ==> Length(AddEntry(s, k, v)) == Length(s)
    ensures k !in s.d ==> Length(AddEntry(s, k, v)) == Length(s) + 1
  {
    var r := AddEntry(s, k, v);
    if k in s.d {
      assert r.d.Keys == s.d.Keys;
    } else {
      assert r.d.Keys == s.d.Keys + {k};
    }
  }

  /** A snapshot taken by `Get` and stored back entry by entry rebuilds the
      same store: the snapshot loses nothing. */
  lemma GetIsFaithful<A>(s: Store<A>)
    ensures Store(Get(s)) == s
  {
    var g := Get(s);
    assert forall k :: k in g ==> g[k] == s.d[k];
  }
}
