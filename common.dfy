/** Values shared by the tracker and the alert manager: optional values, integer
    pixel points, and sequences used as the key order of insertion-ordered dictionaries. */
module Common {

  datatype Option<+T> = None | Some(value: T)

  /** A pixel position; detection centres are integer box midpoints. */
  datatype Point = Point(x: int, y: int)

  /** Squared Euclidean distance. Comparing squares orders candidates exactly as the
      square-rooted distance does, so no floating point is needed. */
  function SqDist(a: Point, b: Point): (d: nat)
    ensures d == 0 <==> a == b
  {
    var dx, dy := a.x - b.x, a.y - b.y;
    SquareZero(dx);
    SquareZero(dy);
    dx * dx + dy * dy
  }

  lemma SquareZero(n: int)
    ensures n * n >= 0
    ensures n * n == 0 <==> n == 0
  {
    if n < 0 {
      assert n * n == (-n) * (-n);
    }
  }

  /** No element occurs twice: the key order of a dictionary. */
  ghost predicate Distinct<T>(s: seq<T>)
  {
    forall i, j :: 0 <= i < j < |s| ==> s[i] != s[j]
  }

  /** `s` with every element of `xs` removed, the survivors keeping their order:
      what deleting keys does to the iteration order of a dictionary. */
  function Drop<T(!new)>(s: seq<T>, xs: set<T>): (r: seq<T>)
    ensures forall y {:trigger y in r} :: y in r <==> y in s && y !in xs
    ensures |r| <= |s|
    ensures Distinct(s) ==> Distinct(r)
    ensures (forall y :: y in s ==> y !in xs) ==> r == s
  {
    if s == [] then []
    else
      var rest := Drop(s[1..], xs);
      assert forall y :: y in s[1..] ==> y in s;
      if s[0] in xs then rest
      else
        ConsDistinct(s, rest);
        [s[0]] + rest
  }

  /** Putting the head of `s` back in front of a duplicate-free selection from its
      tail keeps it duplicate-free. */
  lemma ConsDistinct<T>(s: seq<T>, rest: seq<T>)
    requires s != []
    requires forall y :: y in rest ==> y in s[1..]
    requires Distinct(s[1..]) ==> Distinct(rest)
    ensures Distinct(s) ==> Distinct([s[0]] + rest)
  {
    if Distinct(s) {
      forall i, j | 0 <= i < j < |s[1..]| ensures s[1..][i] != s[1..][j] {
        assert s[1..][i] == s[i + 1] && s[1..][j] == s[j + 1];
      }
      forall k | 0 <= k < |s[1..]| ensures s[1..][k] != s[0] {
        assert s[1..][k] == s[k + 1];
      }
      assert Distinct(s[1..]);
      var c := [s[0]] + rest;
      forall i, j | 0 <= i < j < |c| ensures c[i] != c[j] {
        assert c[j] == rest[j - 1] && rest[j - 1] in rest;
        if i > 0 {
          assert c[i] == rest[i - 1];
        }
      }
    }
  }

  /** Deleting one key after another is deleting them all at once. */
  lemma {:induction false} DropDrop<T(!new)>(s: seq<T>, xs: set<T>, ys: set<T>)
    ensures Drop(Drop(s, xs), ys) == Drop(s, xs + ys)
  {
    if s != [] {
      DropDrop(s[1..], xs, ys);
    }
  }

  /** Appending a key that is not yet present keeps the order duplicate-free. */
  lemma AppendDistinct<T>(s: seq<T>, x: T)
    requires Distinct(s) && x !in s
    ensures Distinct(s + [x])
  {
    forall i, j | 0 <= i < j < |s + [x]| ensures (s + [x])[i] != (s + [x])[j] {
      if j == |s| {
        assert (s + [x])[i] == s[i];
      } else {
        assert (s + [x])[i] == s[i] && (s + [x])[j] == s[j];
      }
    }
  }

  /** The elements of a sequence. */
  function Elems<T(!new)>(s: seq<T>): (r: set<T>)
    ensures forall x {:trigger x in r} :: x in r <==> x in s
  {
    set x | x in s
  }

  /** An insertion-ordered dictionary: its entries and the order its keys were first
      inserted in, which is the order iteration visits them. */
  datatype Dict<K(!new), V> = Dict(items: map<K, V>, keys: seq<K>)
  {
    /** Every key is listed once, and the listed keys are exactly the entries' keys. */
    ghost predicate Wf()
    {
      Distinct(keys) && forall k :: k in items <==> k in keys
    }

    /** `d[k] = v`: a new key goes to the end of the order, an existing key keeps its
        place. */
    function Put(k: K, v: V): (r: Dict<K, V>)
      requires Wf()
      ensures r.Wf()
      ensures r.items == items[k := v]
      ensures r.keys == if k in items then keys else keys + [k]
    {
      if k in items then Dict(items[k := v], keys)
      else
        AppendDistinct(keys, k);
        Dict(items[k := v], keys + [k])
    }

    /** `del d[k]` for every present key of `ks`; the other keys keep their order. */
    function Remove(ks: set<K>): (r: Dict<K, V>)
      requires Wf()
      ensures r.Wf()
      ensures r.items == items - ks
      ensures r.keys == Drop(keys, ks)
    {
      Dict(items - ks, Drop(keys, ks))
    }
  }

  /** Removing keys in two steps is removing them all at once. */
  lemma RemoveRemove<K(!new), V>(d: Dict<K, V>, xs: set<K>, ys: set<K>)
    requires d.Wf()
    ensures d.Remove(xs).Remove(ys) == d.Remove(xs + ys)
  {
    DropDrop(d.keys, xs, ys);
  }

  function Max(a: int, b: int): (m: int)
    ensures m >= a && m >= b && (m == a || m == b)
  {
    if a >= b then a else b
  }
}
