/** JavaScript arrays as the pages' scripts use them. An array is a sequence of slots, a slot
    `None` being a hole: index assignment past the end grows the array and leaves holes, a read
    past the end or of a hole gives `undefined`, `filter` skips holes, and `splice(i, 1)` removes
    one slot or, past the end, nothing. */
module JsArray {
  import opened Wrappers

  /** `a[k]`: a hole or an index past the end reads as `undefined`. */
  function Get<T>(a: seq<Option<T>>, k: nat): Option<T> {
    if k < |a| then a[k] else None
  }

  function Holes<T>(n: nat): (r: seq<Option<T>>)
    ensures |r| == n && forall i :: 0 <= i < n ==> r[i] == None
  {
    if n == 0 then [] else Holes(n - 1) + [None]
  }

  /** `a[k] = v`: slot `k` holds `v`, every other index reads as before, and the array is
      grown to `k + 1` slots when `k` was past its end. */
  function Assign<T>(a: seq<Option<T>>, k: nat, v: T): (r: seq<Option<T>>)
    ensures |r| == if k < |a| then |a| else k + 1
    ensures forall j :: Get(r, j) == if j == k then Some(v) else Get(a, j)
  {
    if k < |a| then a[k := Some(v)] else a + Holes(k - |a|) + [Some(v)]
  }

  /** `a.splice(i, 1)`: the slot at `i` is removed and the later ones move down by one; an
      index past the end removes nothing. */
  function Splice<T>(a: seq<T>, i: nat): (r: seq<T>)
    ensures |r| == if i < |a| then |a| - 1 else |a|
    ensures forall j :: 0 <= j < |r| ==> r[j] == if j < i then a[j] else a[j + 1]
  {
    if i < |a| then a[..i] + a[i + 1..] else a
  }

  /** `a.filter(x => x !== undefined).length`: the number of slots holding a value. */
  function CountDefined<T>(a: seq<Option<T>>): (n: nat)
    ensures n <= |a|
  {
    if a == [] then 0 else CountDefined(a[..|a| - 1]) + (if a[|a| - 1].Some? then 1 else 0)
  }

  lemma {:induction false} CountDefinedConcat<T>(a: seq<Option<T>>, b: seq<Option<T>>)
    ensures CountDefined(a + b) == CountDefined(a) + CountDefined(b)
    decreases |b|
  {
    if b == [] {
      assert a + b == a;
    } else {
      var n := |b| - 1;
      assert (a + b)[..|a + b| - 1] == a + b[..n];
      CountDefinedConcat(a, b[..n]);
    }
  }

  lemma {:induction false} CountDefinedHoles<T>(n: nat)
    ensures CountDefined(Holes<T>(n)) == 0
  {
    if n > 0 {
      assert Holes<T>(n)[..n - 1] == Holes<T>(n - 1);
      CountDefinedHoles<T>(n - 1);
    }
  }

  lemma {:induction false} CountDefinedUpdate<T>(a: seq<Option<T>>, k: nat, v: T)
    requires k < |a|
    ensures CountDefined(a[k := Some(v)]) == CountDefined(a) + (if a[k].None? then 1 else 0)
    decreases |a|
  {
    var b := a[k := Some(v)];
    var n := |a| - 1;
    assert b[..n] == if k < n then a[..n][k := Some(v)] else a[..n];
    if k < n {
      CountDefinedUpdate(a[..n], k, v);
    }
  }

  /** Filling a slot raises the count of defined slots by one exactly when it was a hole. */
  lemma CountDefinedAssign<T>(a: seq<Option<T>>, k: nat, v: T)
    ensures CountDefined(Assign(a, k, v)) == CountDefined(a) + (if Get(a, k).None? then 1 else 0)
  {
    if k < |a| {
      CountDefinedUpdate(a, k, v);
    } else {
      CountDefinedConcat(a + Holes(k - |a|), [Some(v)]);
      CountDefinedConcat(a, Holes(k - |a|));
      CountDefinedHoles<T>(k - |a|);
      assert CountDefined([Some(v)]) == 1 by {
        assert [Some(v)][..0] == [];
      }
    }
  }
}
