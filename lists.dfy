/**
 * The array operations both front-end state holders apply to their lists
 * of records: `filter` and `map` by id, `findIndex` and its reversed counterpart.
 * A record's id is read through a `key` function.
 */
module Lists {
  import opened Wrappers

  /** `xs.filter((x) => key(x) !== id)`. */
  function WithoutKey<T(!new)>(xs: seq<T>, key: T -> string, id: string): (r: seq<T>)
    ensures |r| <= |xs|
    ensures forall x :: x in r <==> x in xs && key(x) != id
    decreases |xs|
  {
    if xs == [] then []
    else (if key(xs[0]) != id then [xs[0]] else []) + WithoutKey(xs[1..], key, id)
  }

  /** Filtering a concatenation filters each part: the kept records stay in their order. */
  lemma {:induction false} WithoutKeyConcat<T(!new)>(a: seq<T>, b: seq<T>, key: T -> string, id: string)
    ensures WithoutKey(a + b, key, id) == WithoutKey(a, key, id) + WithoutKey(b, key, id)
    decreases |a|
  {
    if a == [] {
      assert a + b == b;
    } else {
      assert (a + b)[0] == a[0] && (a + b)[1..] == a[1..] + b;
      WithoutKeyConcat(a[1..], b, key, id);
    }
  }

  /** A list without a record of that id is left as it is. */
  lemma {:induction false} WithoutAbsentKey<T(!new)>(xs: seq<T>, key: T -> string, id: string)
    requires forall k | 0 <= k < |xs| :: key(xs[k]) != id
    ensures WithoutKey(xs, key, id) == xs
    decreases |xs|
  {
    if xs != [] {
      WithoutAbsentKey(xs[1..], key, id);
      assert xs == [xs[0]] + xs[1..];
    }
  }

  /** Exactly the records of that id go: one record fewer for each of them. */
  lemma {:induction false} WithoutKeyCount<T(!new)>(xs: seq<T>, key: T -> string, id: string)
    ensures |WithoutKey(xs, key, id)| == |xs| - CountKey(xs, key, id)
    decreases |xs|
  {
    if xs != [] {
      WithoutKeyCount(xs[1..], key, id);
    }
  }

  /** Some record carries the id. */
  predicate HasKey<T>(xs: seq<T>, key: T -> string, id: string) {
    exists k | 0 <= k < |xs| :: key(xs[k]) == id
  }

  /** Filtering one id out keeps every record of another id. */
  lemma FilterKeepsOtherKey<T(!new)>(xs: seq<T>, key: T -> string, id: string, other: string)
    requires other != id && HasKey(xs, key, other)
    ensures HasKey(WithoutKey(xs, key, id), key, other)
  {
    var k :| 0 <= k < |xs| && key(xs[k]) == other;
    var r := WithoutKey(xs, key, id);
    assert xs[k] in xs;
    assert xs[k] in r;
    var j :| 0 <= j < |r| && r[j] == xs[k];
  }

  /** How many records carry the id. */
  function CountKey<T>(xs: seq<T>, key: T -> string, id: string): nat
    decreases |xs|
  {
    if xs == [] then 0 else (if key(xs[0]) == id then 1 else 0) + CountKey(xs[1..], key, id)
  }

  /** `xs.map((x) => key(x) === id ? f(x) : x)`. */
  function MapWhereKey<T>(xs: seq<T>, key: T -> string, id: string, f: T -> T): (r: seq<T>)
    ensures |r| == |xs|
    ensures forall k | 0 <= k < |xs| :: r[k] == if key(xs[k]) == id then f(xs[k]) else xs[k]
    decreases |xs|
  {
    if xs == [] then []
    else [if key(xs[0]) == id then f(xs[0]) else xs[0]] + MapWhereKey(xs[1..], key, id, f)
  }

  /** `xs.findIndex(p)`: the index of the first record that satisfies `p`. */
  function IndexWhere<T>(xs: seq<T>, p: T -> bool, from: nat): (r: Option<nat>)
    requires from <= |xs|
    ensures r.Some? ==> from <= r.value < |xs| && p(xs[r.value])
    ensures r.Some? ==> forall j | from <= j < r.value :: !p(xs[j])
    ensures r.None? ==> forall j | from <= j < |xs| :: !p(xs[j])
    decreases |xs| - from
  {
    if from == |xs| then None
    else if p(xs[from]) then Some(from)
    else IndexWhere(xs, p, from + 1)
  }

  /** The index of the last record below `upto` that satisfies `p`. */
  function LastIndexWhere<T>(xs: seq<T>, p: T -> bool, upto: nat): (r: Option<nat>)
    requires upto <= |xs|
    ensures r.Some? ==> r.value < upto && p(xs[r.value])
    ensures r.Some? ==> forall j | r.value < j < upto :: !p(xs[j])
    ensures r.None? ==> forall j | 0 <= j < upto :: !p(xs[j])
  {
    if upto == 0 then None
    else if p(xs[upto - 1]) then Some(upto - 1)
    else LastIndexWhere(xs, p, upto - 1)
  }

  /** Appending a record, whatever it is, leaves the search below the old length as it was. */
  lemma {:induction false} LastIndexSnoc<T>(xs: seq<T>, x: T, p: T -> bool, upto: nat)
    requires upto <= |xs|
    ensures LastIndexWhere(xs + [x], p, upto) == LastIndexWhere(xs, p, upto)
  {
    if upto > 0 {
      assert (xs + [x])[upto - 1] == xs[upto - 1];
      LastIndexSnoc(xs, x, p, upto - 1);
    }
  }
}
