/** Models of the JavaScript array built-ins the graph pipeline relies on:
    `undefined` as an Option, `Array.prototype.find` (as the index of the
    first match) and `Array.from(new Set(xs))` (de-duplication that keeps
    first occurrences). */
module Arrays {

  /** `undefined` (None) or a defined value. */
  datatype Option<+T> = None | Some(value: T)

  /** `s.find(p)`, returning the position of the element it would return:
      the first element satisfying `p`, or None when there is none. */
  function Find<T>(s: seq<T>, p: T -> bool): (r: Option<nat>)
    ensures r.Some? ==> r.value < |s| && p(s[r.value])
    ensures r.Some? ==> forall j :: 0 <= j < r.value ==> !p(s[j])
    ensures r.None? <==> forall j :: 0 <= j < |s| ==> !p(s[j])
    decreases |s|
  {
    if s == [] then None
    else if p(s[0]) then Some(0)
    else match Find(s[1..], p)
      case None => None
      case Some(k) => Some(k + 1)
  }

  /** The set of elements of a sequence. */
  ghost function Elems<T>(s: seq<T>): set<T>
  {
    set x | x in s
  }

  /** No element occurs twice. */
  ghost predicate NoDups<T>(s: seq<T>)
  {
    forall i, j :: 0 <= i < j < |s| ==> s[i] != s[j]
  }

  /** The position of the first occurrence of `x` in `s`. */
  ghost function IndexOf<T>(s: seq<T>, x: T): (k: nat)
    requires x in s
    ensures k < |s| && s[k] == x
    ensures forall j :: 0 <= j < k ==> s[j] != x
    decreases |s|
  {
    if s[0] == x then 0 else 1 + IndexOf(s[1..], x)
  }

  lemma {:induction false} IndexOfPrefix<T>(s: seq<T>, n: nat, x: T)
    requires n <= |s| && x in s[..n]
    ensures IndexOf(s, x) == IndexOf(s[..n], x)
  {
    var k := IndexOf(s[..n], x);
    assert s[k] == x;
  }

  /** `Array.from(new Set(xs))`: the distinct elements of `xs`, each at the
      place of its first occurrence. */
  function Dedup<T(==,!new)>(xs: seq<T>): (r: seq<T>)
    ensures NoDups(r)
    ensures forall x :: x in r <==> x in xs
    ensures forall i, j :: 0 <= i < j < |r| ==> IndexOf(xs, r[i]) < IndexOf(xs, r[j])
    decreases |xs|
  {
    if xs == [] then []
    else
      var init := xs[..|xs| - 1];
      var last := xs[|xs| - 1];
      var p := Dedup(init);
      assert xs == init + [last];
      assert forall x :: x in init ==> IndexOf(xs, x) == IndexOf(init, x) by {
        forall x | x in init { IndexOfPrefix(xs, |xs| - 1, x); }
      }
      if last in p then p
      else
        assert IndexOf(xs, last) == |xs| - 1;
        p + [last]
  }

  /** Keeping first occurrences never disturbs what is already there:
      de-duplicating a longer sequence extends the earlier result. */
  lemma {:induction false} DedupExtends<T(!new)>(xs: seq<T>, ys: seq<T>)
    ensures |Dedup(xs)| <= |Dedup(xs + ys)|
    ensures Dedup(xs + ys)[..|Dedup(xs)|] == Dedup(xs)
    decreases |ys|
  {
    if ys == [] {
      assert xs + ys == xs;
    } else {
      var ys' := ys[..|ys| - 1];
      DedupExtends(xs, ys');
      assert (xs + ys)[..|xs + ys| - 1] == xs + ys';
    }
  }

  /** A sequence without duplicates is its own de-duplication. */
  lemma {:induction false} DedupOfDistinct<T(!new)>(xs: seq<T>)
    requires NoDups(xs)
    ensures Dedup(xs) == xs
    decreases |xs|
  {
    if xs != [] {
      var init := xs[..|xs| - 1];
      DedupOfDistinct(init);
      assert xs[|xs| - 1] !in init;
    }
  }
}
