/**
  PHP arrays with integer keys and string values, as far as the router uses
  them: explode() builds a list keyed 0, 1, 2, ...; array_filter() drops the
  falsy values but KEEPS the surviving keys; `$a[k]` reads a key (null when it
  is absent); array_shift() drops the first entry and renumbers the keys.
 */
module PhpArray {
  import opened Options
  import opened PhpString

  /** One key/value slot. */
  datatype Entry = Entry(key: nat, value: string)

  /** An array as its entries in iteration order. */
  type PhpArray = seq<Entry>

  /** The values in iteration order (array_values). */
  function Values(a: PhpArray): (r: seq<string>)
    ensures |r| == |a|
    ensures forall i | 0 <= i < |a| :: r[i] == a[i].value
  {
    if |a| == 0 then [] else [a[0].value] + Values(a[1..])
  }

  /** The keys are 0, 1, 2, ... in order: a PHP "list". */
  predicate IsList(a: PhpArray) {
    forall i | 0 <= i < |a| :: a[i].key == i
  }

  /** The values xs stored under the consecutive keys first, first + 1, ... */
  function ListFrom(xs: seq<string>, first: nat): (a: PhpArray)
    ensures |a| == |xs|
    ensures forall i | 0 <= i < |xs| :: a[i] == Entry(first + i, xs[i])
  {
    if |xs| == 0 then [] else [Entry(first, xs[0])] + ListFrom(xs[1..], first + 1)
  }

  /** The list holding xs, as explode() returns it. */
  function List(xs: seq<string>): (a: PhpArray)
    ensures IsList(a) && Values(a) == xs
  {
    ListFrom(xs, 0)
  }

  /** The truthy strings of xs in their original order. */
  function Kept(xs: seq<string>): (r: seq<string>)
    ensures |r| <= |xs|
    ensures forall i | 0 <= i < |r| :: Truthy(r[i]) && r[i] in xs
    ensures forall i | 0 <= i < |xs| :: Truthy(xs[i]) ==> xs[i] in r
    ensures (forall i | 0 <= i < |xs| :: Truthy(xs[i])) ==> r == xs
  {
    if |xs| == 0 then []
    else
      assert xs == [xs[0]] + xs[1..];
      (if Truthy(xs[0]) then [xs[0]] else []) + Kept(xs[1..])
  }

  /** Filtering a concatenation filters each part. */
  lemma {:induction false} KeptConcat(xs: seq<string>, ys: seq<string>)
    ensures Kept(xs + ys) == Kept(xs) + Kept(ys)
  {
    if |xs| > 0 {
      assert (xs + ys)[1..] == xs[1..] + ys;
      KeptConcat(xs[1..], ys);
    } else {
      assert xs + ys == ys;
    }
  }

  /** The entries of r occur in a, in the same order. */
  predicate IsSubsequence(r: PhpArray, a: PhpArray)
    decreases |a|
  {
    if |r| == 0 then true
    else if |a| == 0 then false
    else (r[0] == a[0] && IsSubsequence(r[1..], a[1..])) || IsSubsequence(r, a[1..])
  }

  /** array_filter($a) without a callback: the entries with falsy values removed, keys untouched. */
  function ArrayFilter(a: PhpArray): (r: PhpArray)
    ensures Values(r) == Kept(Values(a))
    ensures forall i | 0 <= i < |r| :: r[i] in a
    ensures IsSubsequence(r, a)
  {
    if |a| == 0 then []
    else
      var rest := ArrayFilter(a[1..]);
      assert Values(a)[1..] == Values(a[1..]);
      assert forall i | 0 <= i < |rest| :: rest[i] in a;
      if Truthy(a[0].value) then
        ValuesConcat([a[0]], rest);
        SubsequenceCons(a, rest);
        [a[0]] + rest
      else
        SubsequenceSkip(a, rest);
        rest
  }

  /** Keeping the first entry extends a subsequence of the rest. */
  lemma SubsequenceCons(a: PhpArray, r: PhpArray)
    requires |a| > 0 && IsSubsequence(r, a[1..])
    ensures IsSubsequence([a[0]] + r, a)
  {
    assert ([a[0]] + r)[1..] == r;
  }

  /** Dropping the first entry keeps a subsequence of the rest. */
  lemma SubsequenceSkip(a: PhpArray, r: PhpArray)
    requires |a| > 0 && IsSubsequence(r, a[1..])
    ensures IsSubsequence(r, a)
  {
  }

  /** array_values of a concatenation is the concatenation of the array_values. */
  lemma ValuesConcat(a: PhpArray, b: PhpArray)
    ensures Values(a + b) == Values(a) + Values(b)
  {
  }

  /** `$a[k]`: the value stored under key k, or None (PHP's null) when k is absent. */
  function Lookup(a: PhpArray, k: nat): (r: Option<string>)
    ensures r.None? <==> forall i | 0 <= i < |a| :: a[i].key != k
    ensures r.Some? ==> Entry(k, r.value) in a
  {
    if |a| == 0 then None
    else if a[0].key == k then Some(a[0].value)
    else
      var r := Lookup(a[1..], k);
      assert forall i | 1 <= i < |a| :: a[i] == a[1..][i - 1];
      r
  }

  /** array_shift($a) for its effect on $a: the first entry removed and the keys renumbered from 0. */
  function ArrayShift(a: PhpArray): (r: PhpArray)
    ensures IsList(r)
    ensures Values(r) == if |a| == 0 then [] else Values(a)[1..]
  {
    if |a| == 0 then [] else List(Values(a)[1..])
  }

  /** In a list the first value sits under key 0. */
  lemma LookupFirstOfList(a: PhpArray)
    requires IsList(a) && |a| > 0
    ensures Lookup(a, 0) == Some(Values(a)[0])
  {
  }

  /**
    After array_filter on an exploded list, key 0 is present exactly when the
    first piece was truthy, and then holds that piece: every later entry keeps
    a key of at least 1.
   */
  lemma FilteredListKeyZero(xs: seq<string>)
    requires |xs| >= 1
    ensures Lookup(ArrayFilter(List(xs)), 0) == if Truthy(xs[0]) then Some(xs[0]) else None
  {
    var a := List(xs);
    FilterTailKeys(xs);
    FilterHead(a);
    var tail := ArrayFilter(a[1..]);
    if Truthy(xs[0]) {
      assert ([a[0]] + tail)[0] == Entry(0, xs[0]);
    } else {
      assert ArrayFilter(a) == tail;
    }
  }

  /** The entries of an exploded list after the first keep keys of at least 1 through array_filter. */
  lemma FilterTailKeys(xs: seq<string>)
    requires |xs| >= 1
    ensures forall i | 0 <= i < |ArrayFilter(List(xs)[1..])| :: ArrayFilter(List(xs)[1..])[i].key >= 1
  {
    var a := List(xs);
    assert forall i | 0 <= i < |a[1..]| :: a[1..][i].key >= 1;
    FilterKeepsKeysFrom(a[1..], 1);
  }

  /** array_filter decides the first entry, then filters the rest. */
  lemma FilterHead(a: PhpArray)
    requires |a| > 0
    ensures ArrayFilter(a) == (if Truthy(a[0].value) then [a[0]] else []) + ArrayFilter(a[1..])
  {
  }

  /** array_filter keeps keys, so keys no smaller than m stay no smaller than m. */
  lemma FilterKeepsKeysFrom(a: PhpArray, m: nat)
    requires forall i | 0 <= i < |a| :: a[i].key >= m
    ensures forall i | 0 <= i < |ArrayFilter(a)| :: ArrayFilter(a)[i].key >= m
  {
  }
}
