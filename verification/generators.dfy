/** What the generators share: their options record, the random source that
    stands in for `rand::thread_rng`, and the two `Vec` removals the Prim
    loops use. */
module Generators {

  /** `GeneratorOptions`: the requested maze size, its two fields taken as
      naturals. Its `Default` is left out, so the generators that start from
      the defaults take the options as an argument. */
  datatype GeneratorOptions = GeneratorOptions(width: nat, height: nat)

  /** `gen_range(0..=n - 1)` drawn from an explicit list of choices: the
      choice at `cursor` reduced into range, or 0 once the list is used up. */
  function GenRange(rng: seq<nat>, cursor: nat, n: nat): (i: nat)
    requires n > 0
    ensures i < n
    ensures cursor < |rng| ==> i == rng[cursor] % n
  {
    (if cursor < |rng| then rng[cursor] else 0) % n
  }

  /** `r` is `s` with some elements left out and the others in their
      original order. */
  predicate Subsequence<T(==)>(r: seq<T>, s: seq<T>)
    decreases |s|
  {
    if |r| == 0 then true
    else if |s| == 0 then false
    else (r[0] == s[0] && Subsequence(r[1..], s[1..])) || Subsequence(r, s[1..])
  }

  /** `Vec::remove(i)`: the element at `i` goes, the rest keep their order. */
  function RemoveAt<T>(s: seq<T>, i: nat): (r: seq<T>)
    requires i < |s|
    ensures |r| == |s| - 1
    ensures forall k :: 0 <= k < i ==> r[k] == s[k]
    ensures forall k :: i <= k < |r| ==> r[k] == s[k + 1]
  {
    s[..i] + s[i + 1..]
  }

  /** `Vec::swap_remove(i)`: the last element takes the place of the one at
      `i`, and the vector loses one element. */
  function SwapRemove<T>(s: seq<T>, i: nat): (r: seq<T>)
    requires i < |s|
    ensures |r| == |s| - 1
    ensures forall k :: 0 <= k < |r| && k != i ==> r[k] == s[k]
    ensures i < |r| ==> r[i] == s[|s| - 1]
  {
    s[i := s[|s| - 1]][..|s| - 1]
  }

  /** `Vec::remove` keeps exactly the other elements: the result is the
      input with one copy of `s[i]` taken out. */
  lemma RemoveAtDropsOneCopy<T>(s: seq<T>, i: nat)
    requires i < |s|
    ensures multiset(RemoveAt(s, i)) == multiset(s) - multiset{s[i]}
  {
    assert s == s[..i] + [s[i]] + s[i + 1..];
  }

  /** So does `Vec::swap_remove`. */
  lemma SwapRemoveDropsOneCopy<T>(s: seq<T>, i: nat)
    requires i < |s|
    ensures multiset(SwapRemove(s, i)) == multiset(s) - multiset{s[i]}
  {
    var last := |s| - 1;
    var r := SwapRemove(s, i);
    if i < last {
      assert s == s[..i] + [s[i]] + s[i + 1..last] + [s[last]];
      assert r == s[..i] + [s[last]] + s[i + 1..last];
    } else {
      assert s == r + [s[last]];
    }
  }
}
