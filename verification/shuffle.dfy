/** ListExtension.Shuffle: Fisher–Yates from the back of the list, one draw per position. */
module Shuffling {
  import opened Random

  /** Exchange two positions of a list. */
  function Swap<T>(s: seq<T>, i: nat, j: nat): (r: seq<T>)
    requires i < |s| && j < |s|
    ensures |r| == |s| && r[i] == s[j] && r[j] == s[i]
    ensures forall k | 0 <= k < |s| && k != i && k != j :: r[k] == s[k]
    ensures multiset(r) == multiset(s)
  {
    s[i := s[j]][j := s[i]]
  }

  /** No element occurs twice. */
  predicate Distinct<T(==)>(s: seq<T>) {
    forall i, j | 0 <= i < j < |s| :: s[i] != s[j]
  }

  /** Swapping two positions neither creates nor removes a repeated element. */
  lemma SwapDistinct<T>(s: seq<T>, i: nat, j: nat)
    requires i < |s| && j < |s|
    ensures Distinct(Swap(s, i, j)) <==> Distinct(s)
  {
    var t := Swap(s, i, j);
    assert Swap(t, i, j) == s;
    if Distinct(s) {
      SwapKeepsDistinct(s, i, j);
    }
    if Distinct(t) {
      SwapKeepsDistinct(t, i, j);
    }
  }

  lemma SwapKeepsDistinct<T>(s: seq<T>, i: nat, j: nat)
    requires i < |s| && j < |s| && Distinct(s)
    ensures Distinct(Swap(s, i, j))
  {
    var t := Swap(s, i, j);
    forall a, b | 0 <= a < b < |t| ensures t[a] != t[b] {
      var a' := if a == i then j else if a == j then i else a;
      var b' := if b == i then j else if b == j then i else b;
      assert t[a] == s[a'] && t[b] == s[b'] && a' != b';
      if a' < b' {
        assert s[a'] != s[b'];
      } else {
        assert s[b'] != s[a'];
      }
    }
  }

  /** The bounds Shuffle requests for a list of `count` elements: count, count - 1, ..., 2. */
  function Countdown(count: nat): (r: seq<nat>)
    ensures |r| == if count <= 1 then 0 else count - 1
    ensures forall i | 0 <= i < |r| :: r[i] == count - i && r[i] >= 2
  {
    if count <= 1 then [] else [count] + Countdown(count - 1)
  }

  /** The loop from the point where the first `n` positions are still to be shuffled: while
      n > 1, decrement n, draw k in [0, n] and swap positions k and n. */
  function ShuffleFrom<T>(s: seq<T>, n: nat, g: Rng): (r: (seq<T>, Rng))
    requires n <= |s|
    ensures |r.0| == |s| && multiset(r.0) == multiset(s)
    ensures r.0[n..] == s[n..]
    ensures r.1.draws == g.draws && r.1.requested == g.requested + Countdown(n)
    decreases n
  {
    if n <= 1 then (s, g)
    else
      var (k, g') := Next(g, n);
      var s' := Swap(s, k, n - 1);
      assert s'[n..] == s[n..];
      var r := ShuffleFrom(s', n - 1, g');
      assert r.0[n..] == r.0[n - 1..][1..];
      assert g.requested + Countdown(n) == g'.requested + Countdown(n - 1);
      r
  }

  /** `list.Shuffle(rng)`: a permutation of the list, and one request per position after the
      first, with bounds from Count down to 2. Lists of at most one element are left alone
      and cost no draw. */
  function Shuffle<T>(s: seq<T>, g: Rng): (r: (seq<T>, Rng))
    ensures |r.0| == |s| && multiset(r.0) == multiset(s)
    ensures r.1.draws == g.draws && r.1.requested == g.requested + Countdown(|s|)
    ensures |s| <= 1 ==> r == (s, g)
  {
    ShuffleFrom(s, |s|, g)
  }

  /** The shuffled list holds the same elements, and repeats one exactly when the input does. */
  lemma {:induction false} ShuffleFromDistinct<T>(s: seq<T>, n: nat, g: Rng)
    requires n <= |s|
    ensures Distinct(ShuffleFrom(s, n, g).0) <==> Distinct(s)
    decreases n
  {
    if n > 1 {
      var (k, g') := Next(g, n);
      SwapDistinct(s, k, n - 1);
      ShuffleFromDistinct(Swap(s, k, n - 1), n - 1, g');
    }
  }

  lemma ShuffleSameElements<T>(s: seq<T>, g: Rng)
    ensures forall i | 0 <= i < |s| :: s[i] in Shuffle(s, g).0
    ensures forall i | 0 <= i < |s| :: Shuffle(s, g).0[i] in s
  {
    var r := Shuffle(s, g).0;
    forall i | 0 <= i < |s| ensures s[i] in r && r[i] in s {
      assert s[i] in multiset(s);
      assert r[i] in multiset(r);
    }
  }

  /** The in-place loop of the C# method, on an array, with the same draws. */
  method ShuffleInPlace<T>(list: seq<T>, g: Rng) returns (r: seq<T>, g': Rng)
    ensures (r, g') == Shuffle(list, g)
    ensures multiset(r) == multiset(list)
  {
    var a := new T[|list|](i requires 0 <= i < |list| => list[i]);
    assert a[..] == list;
    var n := a.Length;
    g' := g;
    while n > 1
      invariant 0 <= n <= a.Length
      invariant ShuffleFrom(a[..], n, g') == Shuffle(list, g)
      decreases n
    {
      var before := a[..];
      n := n - 1;
      var k;
      k, g' := Next(g', n + 1).0, Next(g', n + 1).1;
      var v := a[k];
      a[k] := a[n];
      a[n] := v;
      assert a[..] == Swap(before, k, n);
    }
    r := a[..];
  }
}
