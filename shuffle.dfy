/** `ListExtensions.Shuffle`: the in-place Fisher–Yates shuffle. The random
    generator is an oracle: `draws[j]` is what the `j`-th call of
    `random.Next(n + 1)` returns. */
module ListExtensions {

  /** What `Random.Next(n + 1)` promises for every call the loop makes: the
      `j`-th call is made with `n == len - 1 - j` and returns a value in
      `[0, n]`. */
  predicate ValidDraws(draws: seq<int>, len: nat) {
    && (len > 1 ==> |draws| >= len - 1)
    && forall j :: 0 <= j < |draws| && j < len - 1 ==> 0 <= draws[j] <= len - 1 - j
  }

  /** `s` with the elements at `k` and `n` exchanged. */
  function Swap<T>(s: seq<T>, k: nat, n: nat): (r: seq<T>)
    requires k < |s| && n < |s|
    ensures |r| == |s| && r[k] == s[n] && r[n] == s[k]
    ensures forall i :: 0 <= i < |s| && i != k && i != n ==> r[i] == s[i]
  {
    s[k := s[n]][n := s[k]]
  }

  /** What the rest of the loop makes of the list `s` when the counter is
      `n`: the calls made so far are `|s| - n`. */
  function Loop<T>(s: seq<T>, n: nat, draws: seq<int>): seq<T>
    requires n <= |s| && ValidDraws(draws, |s|)
    decreases n
  {
    if n <= 1 then s
    else Loop(Swap(s, draws[|s| - n], n - 1), n - 1, draws)
  }

  /** The list after `Shuffle`. */
  function Shuffled<T>(s: seq<T>, draws: seq<int>): seq<T>
    requires ValidDraws(draws, |s|)
  {
    Loop(s, |s|, draws)
  }

  /** `list.Shuffle(random)` on a list of `a.Length` elements. */
  method Shuffle<T>(a: array<T>, draws: seq<int>)
    requires ValidDraws(draws, a.Length)
    modifies a
    ensures a[..] == Shuffled(old(a[..]), draws)
  {
    var n := a.Length;
    while n > 1
      invariant 0 <= n <= a.Length
      invariant Loop(a[..], n, draws) == Shuffled(old(a[..]), draws)
    {
      ghost var before := a[..];
      n := n - 1;
      var k := draws[a.Length - 1 - n];
      var value := a[k];
      a[k] := a[n];
      a[n] := value;
      assert a[..] == Swap(before, k, n);
    }
  }

  lemma SwapPermutes<T>(s: seq<T>, k: nat, n: nat)
    requires k < |s| && n < |s|
    ensures multiset(Swap(s, k, n)) == multiset(s)
  {
    var t := s[k := s[n]];
    assert multiset(t) == multiset(s) - multiset{s[k]} + multiset{s[n]};
  }

  /** The loop only exchanges elements: the list keeps its length and its
      elements, each as often as before. */
  lemma {:induction false} LoopPermutes<T>(s: seq<T>, n: nat, draws: seq<int>)
    requires n <= |s| && ValidDraws(draws, |s|)
    ensures |Loop(s, n, draws)| == |s|
    ensures multiset(Loop(s, n, draws)) == multiset(s)
    decreases n
  {
    if n > 1 {
      var k := draws[|s| - n];
      SwapPermutes(s, k, n - 1);
      LoopPermutes(Swap(s, k, n - 1), n - 1, draws);
    }
  }

  /** The positions from `n` on are final: the loop never touches them
      again. */
  lemma {:induction false} LoopKeepsTail<T>(s: seq<T>, n: nat, draws: seq<int>)
    requires n <= |s| && ValidDraws(draws, |s|)
    ensures |Loop(s, n, draws)| == |s| && Loop(s, n, draws)[n..] == s[n..]
    decreases n
  {
    LoopPermutes(s, n, draws);
    if n > 1 {
      var k := draws[|s| - n];
      var t := Swap(s, k, n - 1);
      LoopKeepsTail(t, n - 1, draws);
      assert t[n..] == s[n..];
      assert Loop(t, n - 1, draws)[n..] == Loop(t, n - 1, draws)[n - 1..][1..];
      assert t[n - 1..][1..] == t[n..];
    }
  }

  /** Shuffling a list is a permutation of it. */
  lemma ShufflePermutes<T>(s: seq<T>, draws: seq<int>)
    requires ValidDraws(draws, |s|)
    ensures |Shuffled(s, draws)| == |s| && multiset(Shuffled(s, draws)) == multiset(s)
  {
    LoopPermutes(s, |s|, draws);
  }

  /** Lists of zero or one element are left as they are. */
  lemma ShortListUnchanged<T>(s: seq<T>, draws: seq<int>)
    requires |s| <= 1 && ValidDraws(draws, |s|)
    ensures Shuffled(s, draws) == s
  {
  }

  /** A two-element list is reversed exactly when the one draw,
      `Next(2)`, is 0. */
  lemma TwoElements<T>(x: T, y: T, draws: seq<int>)
    requires ValidDraws(draws, 2)
    ensures draws[0] == 0 ==> Shuffled([x, y], draws) == [y, x]
    ensures draws[0] == 1 ==> Shuffled([x, y], draws) == [x, y]
  {
  }
}
