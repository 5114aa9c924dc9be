/** The random-removal shuffle used to order a cell's neighbours. */
module Shuffle {

  /** A value returned by `Math.random()`: a real number in [0, 1). */
  type UnitReal = r: real | 0.0 <= r < 1.0

  /** `Math.floor(Math.random() * n)`: the index drawn from a list of length n. */
  function Pick(r: UnitReal, n: nat): (i: nat)
    requires n > 0
    ensures i < n
  {
    var x := r * n as real;
    assert 0.0 <= x < n as real by {
      assert r * n as real < 1.0 * n as real;
    }
    x.Floor
  }

  /**
   * The order in which the shuffle emits the elements of `arr`, when the
   * k-th call to `Math.random()` returns `draws[k]`: each step removes the
   * element at the picked index and appends it to the output.
   */
  function Shuffled<T>(arr: seq<T>, draws: seq<UnitReal>): (r: seq<T>)
    requires |draws| == |arr|
    ensures |r| == |arr|
    ensures multiset(r) == multiset(arr)
    decreases |arr|
  {
    if |arr| == 0 then []
    else
      var i := Pick(draws[0], |arr|);
      assert arr == arr[..i] + [arr[i]] + arr[i + 1..];
      [arr[i]] + Shuffled(arr[..i] + arr[i + 1..], draws[1..])
  }

  lemma AppendAssociative<T>(a: seq<T>, b: seq<T>, c: seq<T>)
    ensures a + b + c == a + (b + c)
  {
  }

  /**
   * The shuffle loop: while elements remain, splice one out at a random
   * index and push it onto the result. `rest` is the input array being
   * spliced, returned in the state the loop leaves it; `draws` are the
   * values `Math.random()` returns, one per step.
   */
  method Shuffle<T>(arr: seq<T>, draws: seq<UnitReal>) returns (shuffledArr: seq<T>, rest: seq<T>)
    requires |draws| == |arr|
    ensures shuffledArr == Shuffled(arr, draws)
    ensures multiset(shuffledArr) == multiset(arr)
    ensures rest == []
  {
    shuffledArr := [];
    rest := arr;
    var k := 0;
    while |rest| > 0
      invariant k + |rest| == |arr|
      invariant shuffledArr + Shuffled(rest, draws[k..]) == Shuffled(arr, draws)
    {
      var index := Pick(draws[k], |rest|);
      var remaining := rest[..index] + rest[index + 1..];
      assert draws[k..][1..] == draws[k + 1..];
      ghost var tail := Shuffled(remaining, draws[k + 1..]);
      assert Shuffled(rest, draws[k..]) == [rest[index]] + tail;
      AppendAssociative(shuffledArr, [rest[index]], tail);
      shuffledArr := shuffledArr + [rest[index]];
      rest := remaining;
      k := k + 1;
    }
  }
}
