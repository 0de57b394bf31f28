/** The in-place shuffle the role list goes through (bot.py:223). Python's
    `random.shuffle` walks i from the last index down to 1 and swaps item i with
    item `randbelow(i + 1)`. The random source is a parameter: `draws(t)` is the
    number behind the t-th swap, reduced modulo i + 1, so every swap target in
    [0, i] is a possible outcome and every property proved holds for all of them. */
module Shuffling {

  /** The list after one swap of positions i and j, as Python's
      `x[i], x[j] = x[j], x[i]` performs it. */
  function Swap<T>(s: seq<T>, i: nat, j: nat): (r: seq<T>)
    requires i < |s| && j < |s|
    ensures |r| == |s|
    ensures r[i] == s[j] && r[j] == s[i]
    ensures forall k :: 0 <= k < |s| && k != i && k != j ==> r[k] == s[k]
    ensures multiset(r) == multiset(s)
  {
    s[i := s[j]][j := s[i]]
  }

  /** The shuffled list. The swap at the last index happens first; after it that
      position is never touched again, so the rest of the walk is the shuffle of
      the prefix with the remaining draws. */
  function Shuffle<T>(s: seq<T>, draws: nat -> nat): (r: seq<T>)
    ensures |r| == |s|
    ensures multiset(r) == multiset(s)
    decreases |s|
  {
    if |s| <= 1 then s
    else
      var i := |s| - 1;
      var swapped := Swap(s, i, draws(0) % (i + 1));
      assert swapped == swapped[..i] + [swapped[i]];
      Shuffle(swapped[..i], t => draws(t + 1)) + [swapped[i]]
  }
}
