/** Position-based list editing shared by the favorites and the custom list. */
module Lists {

  /** `xs.filter((_, j) => j !== i)`: every element except the one at
      position `i`, walked element by element as the filter does. */
  function RemoveAt<T>(xs: seq<T>, i: int): (r: seq<T>)
    ensures 0 <= i < |xs| ==> |r| == |xs| - 1 && r == xs[..i] + xs[i + 1..]
    ensures !(0 <= i < |xs|) ==> r == xs
    decreases |xs|
  {
    if |xs| == 0 then []
    else (if i == 0 then [] else [xs[0]]) + RemoveAt(xs[1..], i - 1)
  }

  /** No element occurs twice in `xs`. */
  predicate NoDuplicates<T(==)>(xs: seq<T>) {
    forall i, j :: 0 <= i < j < |xs| ==> xs[i] != xs[j]
  }
}
