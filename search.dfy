/** The first-match search behind every `findOne` of the model. */
module Search {

  /**
   * Where a `findOne` over `s` in natural order stops: the index of the first
   * element satisfying `p`, or `|s|` when none does.
   */
  function FirstIndex<T>(s: seq<T>, p: T -> bool): (k: nat)
    ensures k <= |s|
    ensures forall j :: 0 <= j < k ==> !p(s[j])
    ensures k < |s| ==> p(s[k])
    ensures k == |s| <==> forall x :: x in s ==> !p(x)
  {
    if s == [] then 0
    else if p(s[0]) then 0
    else 1 + FirstIndex(s[1..], p)
  }
}
