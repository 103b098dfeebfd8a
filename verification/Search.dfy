/** Binary search of a slice, with the contract of Rust's `binary_search_by`. */
module Search {

  datatype SearchResult = Ok(index: nat) | Err(index: nat)

  /** The elements below, at and above the target come in that order. */
  ghost predicate Ordered<T>(s: seq<T>, cmp: T -> int) {
    forall i, j :: 0 <= i < j < |s| ==> cmp(s[i]) <= cmp(s[j])
  }

  /** `cmp` compares an element with the target. `Err` gives the place to insert the target. */
  function BinarySearchBy<T>(s: seq<T>, cmp: T -> int): (r: SearchResult)
    requires Ordered(s, cmp)
    ensures r.Ok? ==> r.index < |s| && cmp(s[r.index]) == 0
    ensures r.Err? ==> r.index <= |s|
    ensures r.Err? ==> forall i :: 0 <= i < r.index ==> cmp(s[i]) < 0
    ensures r.Err? ==> forall i :: r.index <= i < |s| ==> cmp(s[i]) > 0
  {
    SearchBetween(s, cmp, 0, |s|)
  }

  function SearchBetween<T>(s: seq<T>, cmp: T -> int, left: nat, right: nat): (r: SearchResult)
    requires Ordered(s, cmp)
    requires left <= right <= |s|
    requires forall i :: 0 <= i < left ==> cmp(s[i]) < 0
    requires forall i :: right <= i < |s| ==> cmp(s[i]) > 0
    ensures r.Ok? ==> r.index < |s| && cmp(s[r.index]) == 0
    ensures r.Err? ==> r.index <= |s|
    ensures r.Err? ==> forall i :: 0 <= i < r.index ==> cmp(s[i]) < 0
    ensures r.Err? ==> forall i :: r.index <= i < |s| ==> cmp(s[i]) > 0
    decreases right - left
  {
    if left >= right then Err(left)
    else
      var mid := left + (right - left) / 2;
      var c := cmp(s[mid]);
      if c < 0 then SearchBetween(s, cmp, mid + 1, right)
      else if c > 0 then SearchBetween(s, cmp, left, mid)
      else Ok(mid)
  }
}
