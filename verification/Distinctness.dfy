/** Lists of numbers (pages, frames, blocks, process ids) in which none occurs twice. */
module Distinctness {

  ghost predicate Distinct(s: seq<int>) {
    forall j, k :: 0 <= j < k < |s| ==> s[j] != s[k]
  }
}
