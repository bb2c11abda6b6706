/**
 * The paged listings that the downloader and the channel reader walk: the
 * server is represented by the pages it returns for successive requests,
 * and every request past the last page returns an empty page.
 */
module Paging {

  /** What the k-th request returns. */
  function PageAt<T>(pages: seq<seq<T>>, k: nat): seq<T> {
    if k < |pages| then pages[k] else []
  }

  /** The index of the first empty page: the walk stops there. */
  function FirstEmpty<T>(pages: seq<seq<T>>): (n: nat)
    ensures n <= |pages|
    ensures forall k :: 0 <= k < n ==> pages[k] != []
    ensures PageAt(pages, n) == []
  {
    if pages == [] then 0
    else if pages[0] == [] then 0
    else 1 + FirstEmpty(pages[1..])
  }

  /** The pages' items, in page order. */
  function Flatten<T>(pages: seq<seq<T>>): (items: seq<T>)
  {
    if pages == [] then [] else Flatten(pages[..|pages| - 1]) + pages[|pages| - 1]
  }

  /** One more page appends its items at the end. */
  lemma FlattenStep<T>(pages: seq<seq<T>>, k: nat)
    requires k < |pages|
    ensures Flatten(pages[..k + 1]) == Flatten(pages[..k]) + pages[k]
  {
    assert pages[..k + 1][..k] == pages[..k];
  }
}
