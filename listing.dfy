/** The display cap both report builders apply: the first `limit` items are
    listed and the rest are only counted. */
module Listing {
  import opened Wrappers

  /** The listed items, and how many were left out when any were. */
  datatype Listed<T> = Listed(shown: seq<T>, more: Option<nat>)

  function Cap<T>(items: seq<T>, limit: nat): (l: Listed<T>)
    ensures |l.shown| <= limit && l.shown <= items
    ensures l.more.Some? <==> |items| > limit
    ensures l.more.Some? ==> l.more.value > 0 && |l.shown| == limit
    ensures |l.shown| + (if l.more.Some? then l.more.value else 0) == |items|
  {
    if |items| > limit then Listed(items[..limit], Some(|items| - limit))
    else Listed(items, None)
  }
}
