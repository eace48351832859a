/** Optional values, standing in for the nullable references the detector's
    getters return, and the last-element view of a list they are built on. */
module Options {

  /** `None` plays the part of a Java `null` result. */
  datatype Option<+T> = None | Some(value: T)

  /** The last element of a list, or `None` when the list is empty. */
  function Last<T>(xs: seq<T>): (r: Option<T>)
    ensures r.None? <==> |xs| == 0
    ensures r.Some? ==> r.value == xs[|xs| - 1]
  {
    if |xs| == 0 then None else Some(xs[|xs| - 1])
  }

  /** Removes the last element of a list; an empty list is left alone, as
      removing a `null` from an empty Java list changes nothing. */
  function DropLast<T>(xs: seq<T>): (r: seq<T>)
    ensures |xs| > 0 ==> |r| == |xs| - 1 && xs == r + [xs[|xs| - 1]]
    ensures |xs| == 0 ==> r == []
    ensures forall j :: 0 <= j < |r| ==> r[j] == xs[j]
  {
    if |xs| == 0 then xs else xs[..|xs| - 1]
  }
}
