/** Boolean flags kept one per element of a fixed node list (the `active`
    class on the navigation links or on the filter buttons). */
module Flags {

  import opened Wrappers

  /** At most one element of the list carries the flag. */
  predicate AtMostOne(flags: seq<bool>)
  {
    forall i, j :: 0 <= i < |flags| && 0 <= j < |flags| && flags[i] && flags[j] ==> i == j
  }

  /** The list of `n` flags in which exactly element `k` is set. */
  function Only(n: nat, k: nat): (flags: seq<bool>)
    requires k < n
    ensures |flags| == n && flags[k]
    ensures forall j :: 0 <= j < n && j != k ==> !flags[j]
    ensures AtMostOne(flags)
  {
    seq(n, j => j == k)
  }

  /** The index of the first set flag, as `querySelector` on the class returns
      the first matching element in document order. */
  function FirstSet(flags: seq<bool>): (r: Option<nat>)
    ensures r.None? <==> forall j :: 0 <= j < |flags| ==> !flags[j]
    ensures r.Some? ==> r.value < |flags| && flags[r.value]
                        && forall j :: 0 <= j < r.value ==> !flags[j]
  {
    if |flags| == 0 then None
    else if flags[0] then Some(0)
    else match FirstSet(flags[1..])
      case None => None
      case Some(k) => Some(k + 1)
  }

  /** With at most one flag set, the first set flag is the only one. */
  lemma FirstSetIsOnly(flags: seq<bool>, k: nat)
    requires AtMostOne(flags)
    requires FirstSet(flags) == Some(k)
    ensures flags == Only(|flags|, k)
  {
    assert forall j :: 0 <= j < |flags| ==> flags[j] == Only(|flags|, k)[j];
  }
}
