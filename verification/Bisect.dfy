/** Python's bisect on sorted lists of numbers. */
module Bisect {

  predicate Sorted(s: seq<nat>)
  {
    forall i, j :: 0 <= i < j < |s| ==> s[i] <= s[j]
  }

  /** bisect_left: the number of elements below x. */
  function BisectLeft(s: seq<nat>, x: nat): (i: nat)
    requires Sorted(s)
    ensures i <= |s|
    ensures forall j :: 0 <= j < i ==> s[j] < x
    ensures forall j :: i <= j < |s| ==> x <= s[j]
  {
    if s == [] || s[|s| - 1] < x then |s| else BisectLeft(s[..|s| - 1], x)
  }

  /** bisect_right: the number of elements not above x. */
  function BisectRight(s: seq<nat>, x: nat): (i: nat)
    requires Sorted(s)
    ensures i <= |s|
    ensures forall j :: 0 <= j < i ==> s[j] <= x
    ensures forall j :: i <= j < |s| ==> x < s[j]
  {
    if s == [] || s[|s| - 1] <= x then |s| else BisectRight(s[..|s| - 1], x)
  }
}
