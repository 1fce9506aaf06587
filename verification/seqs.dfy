/** Searches over sequences shared by the guide index and the climate chips. */
module Seqs {

  /** The position of the last element satisfying `p`, or -1 when there is
      none: what a scan that overwrites on every match leaves behind. */
  function LastIndex<T>(s: seq<T>, p: T -> bool): (i: int)
    ensures -1 <= i < |s|
    ensures i >= 0 ==> p(s[i]) && forall j :: i < j < |s| ==> !p(s[j])
    ensures i < 0 ==> forall j :: 0 <= j < |s| ==> !p(s[j])
  {
    if |s| == 0 then -1
    else if p(s[|s| - 1]) then |s| - 1
    else
      var init := s[..|s| - 1];
      assert forall j :: 0 <= j < |init| ==> init[j] == s[j];
      LastIndex(init, p)
  }
}
