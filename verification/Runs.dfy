/** What is shared by statements about whole runs. */
module Runs {

  /** A property that holds at the start of a run holds throughout exactly when no step breaks it. */
  lemma {:induction false} HoldsUntilBroken(holds: seq<bool>, breaks: seq<bool>)
    requires |holds| == |breaks| + 1 && holds[0]
    requires forall i :: 0 <= i < |breaks| && holds[i] ==> (holds[i + 1] <==> !breaks[i])
    ensures (forall i :: 0 <= i < |holds| ==> holds[i]) <==> (forall i :: 0 <= i < |breaks| ==> !breaks[i])
  {
    var n := |breaks|;
    if n > 0 {
      var h, b := holds[..n], breaks[..n - 1];
      HoldsUntilBroken(h, b);
      assert forall i :: 0 <= i < n ==> h[i] == holds[i];
      assert forall i :: 0 <= i < n - 1 ==> b[i] == breaks[i];
      assert holds[n - 1] && holds[n] ==> !breaks[n - 1];
    }
  }
}
