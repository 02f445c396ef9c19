/**
  The const members GetMinBound, GetMaxBound and ToLegacyRGBDImage as calls
  on a state: each returns the state it was given together with its answer,
  so any sequence of such calls leaves `color_` and `depth_` as they were.
 */
module Queries {

  import opened Images
  import opened Results
  import opened RGBD

  datatype Query = MinBoundQuery | MaxBoundQuery | LegacyQuery

  datatype Answer<L, E> =
    | BoundAnswer(bound: Bound2)
    | LegacyAnswer(legacy: Result<LegacyRGBDImage<L>, E>)

  /** One const call: the state afterwards and the value returned. */
  function Call<P, L, E>(s: RGBDImage<P>, q: Query, convert: Image<P> -> Result<L, E>)
    : (r: (RGBDImage<P>, Answer<L, E>))
    ensures r.0 == s
    ensures r.1.LegacyAnswer? <==> q == LegacyQuery
  {
    match q
    case MinBoundQuery => (s, BoundAnswer(GetMinBound(s)))
    case MaxBoundQuery => (s, BoundAnswer(GetMaxBound(s)))
    case LegacyQuery => (s, LegacyAnswer(ToLegacyRGBDImage(s, convert)))
  }

  /** A sequence of const calls, each on the state the previous one left:
      the final state is the initial one and there is one answer per call. */
  function Run<P, L, E>(s: RGBDImage<P>, qs: seq<Query>, convert: Image<P> -> Result<L, E>)
    : (r: (RGBDImage<P>, seq<Answer<L, E>>))
    ensures r.0 == s
    ensures |r.1| == |qs|
    decreases |qs|
  {
    if qs == [] then (s, [])
    else
      var (s1, a) := Call(s, qs[0], convert);
      var (s2, rest) := Run(s1, qs[1..], convert);
      (s2, [a] + rest)
  }

  /** Every answer in a run is what the same call gives on the initial state. */
  lemma {:induction false} RunAnswersFromInitialState<P, L, E>(
    s: RGBDImage<P>, qs: seq<Query>, convert: Image<P> -> Result<L, E>)
    ensures forall i :: 0 <= i < |qs| ==> Run(s, qs, convert).1[i] == Call(s, qs[i], convert).1
    decreases |qs|
  {
    if qs != [] {
      RunAnswersFromInitialState(s, qs[1..], convert);
      forall i | 0 <= i < |qs|
        ensures Run(s, qs, convert).1[i] == Call(s, qs[i], convert).1
      {
        if i > 0 {
          assert qs[1..][i - 1] == qs[i];
        }
      }
    }
  }

  /** Repeated GetMaxBound calls all return the same value, whatever else is
      asked in between. */
  lemma MaxBoundStableAcrossRun<P, L, E>(
    s: RGBDImage<P>, qs: seq<Query>, convert: Image<P> -> Result<L, E>, i: nat, j: nat)
    requires i < |qs| && j < |qs|
    requires qs[i] == MaxBoundQuery && qs[j] == MaxBoundQuery
    ensures Run(s, qs, convert).1[i] == Run(s, qs, convert).1[j] == BoundAnswer(GetMaxBound(s))
  {
    RunAnswersFromInitialState(s, qs, convert);
  }
}
