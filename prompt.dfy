/** The slice of the series that goes into the recommendation prompt. */
module Prompt {

  /** How many recent closes the prompt lists. */
  const RecentCount := 5

  /** `tail(5)` of the closes: the last min(5, n) of them, oldest first. */
  function RecentCloses(closes: seq<real>): (recent: seq<real>)
    ensures |recent| == if |closes| < RecentCount then |closes| else RecentCount
    ensures closes == closes[..|closes| - |recent|] + recent
  {
    if |closes| <= RecentCount then closes else closes[|closes| - RecentCount..]
  }
}
