/** The winner reduction of `endGame`: `players.reduce((prev, current) =>
    prev.survivalTime > current.survivalTime ? prev : current)`, over the
    players' frozen survival times, and the announcement built from it. */
module Scoring {

  /** What the end-of-game message reports: the winner's 1-based ordinal and
      frozen survival time in seconds. */
  datatype Announcement = Announcement(ordinal: nat, seconds: int)

  /** The index the left-to-right reduction settles on. The earlier candidate
      survives only when its time is strictly greater, so among equal times the
      later player is kept. */
  function WinnerIndex(times: seq<int>): (w: nat)
    requires |times| > 0
    ensures w < |times|
    ensures forall j :: 0 <= j < |times| ==> times[j] <= times[w]
    ensures forall j :: w < j < |times| ==> times[j] < times[w]
  {
    if |times| == 1 then 0
    else
      var prev := WinnerIndex(times[..|times| - 1]);
      if times[prev] > times[|times| - 1] then prev else |times| - 1
  }

  /** The winner is the last index holding the maximum time: any index with that
      property is the one the reduction returns. */
  lemma WinnerIsLastMaximum(times: seq<int>, k: nat)
    requires k < |times|
    requires forall j :: 0 <= j < |times| ==> times[j] <= times[k]
    requires forall j :: k < j < |times| ==> times[j] < times[k]
    ensures WinnerIndex(times) == k
  {
  }

  /** The message of `endGame`: ordinal is the winner's index plus one. */
  function Announce(times: seq<int>): (a: Announcement)
    requires |times| > 0
    ensures 1 <= a.ordinal <= |times| && a.seconds == times[a.ordinal - 1]
    ensures forall j :: 0 <= j < |times| ==> times[j] <= a.seconds
    ensures forall j :: a.ordinal <= j < |times| ==> times[j] < a.seconds
  {
    var w := WinnerIndex(times);
    Announcement(w + 1, times[w])
  }

  /** Times 7, 12, 9: Player 2 wins with 12 seconds. */
  lemma AnnounceDistinctTimes()
    ensures Announce([7, 12, 9]) == Announcement(2, 12)
  {
  }

  /** Times 10, 10: the strict comparison keeps the later record, so Player 2 wins. */
  lemma AnnounceTieGoesToLater()
    ensures Announce([10, 10]) == Announcement(2, 10)
  {
  }
}
