/** The per-second search of one local day for the instant at which the Sun and
    the Moon are closest together in the sky. */
module TimeSearch {
  import opened Outcomes

  /** The cursor starts at local 00:00:00 ... */
  const FirstSecond: int := 0
  /** ... and the loop stops as soon as it reaches local 23:59:59, so this
      second itself is never queried. */
  const LastSecond: int := 23 * 3600 + 59 * 60 + 59
  /** The initial best separation, larger than any angle. */
  const Sentinel: real := 1000000000000000000.0

  function Abs(x: int): nat { if x < 0 then -x else x }

  /** The UTC instant queried for a local instant: the magnitude of the offset,
      in hours, is subtracted for a non-negative offset and added for a negative
      one. Both branches amount to subtracting the signed offset. */
  function ToUtc(local: int, utcOffset: int): (utc: int)
    ensures utc == local - utcOffset * 3600
    ensures utcOffset == 0 ==> utc == local
    ensures 0 < utcOffset ==> utc < local
    ensures utcOffset < 0 ==> local < utc
  {
    if utcOffset >= 0 then local - Abs(utcOffset) * 3600 else local + Abs(utcOffset) * 3600
  }

  /** The Sun-Moon separation the oracle reports for a local instant. */
  function SeparationAt(sep: int -> real, utcOffset: int, local: int): real {
    sep(ToUtc(local, utcOffset))
  }

  /** The scan: query every second from the cursor's start until it reaches
      LastSecond, keeping the first instant whose separation is strictly below
      the best seen so far. `examined` lists the queried seconds in order. */
  method FindBestTime(sep: int -> real, utcOffset: int)
    returns (bestDist: real, bestTime: Option<int>, examined: seq<int>)
    ensures |examined| == LastSecond - FirstSecond
    ensures forall i :: 0 <= i < |examined| ==> examined[i] == FirstSecond + i
    ensures bestDist <= Sentinel
    ensures forall t :: FirstSecond <= t < LastSecond ==> bestDist <= SeparationAt(sep, utcOffset, t)
    ensures bestTime.None? <==>
              forall t :: FirstSecond <= t < LastSecond ==> Sentinel <= SeparationAt(sep, utcOffset, t)
    ensures bestTime.None? ==> bestDist == Sentinel
    ensures bestTime.Some? ==>
              FirstSecond <= bestTime.value < LastSecond &&
              SeparationAt(sep, utcOffset, bestTime.value) == bestDist
    ensures bestTime.Some? ==>
              forall t :: FirstSecond <= t < bestTime.value ==> bestDist < SeparationAt(sep, utcOffset, t)
  {
    bestDist := Sentinel;
    bestTime := None;
    examined := [];
    var cursor := FirstSecond;
    while cursor != LastSecond
      invariant FirstSecond <= cursor <= LastSecond
      invariant |examined| == cursor - FirstSecond
      invariant forall i :: 0 <= i < |examined| ==> examined[i] == FirstSecond + i
      invariant bestDist <= Sentinel
      invariant forall t :: FirstSecond <= t < cursor ==> bestDist <= SeparationAt(sep, utcOffset, t)
      invariant bestTime.None? <==>
                  forall t :: FirstSecond <= t < cursor ==> Sentinel <= SeparationAt(sep, utcOffset, t)
      invariant bestTime.None? ==> bestDist == Sentinel
      invariant bestTime.Some? ==>
                  FirstSecond <= bestTime.value < cursor &&
                  SeparationAt(sep, utcOffset, bestTime.value) == bestDist
      invariant bestTime.Some? ==>
                  forall t :: FirstSecond <= t < bestTime.value ==> bestDist < SeparationAt(sep, utcOffset, t)
      decreases LastSecond - cursor
    {
      var curDist := SeparationAt(sep, utcOffset, cursor);
      examined := examined + [cursor];
      if curDist < bestDist {
        bestDist := curDist;
        bestTime := Some(cursor);
      }
      cursor := cursor + 1;
    }
  }

  /** A separation that falls linearly to zero at UTC noon and rises after it. */
  function DistanceFromNoon(utc: int): real {
    if utc < 43200 then (43200 - utc) as real else (utc - 43200) as real
  }

  /** With the local clock two hours ahead of UTC, the closest approach at
      UTC noon is reported at local 14:00:00 with separation zero. */
  method ShiftedNoonScenario() returns (bestDist: real, bestTime: Option<int>)
    ensures bestTime == Some(14 * 3600) && bestDist == 0.0
  {
    var examined;
    bestDist, bestTime, examined := FindBestTime(DistanceFromNoon, 2);
    assert SeparationAt(DistanceFromNoon, 2, 14 * 3600) == 0.0;
    assert bestTime.Some?;
    assert SeparationAt(DistanceFromNoon, 2, bestTime.value) == 0.0;
  }

  /** A separation that is smallest only at local 23:59:59 and constant elsewhere. */
  function SmallestAtLastSecond(utc: int): real {
    if utc == LastSecond then 0.0 else 1.0
  }

  /** The final second is never queried: a day whose minimum falls on
      23:59:59 reports 00:00:00, the earliest of the tied other seconds. */
  method LastSecondScenario() returns (bestDist: real, bestTime: Option<int>)
    ensures bestTime == Some(FirstSecond) && bestDist == 1.0
  {
    var examined;
    bestDist, bestTime, examined := FindBestTime(SmallestAtLastSecond, 0);
    assert SeparationAt(SmallestAtLastSecond, 0, FirstSecond) == 1.0;
    assert bestTime.Some?;
  }
}
