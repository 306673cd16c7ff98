/** `FindAMiddleishId`: the id of the notification created closest to the
    middle of the time span a collection of notifications covers. */
module Selector {
  import opened Wrappers
  import opened Decimal
  import opened Entities

  /** The exceptions the selector can throw. */
  datatype SelectError =
    | EmptySequence            // InvalidOperationException from `Max` on an empty sequence
    | NotSingle                // InvalidOperationException from `Single`: not exactly one closest item
    | BadId(error: ParseError) // `long.Parse` rejected the chosen notification's id

  /** `notifications.Max(n => n.CreatedAt.Ticks)`. */
  function LatestTicks(ns: seq<Notification>): (m: Ticks)
    requires |ns| > 0
    ensures forall i :: 0 <= i < |ns| ==> ns[i].createdAt <= m
    ensures exists i :: 0 <= i < |ns| && ns[i].createdAt == m
  {
    if |ns| == 1 then ns[0].createdAt
    else
      var rest := LatestTicks(ns[1..]);
      assert forall i :: 1 <= i < |ns| ==> ns[i] == ns[1..][i - 1];
      if ns[0].createdAt < rest then rest else ns[0].createdAt
  }

  /** `notifications.Min(n => n.CreatedAt.Ticks)`. */
  function EarliestTicks(ns: seq<Notification>): (m: Ticks)
    requires |ns| > 0
    ensures forall i :: 0 <= i < |ns| ==> m <= ns[i].createdAt
    ensures exists i :: 0 <= i < |ns| && ns[i].createdAt == m
  {
    if |ns| == 1 then ns[0].createdAt
    else
      var rest := EarliestTicks(ns[1..]);
      assert forall i :: 1 <= i < |ns| ==> ns[i] == ns[1..][i - 1];
      if rest < ns[0].createdAt then rest else ns[0].createdAt
  }

  /** `avgTicks`: half the sum of the latest and the earliest creation
      time. Ticks are non-negative, so C#'s truncating `/` and Dafny's
      Euclidean `/` agree here; and the sum is at most twice
      `DateTime.MaxValue.Ticks`, so the unchecked `long` addition cannot
      wrap. */
  function Midpoint(ns: seq<Notification>): (avg: int)
    requires |ns| > 0
    ensures LatestTicks(ns) + EarliestTicks(ns) <= LongMax
    ensures EarliestTicks(ns) <= avg <= LatestTicks(ns)
    ensures 2 * avg <= LatestTicks(ns) + EarliestTicks(ns) <= 2 * avg + 1
  {
    (LatestTicks(ns) + EarliestTicks(ns)) / 2
  }

  /** `Math.Abs(n.CreatedAt.Ticks - avgTicks)`. */
  function Distance(n: Notification, avg: int): (d: nat)
    ensures d == n.createdAt - avg || d == avg - n.createdAt
    ensures d >= n.createdAt - avg && d >= avg - n.createdAt
  {
    if n.createdAt < avg then avg - n.createdAt else n.createdAt - avg
  }

  /** `closestDiff`: the least distance of a notification to `avg`. */
  function MinDistance(ns: seq<Notification>, avg: int): (d: nat)
    requires |ns| > 0
    ensures forall i :: 0 <= i < |ns| ==> d <= Distance(ns[i], avg)
    ensures exists i :: 0 <= i < |ns| && Distance(ns[i], avg) == d
  {
    if |ns| == 1 then Distance(ns[0], avg)
    else
      var rest := MinDistance(ns[1..], avg);
      assert forall i :: 1 <= i < |ns| ==> ns[i] == ns[1..][i - 1];
      if rest < Distance(ns[0], avg) then rest else Distance(ns[0], avg)
  }

  /** The notifications at distance `d` from `avg`, in order: the
      predicate `Single` filters on. */
  function Matches(ns: seq<Notification>, avg: int, d: nat): (r: seq<Notification>)
    ensures |r| <= |ns|
    ensures forall x :: x in r ==> x in ns && Distance(x, avg) == d
  {
    if |ns| == 0 then []
    else (if Distance(ns[0], avg) == d then [ns[0]] else []) + Matches(ns[1..], avg, d)
  }

  /** `FindAMiddleishId`: the id, read as a long, of the only notification
      closest to the midpoint, or the exception the selector throws. */
  function FindAMiddleishId(ns: seq<Notification>): (r: Result<Long, SelectError>)
    ensures r == Failure(EmptySequence) <==> |ns| == 0
  {
    if |ns| == 0 then Failure(EmptySequence)
    else
      var avg := Midpoint(ns);
      var matches := Matches(ns, avg, MinDistance(ns, avg));
      if |matches| != 1 then Failure(NotSingle)
      else
        match ParseLong(matches[0].id)
        case Success(v) => Success(v)
        case Failure(e) => Failure(BadId(e))
  }

  /** `ns[i]` is strictly closer to the midpoint than every other item. */
  ghost predicate IsUniqueClosest(ns: seq<Notification>, i: int)
    requires |ns| > 0
  {
    && 0 <= i < |ns|
    && forall j :: 0 <= j < |ns| && j != i ==> Distance(ns[i], Midpoint(ns)) < Distance(ns[j], Midpoint(ns))
  }

  lemma {:induction false} MatchesExactlyOne(ns: seq<Notification>, avg: int, d: nat, i: int)
    requires 0 <= i < |ns| && Distance(ns[i], avg) == d
    requires forall j :: 0 <= j < |ns| && j != i ==> Distance(ns[j], avg) != d
    ensures Matches(ns, avg, d) == [ns[i]]
    decreases |ns|
  {
    if i == 0 {
      MatchesNone(ns[1..], avg, d);
    } else {
      assert forall j :: 0 <= j < |ns[1..]| && j != i - 1 ==> ns[1..][j] == ns[j + 1];
      MatchesExactlyOne(ns[1..], avg, d, i - 1);
    }
  }

  lemma {:induction false} MatchesNone(ns: seq<Notification>, avg: int, d: nat)
    requires forall j :: 0 <= j < |ns| ==> Distance(ns[j], avg) != d
    ensures Matches(ns, avg, d) == []
    decreases |ns|
  {
    if |ns| > 0 {
      assert forall j :: 0 <= j < |ns[1..]| ==> ns[1..][j] == ns[j + 1];
      MatchesNone(ns[1..], avg, d);
    }
  }

  lemma {:induction false} MatchesAtLeastTwo(ns: seq<Notification>, avg: int, d: nat, i: int, j: int)
    requires 0 <= i < j < |ns| && Distance(ns[i], avg) == d && Distance(ns[j], avg) == d
    ensures |Matches(ns, avg, d)| >= 2
    decreases |ns|
  {
    if i == 0 {
      MatchesAtLeastOne(ns[1..], avg, d, j - 1);
    } else {
      MatchesAtLeastTwo(ns[1..], avg, d, i - 1, j - 1);
    }
  }

  lemma {:induction false} MatchesAtLeastOne(ns: seq<Notification>, avg: int, d: nat, i: int)
    requires 0 <= i < |ns| && Distance(ns[i], avg) == d
    ensures |Matches(ns, avg, d)| >= 1
    decreases |ns|
  {
    if i > 0 {
      MatchesAtLeastOne(ns[1..], avg, d, i - 1);
    }
  }

  /** When one notification is strictly closest to the midpoint, the
      selector answers its id read as a long, or the parse error. */
  lemma SelectsUniqueClosest(ns: seq<Notification>, i: int)
    requires |ns| > 0 && IsUniqueClosest(ns, i)
    ensures FindAMiddleishId(ns) == match ParseLong(ns[i].id)
                                    case Success(v) => Success(v)
                                    case Failure(e) => Failure(BadId(e))
  {
    var avg := Midpoint(ns);
    var d := MinDistance(ns, avg);
    assert Distance(ns[i], avg) == d;
    MatchesExactlyOne(ns, avg, d, i);
  }

  /** When two notifications tie for closest, `Single` throws. */
  lemma TieFails(ns: seq<Notification>, i: int, j: int)
    requires 0 <= i < |ns| && 0 <= j < |ns| && i != j
    requires Distance(ns[i], Midpoint(ns)) == Distance(ns[j], Midpoint(ns))
    requires forall k :: 0 <= k < |ns| ==> Distance(ns[i], Midpoint(ns)) <= Distance(ns[k], Midpoint(ns))
    ensures FindAMiddleishId(ns) == Failure(NotSingle)
  {
    var avg := Midpoint(ns);
    var d := MinDistance(ns, avg);
    if i < j {
      MatchesAtLeastTwo(ns, avg, d, i, j);
    } else {
      MatchesAtLeastTwo(ns, avg, d, j, i);
    }
  }

  /** An id the selector returns is that of the one notification strictly
      closest to the midpoint: no other is as close. */
  lemma SelectedIsUniqueClosest(ns: seq<Notification>)
    ensures FindAMiddleishId(ns).Success? ==>
              && |ns| > 0
              && exists i :: IsUniqueClosest(ns, i) && ParseLong(ns[i].id) == Success(FindAMiddleishId(ns).value)
  {
    if FindAMiddleishId(ns).Success? {
      var avg := Midpoint(ns);
      var d := MinDistance(ns, avg);
      var matches := Matches(ns, avg, d);
      assert matches[0] in matches;
      var i :| 0 <= i < |ns| && ns[i] == matches[0];
      forall j | 0 <= j < |ns| && j != i ensures Distance(ns[i], avg) < Distance(ns[j], avg) {
        if Distance(ns[j], avg) == d {
          if i < j {
            MatchesAtLeastTwo(ns, avg, d, i, j);
          } else {
            MatchesAtLeastTwo(ns, avg, d, j, i);
          }
        }
      }
      assert IsUniqueClosest(ns, i);
    }
  }

  /** Three notifications created at ticks 0, 10 and 20 with ids 1, 2
      and 3: the midpoint is 10, and the middle notification is the only
      one at distance 0. */
  lemma MiddleOfThree()
    ensures FindAMiddleishId([Notification(FormatLong(1), 0), Notification(FormatLong(2), 10),
                              Notification(FormatLong(3), 20)]) == Success(2)
  {
    var ns := [Notification(FormatLong(1), 0), Notification(FormatLong(2), 10), Notification(FormatLong(3), 20)];
    assert LatestTicks(ns) == 20 && EarliestTicks(ns) == 0;
    assert IsUniqueClosest(ns, 1);
    SelectsUniqueClosest(ns, 1);
    ParseFormatLong(2);
  }
}
