/** The sensors page: every poll splits the batch into the three location
    partitions, sorts each by time, appends it to that location's table,
    shows each location's latest reading, and shows the mean of the three
    latest humidities once all three locations have one. */
module Sensors {
  import opened Readings

  /** The mean of the three latest humidities when all three locations have
      a reading; otherwise the previous mean is kept. */
  function ThreeWayAverage(center: Option<Reading>, goalRight: Option<Reading>,
                           goalLeft: Option<Reading>, previous: Option<real>): (avg: Option<real>)
    ensures center.Some? && goalRight.Some? && goalLeft.Some? ==>
      avg == Some((center.value.humidity + goalRight.value.humidity + goalLeft.value.humidity) / 3.0)
    ensures center.None? || goalRight.None? || goalLeft.None? ==> avg == previous
    ensures center.Some? && goalRight.Some? && goalLeft.Some? ==>
      var c, r, l := center.value.humidity, goalRight.value.humidity, goalLeft.value.humidity;
      (c <= avg.value || r <= avg.value || l <= avg.value) &&
      (c >= avg.value || r >= avg.value || l >= avg.value) &&
      (c == r == l ==> avg.value == c)
  {
    if center.Some? && goalRight.Some? && goalLeft.Some? then
      Some((center.value.humidity + goalRight.value.humidity + goalLeft.value.humidity) / 3.0)
    else previous
  }

  /** After a poll the mean shown is that of a newest reading of each of the
      three tags when the batch has all three, and the previous mean when
      any tag is missing from the batch. */
  lemma AverageOfNewest(data: seq<Reading>, previous: Option<real>)
    ensures var avg := ThreeWayAverage(Latest(data, Centro), Latest(data, GoalRight), Latest(data, GoalLeft), previous);
      ((forall x :: x in data ==> x.location != Centro) ||
       (forall x :: x in data ==> x.location != GoalRight) ||
       (forall x :: x in data ==> x.location != GoalLeft)) ==> avg == previous
    ensures var avg := ThreeWayAverage(Latest(data, Centro), Latest(data, GoalRight), Latest(data, GoalLeft), previous);
      ((exists x :: x in data && x.location == Centro) &&
       (exists x :: x in data && x.location == GoalRight) &&
       (exists x :: x in data && x.location == GoalLeft)) ==>
      exists c, r, l :: Newest(data, Centro, c) && Newest(data, GoalRight, r) && Newest(data, GoalLeft, l) &&
        avg == Some((c.humidity + r.humidity + l.humidity) / 3.0)
  {
    LatestIsNewest(data, Centro);
    LatestIsNewest(data, GoalRight);
    LatestIsNewest(data, GoalLeft);
    var c, r, l := Latest(data, Centro), Latest(data, GoalRight), Latest(data, GoalLeft);
    if c.Some? && r.Some? && l.Some? {
      assert Newest(data, Centro, c.value) && Newest(data, GoalRight, r.value) && Newest(data, GoalLeft, l.value);
    }
  }

  /** A reading reaches a partition exactly when it carries that tag, so a
      reading with any other tag is in none of the three. */
  lemma PartitionsByTag(data: seq<Reading>)
    ensures forall x :: x in Partition(data, Centro) <==> x in data && x.location == Centro
    ensures forall x :: x in Partition(data, GoalRight) <==> x in data && x.location == GoalRight
    ensures forall x :: x in Partition(data, GoalLeft) <==> x in data && x.location == GoalLeft
    ensures forall x: Reading :: x.location != Centro && x.location != GoalRight && x.location != GoalLeft ==>
      x !in Partition(data, Centro) && x !in Partition(data, GoalRight) && x !in Partition(data, GoalLeft)
  {
    PartitionExact(data, Centro);
    PartitionExact(data, GoalRight);
    PartitionExact(data, GoalLeft);
  }

  /** Readings of another location inserted anywhere in the batch, between
      `before` and `after`, change neither a location's partition nor its
      latest reading. */
  lemma OtherLocationsLeavePartition(before: seq<Reading>, extra: seq<Reading>, after: seq<Reading>, loc: string)
    requires forall x :: x in extra ==> x.location != loc
    ensures Partition(before + extra + after, loc) == Partition(before + after, loc)
    ensures Latest(before + extra + after, loc) == Latest(before + after, loc)
  {
    FilterAppend(before + extra, after, loc);
    FilterAppend(before, extra, loc);
    FilterAppend(before, after, loc);
    FilterNone(extra, loc);
    assert Filter(before, loc) + Filter(extra, loc) == Filter(before, loc);
  }

  class SensorsPage {
    var centerHistory: seq<Reading>
    var goalRightHistory: seq<Reading>
    var goalLeftHistory: seq<Reading>
    var latestCenter: Option<Reading>
    var latestGoalRight: Option<Reading>
    var latestGoalLeft: Option<Reading>
    var average: Option<real>

    constructor ()
      ensures centerHistory == goalRightHistory == goalLeftHistory == []
      ensures latestCenter == latestGoalRight == latestGoalLeft == None
      ensures average == None
    {
      centerHistory, goalRightHistory, goalLeftHistory := [], [], [];
      latestCenter, latestGoalRight, latestGoalLeft := None, None, None;
      average := None;
    }

    /** One poll over the batch `data`. */
    method FetchHumidityData(data: seq<Reading>)
      modifies this
      ensures centerHistory == old(centerHistory) + Partition(data, Centro)
      ensures goalRightHistory == old(goalRightHistory) + Partition(data, GoalRight)
      ensures goalLeftHistory == old(goalLeftHistory) + Partition(data, GoalLeft)
      ensures latestCenter == Latest(data, Centro)
      ensures latestGoalRight == Latest(data, GoalRight)
      ensures latestGoalLeft == Latest(data, GoalLeft)
      ensures average == ThreeWayAverage(latestCenter, latestGoalRight, latestGoalLeft, old(average))
    {
      var centerData := SortedPartition(data, Centro);
      var goalRightData := SortedPartition(data, GoalRight);
      var goalLeftData := SortedPartition(data, GoalLeft);

      centerHistory := centerHistory + centerData;
      goalRightHistory := goalRightHistory + goalRightData;
      goalLeftHistory := goalLeftHistory + goalLeftData;

      var lastCenterReading := Last(centerData);
      var lastGoalRightReading := Last(goalRightData);
      var lastGoalLeftReading := Last(goalLeftData);

      latestCenter := lastCenterReading;
      latestGoalRight := lastGoalRightReading;
      latestGoalLeft := lastGoalLeftReading;

      if lastCenterReading.Some? && lastGoalRightReading.Some? && lastGoalLeftReading.Some? {
        average := Some((lastCenterReading.value.humidity + lastGoalRightReading.value.humidity +
                         lastGoalLeftReading.value.humidity) / 3.0);
      }
    }
  }
}
