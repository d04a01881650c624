/** The chart page: the newest `centro` humidity is shown, pushed onto a
    rolling history of at most ten points, and mapped to a cleat
    recommendation by fixed humidity breakpoints. */
module Graph {
  import opened Readings

  const Loading: string := "Cargando..."
  const FirmGround: string := "Firm Ground (FG): Taches cortos"
  const FirmOrHybrid: string := "Firm Ground (FG) o Hybrid Ground"
  const SoftGround: string := "Soft Ground (SG): Taches largos"
  const ArtificialTurf: string := "Césped sintético: Artificial Ground (AG) con taches cortos"

  /** The cleat label for a humidity, null while nothing has been read. The
      brackets are tested in the order the page tests them; the two brackets
      above 30 give the same label, and the artificial-turf label is left
      for a humidity no bracket takes, which no number is. */
  function CleatsType(humidity: Option<real>): (cleats: string)
    ensures humidity.None? <==> cleats == Loading
    ensures humidity.Some? && humidity.value < 10.0 ==> cleats == FirmGround
    ensures humidity.Some? && 10.0 <= humidity.value <= 30.0 ==> cleats == FirmOrHybrid
    ensures humidity.Some? && 30.0 < humidity.value ==> cleats == SoftGround
    ensures cleats != ArtificialTurf
  {
    match humidity
    case None => Loading
    case Some(h) =>
      if h < 10.0 then FirmGround
      else if h >= 10.0 && h <= 30.0 then FirmOrHybrid
      else if h > 30.0 && h <= 60.0 then SoftGround
      else if h > 60.0 then SoftGround
      else ArtificialTurf
  }

  /** The brackets `30 < h <= 60` and `h > 60` cannot be told apart. */
  lemma SoftGroundBracketsAgree(h1: real, h2: real)
    requires 30.0 < h1 <= 60.0 && 60.0 < h2
    ensures CleatsType(Some(h1)) == CleatsType(Some(h2)) == SoftGround
  {
  }

  /** How many points the chart keeps. */
  const HistoryCapacity: nat := 10

  /** `[...history, v]`, then one `shift()` when that is longer than ten. */
  function PushWindow(history: seq<real>, v: real): (r: seq<real>)
    ensures |r| > 0 && r[|r| - 1] == v
    ensures |history| < HistoryCapacity ==> r == history + [v]
    ensures |history| >= HistoryCapacity ==> r == history[1..] + [v]
    ensures |history| <= HistoryCapacity ==> |r| <= HistoryCapacity
  {
    var pushed := history + [v];
    if |pushed| > HistoryCapacity then pushed[1..] else pushed
  }

  /** The history after one push per value of `vs`, oldest first. */
  function PushAll(history: seq<real>, vs: seq<real>): (r: seq<real>)
    decreases |vs|
  {
    if vs == [] then history else PushAll(PushWindow(history, vs[0]), vs[1..])
  }

  /** The last `n` elements of `s`, or all of it when it is shorter. */
  function LastN(s: seq<real>, n: nat): (r: seq<real>)
  {
    if |s| <= n then s else s[|s| - n..]
  }

  /** A window of at most ten points, pushed any number of times, holds the
      last ten of everything it has seen: first in, first evicted. */
  lemma {:induction false} PushAllKeepsLastTen(history: seq<real>, vs: seq<real>)
    requires |history| <= HistoryCapacity
    ensures PushAll(history, vs) == LastN(history + vs, HistoryCapacity)
    decreases |vs|
  {
    if vs == [] {
      assert history + vs == history;
    } else {
      var next := PushWindow(history, vs[0]);
      PushAllKeepsLastTen(next, vs[1..]);
      var all := history + vs;
      assert all == history + [vs[0]] + vs[1..];
      if |history| < HistoryCapacity {
        assert next + vs[1..] == all;
      } else {
        assert next + vs[1..] == all[1..];
        LastNOfTail(all, HistoryCapacity);
      }
    }
  }

  /** Dropping the first element of a sequence longer than `n` keeps its
      last `n`. */
  lemma LastNOfTail(s: seq<real>, n: nat)
    requires |s| > n
    ensures LastN(s[1..], n) == LastN(s, n)
  {
    assert s[1..][|s| - 1 - n..] == s[|s| - n..];
  }

  /** The humidity the page displays after a fetch: that of the latest
      `centro` reading, or the previous value when there is none. */
  function DisplayedHumidity(data: seq<Reading>, previous: Option<real>): (shown: Option<real>)
    ensures (forall x :: x in data ==> x.location != Centro) ==> shown == previous
    ensures (exists x :: x in data && x.location == Centro) ==>
      exists r :: Newest(data, Centro, r) && shown == Some(r.humidity)
    ensures Filter(data, Centro) != [] ==> shown == Some(Latest(data, Centro).value.humidity)
  {
    LatestIsNewest(data, Centro);
    match Latest(data, Centro)
    case Some(r) => Some(r.humidity)
    case None => previous
  }

  /** The point a fetch adds to the chart: the latest `centro` humidity, or 0. */
  function HistoryPoint(data: seq<Reading>): (point: real)
    ensures (forall x :: x in data ==> x.location != Centro) ==> point == 0.0
    ensures (exists x :: x in data && x.location == Centro) ==>
      exists r :: Newest(data, Centro, r) && point == r.humidity
    ensures Filter(data, Centro) != [] ==> point == Latest(data, Centro).value.humidity
  {
    LatestIsNewest(data, Centro);
    match Latest(data, Centro)
    case Some(r) => r.humidity
    case None => 0.0
  }

  class GraphPage {
    var history: seq<real>
    /** Named after the page's `averageHumidity`, but it holds the newest
        `centro` humidity, not a mean. */
    var average: Option<real>

    ghost predicate Valid()
      reads this
    {
      |history| <= HistoryCapacity
    }

    constructor ()
      ensures Valid() && history == [] && average == None
    {
      history := [];
      average := None;
    }

    /** One poll: sort the `centro` readings of the batch, show the latest,
        and push it (or 0) onto the history. */
    method FetchHumidityData(data: seq<Reading>)
      requires Valid()
      modifies this
      ensures Valid()
      ensures average == DisplayedHumidity(data, old(average))
      ensures history == PushWindow(old(history), HistoryPoint(data))
    {
      var centerData := SortedPartition(data, Centro);
      var lastCenterReading := Last(centerData);
      if lastCenterReading.Some? {
        average := Some(lastCenterReading.value.humidity);
      }
      var newHistory := history + [if lastCenterReading.Some? then lastCenterReading.value.humidity else 0.0];
      if |newHistory| > HistoryCapacity {
        newHistory := newHistory[1..];
      }
      history := newHistory;
    }
  }
}
