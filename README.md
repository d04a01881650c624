# ESTADIO humidity dashboard — display logic

ESTADIO is a web dashboard for the pitch of the Universidad de Cundinamarca
stadium. Humidity sensors at three places on the pitch are tagged
`centro`, `porteriaderecha` (right goal) and `porteriaizquierda` (left goal).
Three client pages read the sensors endpoint and turn its list of readings
into what a visitor sees. The chart page and the sensors page poll it; the
filter page fetches it once when it mounts.

- the chart page (`app/sensors/graph.tsx`) does four things:
  - keeps the `centro` readings and sorts them by time;
  - shows the newest humidity;
  - pushes that value (or 0) onto a chart history of at most ten points;
  - maps the shown humidity to a cleat recommendation.
- the sensors page (`app/sensors/page.tsx`) does four things:
  - splits every batch into the three location partitions and sorts each by time;
  - appends each partition to that location's table;
  - shows each location's latest reading;
  - recomputes the mean of the three latest humidities only when the current
    batch holds a reading of all three tags (each batch resets the latest
    readings), and otherwise keeps the previous mean.
- the filter page (`app/view-data/page.tsx`) keeps the whole batch and shows
  the readings of one location per button press.

The Dafny model has four modules:

- `Readings` (`readings.dfy`) models what the pages share:
  - the reading record;
  - the location filter;
  - the ascending timestamp sort;
  - the "last element or null" step.

  The sort is specified by a stable insertion sort on sequences, `SortByTime`. It is proved:
  - sorted;
  - a permutation;
  - stable;
  - the only sorted, stable order.

  It is implemented by an in-place insertion sort on an `array`, which each page runs on its own copy of a partition.
- `Graph` (`graph.dfy`) models the chart page: `CleatsType`, the ten-point window, and a
  `GraphPage` class whose fields are the page's two pieces of state.
- `Sensors` (`sensors.dfy`) models the sensors page as a `SensorsPage` class
  whose seven fields are the page's seven pieces of state.
- `ViewData` (`view_data.dfy`) models the filter page. It is pure state-to-state functions over a
  `ViewState` value, because the page only replaces its two state slots.

Every poll of the chart page or the sensors page is one call of that page's
`FetchHumidityData`, and the filter page's single fetch is one call of
`ViewData.Load`. The batch the endpoint returns is the parameter.

Two points about `getCleatsType` (`app/sensors/graph.tsx:65-72`) are kept as written:
- The brackets `30 < h <= 60` and `h > 60` return the same soft-ground label (`SoftGroundBracketsAgree`).
- The final artificial-turf label can never be returned for a number, because the brackets before it
  cover every humidity (`CleatsType` ensures `cleats != ArtificialTurf`).

It is not evident which thresholds were intended, so no corrected version is offered.

## Model

| member | source | states |
|---|---|---|
| Readings.Filter | app/sensors/page.tsx:27-29 | filtering by a location tag never yields more readings than the batch has |
| Readings.FilterExact | app/sensors/page.tsx:27-29 | the filter keeps exactly the readings tagged with the location (strict, case-sensitive equality), each as many times as the batch holds it, and no other reading |
| Readings.FilterIsSubsequence | app/view-data/page.tsx:27 | the filtered list is the batch with some readings left out, in the batch's order |
| Readings.FilterNone | app/sensors/page.tsx:27-29 | a batch with no reading for a tag gives an empty partition |
| Readings.FilterAppend | app/sensors/page.tsx:27-29 | filtering a concatenation of two batches is concatenating their filtered parts |
| Readings.SortByTime | app/sensors/page.tsx:32-34 | the sorted partition has as many readings as the unsorted one |
| Readings.SortByTimeSortedPermutation | app/sensors/page.tsx:32-34 | after the sort the timestamps do not decrease, and the partition holds the same readings it held before |
| Readings.SortByTimeStable | app/sensors/page.tsx:32-34 | readings with equal timestamps keep their arrival order, as the JavaScript sort guarantees |
| Readings.SortByTimeUnique | app/sensors/graph.tsx:25 | any sorted order that keeps each timestamp's readings in arrival order is this order, so the model fixes what the stable sort leaves |
| Readings.InsertInPlace | app/sensors/page.tsx:32 | one insertion pass on the array shifts the later elements of the sorted prefix one place right and puts the element in the gap; the rest of the array is unchanged |
| Readings.SortInPlace | app/sensors/page.tsx:32-34 | sorting the partition's array in place leaves it holding `SortByTime` of its old contents |
| Readings.SortedPartition | app/sensors/graph.tsx:24-25 | filtering a batch, copying it into an array and sorting it gives the tag's partition |
| Readings.PartitionExact | app/sensors/page.tsx:27-34 | a partition is sorted by time and holds exactly the batch's readings with that tag, with multiplicity |
| Readings.Last | app/sensors/page.tsx:42-44 | taking the last element or null, on an array of objects: null exactly for the empty array; on a time-sorted array no element is later than the one taken |
| Readings.Partition | app/sensors/page.tsx:27-34 | a tag's sorted partition has as many readings as the tag has in the batch, so no more than the batch |
| Readings.Latest | app/sensors/page.tsx:27-44 | after filter, sort and last: null exactly when the batch has no reading with the tag, otherwise a reading of the batch with that tag |
| Readings.LatestBreaksTiesByArrival | app/sensors/page.tsx:32-44 | when several readings share the newest timestamp, the latest reading is the one of them that arrived last in the batch |
| Readings.LatestIsNewest | app/sensors/page.tsx:42-44 | the latest reading is null exactly when the batch has no reading with the tag; otherwise it is a reading of the batch with that tag, and no reading of that tag is later |
| Graph.CleatsType | app/sensors/graph.tsx:65-72 | null gives and only null gives the loading text; below 10 gives firm ground; 10 to 30 inclusive gives firm or hybrid ground; above 30 gives soft ground; the artificial-turf label is never returned |
| Graph.SoftGroundBracketsAgree | app/sensors/graph.tsx:69-70 | the two brackets above 30 give the same soft-ground label |
| Graph.PushWindow | app/sensors/graph.tsx:33-39 | the new point becomes the last one; below ten points it is appended; at ten or more the oldest point is dropped; a window of at most ten stays within ten |
| Graph.PushAllKeepsLastTen | app/sensors/graph.tsx:33-40 | any number of pushes onto a window of at most ten points leaves the last ten of all points seen, oldest evicted first |
| Graph.DisplayedHumidity | app/sensors/graph.tsx:24-31 | with no `centro` reading in the batch the shown humidity is the previous one; otherwise it is the humidity of a `centro` reading of the batch that no `centro` reading is later than |
| Graph.HistoryPoint | app/sensors/graph.tsx:24-36 | the pushed point is 0 with no `centro` reading in the batch; otherwise it is the humidity of a `centro` reading of the batch that no `centro` reading is later than |
| Graph.GraphPage.constructor | app/sensors/graph.tsx:16-17 | the page starts with an empty history and no humidity |
| Graph.GraphPage.FetchHumidityData | app/sensors/graph.tsx:24-40 | one poll sets the shown humidity to the newest `centro` humidity or keeps it, and pushes that humidity or 0 onto the history, which stays within ten points |
| Sensors.AverageOfNewest | app/sensors/page.tsx:51-57 | after a poll the mean is that of a newest reading of each of the three tags when the batch has all three, and is the previous mean when any tag is missing |
| Sensors.PartitionsByTag | app/sensors/page.tsx:27-29 | each partition holds exactly the batch's readings with its tag; a reading with any other tag is in none |
| Sensors.OtherLocationsLeavePartition | app/sensors/page.tsx:27-44 | readings of other tags inserted anywhere in the batch change neither a partition nor its latest reading |
| Sensors.ThreeWayAverage | app/sensors/page.tsx:51-57 | the previous mean is kept when any latest reading is null; otherwise the mean `(c + r + l) / 3` lies between the lowest and the highest of the three humidities, and equals them when they agree |
| Sensors.SensorsPage.constructor | app/sensors/page.tsx:13-19 | all three tables start empty, all latest readings and the mean start null |
| Sensors.SensorsPage.FetchHumidityData | app/sensors/page.tsx:27-58 | each table grows by exactly its sorted partition of the batch (append-only); each latest reading becomes the partition's last, or null; the mean is recomputed only when all three exist |
| ViewData.Load | app/view-data/page.tsx:19-29 | after the fetch the stored batch is the fetched one and the shown list equals it; any button pressed afterwards shows exactly the batch's readings with that tag |
| ViewData.HandleFilter | app/view-data/page.tsx:26-29 | the stored batch is unchanged; every shown reading has the chosen tag; every batch reading with that tag is shown, as often as in the batch; the shown list is an order-preserving sublist of the batch, so no longer than it |
| ViewData.HandleFilterIdempotent | app/view-data/page.tsx:26-29 | pressing the same button twice shows what pressing it once shows |
| ViewData.HandleFilterForgetsEarlier | app/view-data/page.tsx:26-29 | a press does not depend on earlier presses: it always filters the whole batch |
| ViewData.PressBeforeFetch | app/view-data/page.tsx:12-29 | a press before the fetch resolves shows nothing, and the resolved fetch then shows the whole batch |

## Left out

- Network fetches, the 30-second `setInterval`, effect clean-up and React's asynchronous state updates are left out. Each poll is one call taking the fetched batch as its argument.
- The chart page's effect depends on its history, and every poll stores a new history array. The effect's clean-up clears the old interval before each re-run, so one interval exists at a time. Each re-run fetches at once, so the chart page polls again as soon as a poll ends, and its 30-second timer only matters after a failed fetch. This scheduling is not modelled: polls happen one after another, which is right unless a fetch takes more than 30 seconds.
- Timestamps are modelled as integers already converted to milliseconds. Parsing a timestamp string with `new Date(...)` is not modelled, and neither are invalid dates, which give NaN to the comparator.
- Humidities are modelled as exact reals. IEEE-754 rounding, including that of the `/ 3` mean, is not modelled, and neither are NaN and infinities. A NaN humidity would make every bracket test false and would reach the artificial-turf label in the source.
- Readings.SortByTime: it states the outcome the ECMAScript specification requires of the stable `Array.prototype.sort`, not the engine's own algorithm.
- `toFixed`, `toLocaleTimeString`, progress bars, the chart component and all JSX rendering are left out (formatting only).
- `app/api/sensors/route.ts` is a database insert behind a POST handler. It does storage I/O and is not part of this model. The GET handler the pages call is not in the repository.
- `sensorToServer.js` (serial-port bridge), `HumidityChart.js`, `app/page.tsx`, `app/layout.tsx` and `next.config.js` are not part of this model.
- Graph.GraphPage.FetchHumidityData: it requires the history to hold at most ten points. The page's state always satisfies this, because the history starts empty and only this method changes it.
