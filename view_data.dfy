/** The filter page: the fetched batch is kept whole, and each button shows
    the readings of one location tag, always filtered from the whole batch. */
module ViewData {
  import opened Readings

  /** The page's two state slots. */
  datatype ViewState = ViewState(allData: seq<Reading>, filteredData: seq<Reading>)

  /** Both slots start empty. */
  const Initial: ViewState := ViewState([], [])

  /** After the fetch both slots hold the batch, so everything is shown. */
  function Load(data: seq<Reading>): (s: ViewState)
    ensures s.allData == data
    ensures s.filteredData == s.allData
    ensures forall loc :: HandleFilter(s, loc).filteredData == Filter(data, loc)
  {
    ViewState(data, data)
  }

  /** A button press: the readings of `allData` tagged exactly `loc`, in
      their order; the stored batch is left as it was. */
  function HandleFilter(s: ViewState, loc: string): (t: ViewState)
    ensures t.allData == s.allData
    ensures forall x :: x in t.filteredData ==> x.location == loc
    ensures forall i :: 0 <= i < |s.allData| && s.allData[i].location == loc ==>
      s.allData[i] in t.filteredData
    ensures forall x: Reading :: x.location == loc ==>
      multiset(t.filteredData)[x] == multiset(s.allData)[x]
    ensures IsSubsequence(t.filteredData, s.allData)
    ensures |t.filteredData| <= |s.allData|
  {
    FilterExact(s.allData, loc);
    FilterIsSubsequence(s.allData, loc);
    ViewState(s.allData, Filter(s.allData, loc))
  }

  /** Filtering starts from the whole batch each time, so pressing the same
      button twice shows what pressing it once shows. */
  lemma HandleFilterIdempotent(s: ViewState, loc: string)
    ensures HandleFilter(HandleFilter(s, loc), loc) == HandleFilter(s, loc)
  {
  }

  /** A later button press does not depend on an earlier one. */
  lemma HandleFilterForgetsEarlier(s: ViewState, first: string, second: string)
    ensures HandleFilter(HandleFilter(s, first), second) == HandleFilter(s, second)
  {
  }

  /** A press before the fetch resolves filters the empty batch and shows
      nothing; when the fetch resolves, the whole batch is shown whatever was
      pressed before. */
  lemma PressBeforeFetch(loc: string, data: seq<Reading>)
    ensures HandleFilter(Initial, loc) == Initial
    ensures HandleFilter(Initial, loc).filteredData == []
    ensures Load(data).filteredData == data
  {
  }
}
