/** Sensor readings as the dashboard pages receive them from the sensors
    endpoint, and the list operations the pages share: keeping the readings
    of one location tag, the ascending sort by timestamp (done in place on an
    array), and taking the last element of a sorted partition. */
module Readings {

  datatype Option<+T> = None | Some(value: T)

  /** One row of the endpoint's reply. The timestamp is the row's time already
      converted to milliseconds; the humidity is a relative humidity in
      percent; the location is a free-text tag. */
  datatype Reading = Reading(timestamp: int, humidity: real, location: string)

  /** The three location tags the sensors page partitions by. */
  const Centro: string := "centro"
  const GoalRight: string := "porteriaderecha"
  const GoalLeft: string := "porteriaizquierda"

  /** `data.filter(item => item.location === loc)`: the readings whose tag is
      exactly `loc` (case-sensitive), each as often as in `s`, in their order. */
  function Filter(s: seq<Reading>, loc: string): (r: seq<Reading>)
    ensures |r| <= |s|
  {
    if s == [] then []
    else
      var rest := Filter(s[1..], loc);
      if s[0].location == loc then [s[0]] + rest else rest
  }

  /** The filter keeps every reading tagged `loc`, as many times as the batch
      holds it, and no other reading. */
  lemma {:induction false} FilterExact(s: seq<Reading>, loc: string)
    ensures forall x: Reading :: multiset(Filter(s, loc))[x] == if x.location == loc then multiset(s)[x] else 0
    ensures forall x :: x in Filter(s, loc) <==> x in s && x.location == loc
  {
    if s != [] {
      FilterExact(s[1..], loc);
      assert s == [s[0]] + s[1..];
    }
    forall x ensures x in Filter(s, loc) <==> x in s && x.location == loc {
      assert x in Filter(s, loc) <==> x in multiset(Filter(s, loc));
      assert x in s <==> x in multiset(s);
    }
  }

  /** The greedy test that `a` is `b` with some elements left out, order kept. */
  predicate IsSubsequence(a: seq<Reading>, b: seq<Reading>)
    decreases |b|
  {
    if a == [] then true
    else if b == [] then false
    else if a[0] == b[0] then IsSubsequence(a[1..], b[1..])
    else IsSubsequence(a, b[1..])
  }

  lemma {:induction false} FilterIsSubsequence(s: seq<Reading>, loc: string)
    ensures IsSubsequence(Filter(s, loc), s)
  {
    if s != [] {
      FilterIsSubsequence(s[1..], loc);
      FilterExact(s[1..], loc);
      var rest := Filter(s[1..], loc);
      if s[0].location == loc {
        assert ([s[0]] + rest)[1..] == rest;
      } else if rest != [] {
        assert rest[0] in rest;
      }
    }
  }

  /** A batch with no reading tagged `loc` filters to nothing. */
  lemma {:induction false} FilterNone(s: seq<Reading>, loc: string)
    requires forall x :: x in s ==> x.location != loc
    ensures Filter(s, loc) == []
  {
    if s != [] {
      assert s[0] in s;
      FilterNone(s[1..], loc);
    }
  }

  /** Filtering a concatenation is concatenating the filtered parts. */
  lemma {:induction false} FilterAppend(a: seq<Reading>, b: seq<Reading>, loc: string)
    ensures Filter(a + b, loc) == Filter(a, loc) + Filter(b, loc)
  {
    if a != [] {
      assert (a + b)[0] == a[0] && (a + b)[1..] == a[1..] + b;
      FilterAppend(a[1..], b, loc);
      if a[0].location == loc {
        assert Filter(a + b, loc) == [a[0]] + (Filter(a[1..], loc) + Filter(b, loc));
      } else {
        assert Filter(a + b, loc) == Filter(a[1..], loc) + Filter(b, loc);
      }
    } else {
      assert a + b == b;
    }
  }

  predicate SortedByTime(s: seq<Reading>) {
    forall i, j :: 0 <= i < j < |s| ==> s[i].timestamp <= s[j].timestamp
  }

  /** Puts `x` after every element of `s` whose timestamp is at most its own,
      scanning from the end. Equal timestamps keep their arrival order. */
  function Insert(x: Reading, s: seq<Reading>): (r: seq<Reading>)
    ensures |r| == |s| + 1
    decreases |s|
  {
    if s == [] || s[|s| - 1].timestamp <= x.timestamp then s + [x]
    else Insert(x, s[..|s| - 1]) + [s[|s| - 1]]
  }

  lemma {:induction false} InsertPermutes(x: Reading, s: seq<Reading>)
    ensures multiset(Insert(x, s)) == multiset(s) + multiset{x}
    decreases |s|
  {
    if s != [] && s[|s| - 1].timestamp > x.timestamp {
      var init, last := s[..|s| - 1], s[|s| - 1];
      assert s == init + [last];
      InsertPermutes(x, init);
    }
  }

  lemma {:induction false} InsertSorted(x: Reading, s: seq<Reading>)
    requires SortedByTime(s)
    ensures SortedByTime(Insert(x, s))
    decreases |s|
  {
    if s == [] || s[|s| - 1].timestamp <= x.timestamp {
      assert Insert(x, s) == s + [x];
    } else {
      var init, last := s[..|s| - 1], s[|s| - 1];
      assert s == init + [last];
      InsertSorted(x, init);
      InsertPermutes(x, init);
      var r := Insert(x, init);
      forall k | 0 <= k < |r| ensures r[k].timestamp <= last.timestamp {
        assert r[k] in multiset(r);
        assert r[k] == x || r[k] in multiset(init);
        if r[k] != x {
          var m :| 0 <= m < |init| && init[m] == r[k];
          assert s[m] == r[k];
        }
      }
      assert Insert(x, s) == r + [last];
    }
  }

  /** Inserts the readings of `rest`, first to last, into `acc`. */
  function InsertAll(acc: seq<Reading>, rest: seq<Reading>): (r: seq<Reading>)
    ensures |r| == |acc| + |rest|
    decreases |rest|
  {
    if rest == [] then acc else InsertAll(Insert(rest[0], acc), rest[1..])
  }

  lemma {:induction false} InsertAllSorted(acc: seq<Reading>, rest: seq<Reading>)
    requires SortedByTime(acc)
    ensures SortedByTime(InsertAll(acc, rest))
    decreases |rest|
  {
    if rest != [] {
      InsertSorted(rest[0], acc);
      InsertAllSorted(Insert(rest[0], acc), rest[1..]);
    }
  }

  lemma {:induction false} InsertAllPermutes(acc: seq<Reading>, rest: seq<Reading>)
    ensures multiset(InsertAll(acc, rest)) == multiset(acc) + multiset(rest)
    decreases |rest|
  {
    if rest != [] {
      InsertPermutes(rest[0], acc);
      InsertAllPermutes(Insert(rest[0], acc), rest[1..]);
      assert rest == [rest[0]] + rest[1..];
    }
  }

  /** The order `sort((a, b) => time(a) - time(b))` leaves an array in.
      That sort is stable, and so is this insertion sort, and a stable
      ascending order has only one outcome (`SortByTimeUnique`). */
  function SortByTime(s: seq<Reading>): (r: seq<Reading>)
    ensures |r| == |s|
  {
    InsertAll([], s)
  }

  /** The sorted partition is in non-decreasing timestamp order and holds
      exactly the readings it was given. */
  lemma SortByTimeSortedPermutation(s: seq<Reading>)
    ensures SortedByTime(SortByTime(s))
    ensures multiset(SortByTime(s)) == multiset(s)
  {
    InsertAllSorted([], s);
    InsertAllPermutes([], s);
  }

  /** The readings of `s` stamped exactly `t`, in their order. */
  function WithTime(s: seq<Reading>, t: int): (r: seq<Reading>)
    ensures |r| <= |s|
  {
    if s == [] then []
    else
      var rest := WithTime(s[1..], t);
      if s[0].timestamp == t then [s[0]] + rest else rest
  }

  lemma {:induction false} WithTimeAppend(a: seq<Reading>, b: seq<Reading>, t: int)
    ensures WithTime(a + b, t) == WithTime(a, t) + WithTime(b, t)
  {
    if a != [] {
      assert (a + b)[0] == a[0] && (a + b)[1..] == a[1..] + b;
      WithTimeAppend(a[1..], b, t);
      if a[0].timestamp == t {
        assert WithTime(a + b, t) == [a[0]] + (WithTime(a[1..], t) + WithTime(b, t));
      } else {
        assert WithTime(a + b, t) == WithTime(a[1..], t) + WithTime(b, t);
      }
    } else {
      assert a + b == b;
    }
  }

  /** Insertion never moves `x` ahead of an element with its own timestamp. */
  lemma {:induction false} InsertStable(x: Reading, s: seq<Reading>, t: int)
    ensures WithTime(Insert(x, s), t) == WithTime(s, t) + WithTime([x], t)
    decreases |s|
  {
    if s == [] || s[|s| - 1].timestamp <= x.timestamp {
      WithTimeAppend(s, [x], t);
    } else {
      var init, last := s[..|s| - 1], s[|s| - 1];
      assert s == init + [last];
      InsertStable(x, init, t);
      WithTimeAppend(Insert(x, init), [last], t);
      WithTimeAppend(init, [last], t);
      assert WithTime([x], t) == [] || WithTime([last], t) == [];
    }
  }

  lemma {:induction false} InsertAllStable(acc: seq<Reading>, rest: seq<Reading>, t: int)
    ensures WithTime(InsertAll(acc, rest), t) == WithTime(acc, t) + WithTime(rest, t)
    decreases |rest|
  {
    if rest != [] {
      InsertStable(rest[0], acc, t);
      InsertAllStable(Insert(rest[0], acc), rest[1..], t);
      assert WithTime(rest, t) == WithTime([rest[0]], t) + WithTime(rest[1..], t);
    }
  }

  /** The sort is stable: readings with the same timestamp keep the order
      they arrived in. */
  lemma SortByTimeStable(s: seq<Reading>, t: int)
    ensures WithTime(SortByTime(s), t) == WithTime(s, t)
  {
    InsertAllStable([], s, t);
  }

  lemma {:induction false} WithTimeSnoc(s: seq<Reading>, x: Reading, t: int)
    ensures WithTime(s + [x], t) == if x.timestamp == t then WithTime(s, t) + [x] else WithTime(s, t)
  {
    WithTimeAppend(s, [x], t);
    assert WithTime([x], t) == if x.timestamp == t then [x] else [] by {
      assert [x][1..] == [];
    }
  }

  lemma {:induction false} WithTimeMember(s: seq<Reading>, t: int, x: Reading)
    ensures x in WithTime(s, t) <==> x in s && x.timestamp == t
  {
    if s != [] {
      WithTimeMember(s[1..], t, x);
      assert s == [s[0]] + s[1..];
    }
  }

  /** Two sorted sequences that agree on the readings of every timestamp, in
      order, are the same sequence. */
  lemma {:induction false} SortedStableUnique(r1: seq<Reading>, r2: seq<Reading>)
    requires SortedByTime(r1) && SortedByTime(r2)
    requires forall t :: WithTime(r1, t) == WithTime(r2, t)
    ensures r1 == r2
    decreases |r1| + |r2|
  {
    if r1 == [] || r2 == [] {
      if r1 != [] {
        WithTimeMember(r1, r1[0].timestamp, r1[0]);
        assert false;
      } else if r2 != [] {
        WithTimeMember(r2, r2[0].timestamp, r2[0]);
        assert false;
      }
    } else {
      var init1, l1 := r1[..|r1| - 1], r1[|r1| - 1];
      var init2, l2 := r2[..|r2| - 1], r2[|r2| - 1];
      LastTimestampAtMost(r1, r2);
      LastTimestampAtMost(r2, r1);
      assert r1 == init1 + [l1] && r2 == init2 + [l2];
      DropLastAgree(init1, l1, init2, l2);
      SortedByTimePrefix(r1);
      SortedByTimePrefix(r2);
      SortedStableUnique(init1, init2);
    }
  }

  lemma SortedByTimePrefix(s: seq<Reading>)
    requires SortedByTime(s) && s != []
    ensures SortedByTime(s[..|s| - 1])
  {
  }

  /** The last of a sorted sequence is no later than the last of another
      that agrees with it on that last timestamp. */
  lemma LastTimestampAtMost(r1: seq<Reading>, r2: seq<Reading>)
    requires SortedByTime(r2) && r1 != [] && r2 != []
    requires WithTime(r1, r1[|r1| - 1].timestamp) == WithTime(r2, r1[|r1| - 1].timestamp)
    ensures r1[|r1| - 1].timestamp <= r2[|r2| - 1].timestamp
  {
    var l1 := r1[|r1| - 1];
    WithTimeMember(r1, l1.timestamp, l1);
    WithTimeMember(r2, l1.timestamp, l1);
    var k :| 0 <= k < |r2| && r2[k] == l1;
  }

  /** Two sequences ending at the same timestamp that agree on timestamp `t`
      still agree on it without their last readings, and when `t` is that
      timestamp their last readings are the same. */
  lemma DropLastAt(init1: seq<Reading>, l1: Reading, init2: seq<Reading>, l2: Reading, t: int)
    requires l1.timestamp == l2.timestamp
    requires WithTime(init1 + [l1], t) == WithTime(init2 + [l2], t)
    ensures WithTime(init1, t) == WithTime(init2, t)
    ensures t == l1.timestamp ==> l1 == l2
  {
    WithTimeSnoc(init1, l1, t);
    WithTimeSnoc(init2, l2, t);
    if t == l1.timestamp {
      var w1, w2 := WithTime(init1, t) + [l1], WithTime(init2, t) + [l2];
      assert w1[|w1| - 1] == l1 && w2[|w2| - 1] == l2;
      assert WithTime(init1, t) == w1[..|w1| - 1];
      assert WithTime(init2, t) == w2[..|w2| - 1];
    }
  }

  /** Sequences that agree on every timestamp and end at the same timestamp
      end with the same reading, and agree without it. */
  lemma DropLastAgree(init1: seq<Reading>, l1: Reading, init2: seq<Reading>, l2: Reading)
    requires l1.timestamp == l2.timestamp
    requires forall t :: WithTime(init1 + [l1], t) == WithTime(init2 + [l2], t)
    ensures l1 == l2
    ensures forall t :: WithTime(init1, t) == WithTime(init2, t)
  {
    DropLastAt(init1, l1, init2, l2, l1.timestamp);
    forall t ensures WithTime(init1, t) == WithTime(init2, t) {
      DropLastAt(init1, l1, init2, l2, t);
    }
  }

  /** The sorted order is determined by sortedness and stability alone, so
      any stable ascending sort by timestamp leaves this order. */
  lemma SortByTimeUnique(s: seq<Reading>, r: seq<Reading>)
    requires SortedByTime(r)
    requires forall t :: WithTime(r, t) == WithTime(s, t)
    ensures r == SortByTime(s)
  {
    SortByTimeSortedPermutation(s);
    forall t ensures WithTime(r, t) == WithTime(SortByTime(s), t) {
      SortByTimeStable(s, t);
    }
    SortedStableUnique(r, SortByTime(s));
  }

  /** Where insertion lands: after the prefix `s[..j]`, before the suffix of
      elements strictly later than `x`. */
  lemma {:induction false} InsertAt(x: Reading, s: seq<Reading>, j: nat)
    requires j <= |s|
    requires j == 0 || s[j - 1].timestamp <= x.timestamp
    requires forall k :: j <= k < |s| ==> s[k].timestamp > x.timestamp
    ensures Insert(x, s) == s[..j] + [x] + s[j..]
    decreases |s|
  {
    if j < |s| {
      var init, last := s[..|s| - 1], s[|s| - 1];
      assert Insert(x, s) == Insert(x, init) + [last];
      InsertAt(x, init, j);
      assert init[..j] == s[..j];
      assert s[j..] == init[j..] + [last];
    } else {
      assert s[..j] == s && s[j..] == [];
    }
  }

  /** One pass of the insertion sort: shifts the elements of the prefix
      `a[..i]` that are later than `a[i]` one place right and drops `a[i]`
      into the gap, at index `j`. */
  method InsertInPlace(a: array<Reading>, i: nat) returns (j: nat)
    requires i < a.Length
    modifies a
    ensures InsertionPoint(old(a[..]), i, j)
    ensures a[..] == MovedTo(old(a[..]), i, j)
  {
    var key := a[i];
    ghost var before := a[..];
    j := i;
    while j > 0 && a[j - 1].timestamp > key.timestamp
      invariant 0 <= j <= i
      invariant forall k :: 0 <= k < j ==> a[k] == before[k]
      invariant forall k :: j < k <= i ==> a[k] == before[k - 1]
      invariant forall k :: j <= k < i ==> before[k].timestamp > key.timestamp
      invariant forall k :: i < k < a.Length ==> a[k] == before[k]
    {
      assert a[j - 1] == before[j - 1];
      a[j] := a[j - 1];
      j := j - 1;
    }
    a[j] := key;
    ShiftedIsInserted(a[..], before, i, j);
  }

  /** `j` is where insertion puts `s[i]` into the sorted prefix `s[..i]`:
      after every element no later than it, before the later ones. */
  predicate InsertionPoint(s: seq<Reading>, i: nat, j: nat)
    requires i < |s|
  {
    j <= i &&
    (j == 0 || s[j - 1].timestamp <= s[i].timestamp) &&
    forall k :: j <= k < i ==> s[k].timestamp > s[i].timestamp
  }

  /** `s` with `s[i]` moved to index `j <= i`. */
  function MovedTo(s: seq<Reading>, i: nat, j: nat): (r: seq<Reading>)
    requires j <= i < |s|
    ensures |r| == |s|
  {
    s[..j] + [s[i]] + s[j..i] + s[i + 1..]
  }

  lemma ShiftedIsInserted(s: seq<Reading>, before: seq<Reading>, i: nat, j: nat)
    requires |s| == |before| && j <= i < |s|
    requires forall k :: 0 <= k < j ==> s[k] == before[k]
    requires s[j] == before[i]
    requires forall k :: j < k <= i ==> s[k] == before[k - 1]
    requires forall k :: i < k < |s| ==> s[k] == before[k]
    ensures s == MovedTo(before, i, j)
  {
    var inserted := before[..j] + [before[i]] + before[j..i] + before[i + 1..];
    assert |inserted| == |s|;
    forall k | 0 <= k < |s| ensures s[k] == inserted[k] {
      if k < j {
        assert inserted[k] == before[k];
      } else if j < k <= i {
        assert inserted[k] == before[k - 1];
      } else if i < k {
        assert inserted[k] == before[k];
      }
    }
  }

  /** The JavaScript sort, in place on the array of one partition. */
  method SortInPlace(a: array<Reading>)
    modifies a
    ensures a[..] == SortByTime(old(a[..]))
  {
    ghost var input := a[..];
    var i := 0;
    while i < a.Length
      invariant 0 <= i <= a.Length
      invariant InsertAll(a[..i], input[i..]) == SortByTime(input)
      invariant a[i..] == input[i..]
    {
      ghost var before := a[..];
      var j := InsertInPlace(a, i);
      SortStep(input, i, before, j, a[..]);
      i := i + 1;
    }
    assert a[..i] == a[..] && input[i..] == [];
  }

  /** One outer step of `SortInPlace`: an insertion pass over the array
      leaves the same sorted outcome still to be reached. */
  lemma SortStep(input: seq<Reading>, i: nat, before: seq<Reading>, j: nat, after: seq<Reading>)
    requires i < |input| == |before|
    requires InsertAll(before[..i], input[i..]) == SortByTime(input)
    requires before[i..] == input[i..]
    requires InsertionPoint(before, i, j)
    requires after == MovedTo(before, i, j)
    ensures InsertAll(after[..i + 1], input[i + 1..]) == SortByTime(input)
    ensures after[i + 1..] == input[i + 1..]
  {
    var done, x := before[..i], input[i];
    assert before[i] == x by {
      assert before[i..][0] == input[i..][0];
    }
    assert after[..i + 1] == Insert(x, done) by {
      assert after[..i + 1] == done[..j] + [x] + done[j..];
      InsertAt(x, done, j);
    }
    assert after[i + 1..] == input[i + 1..] by {
      assert after[i + 1..] == before[i + 1..];
      assert before[i + 1..] == before[i..][1..];
      assert input[i + 1..] == input[i..][1..];
    }
    assert input[i..][1..] == input[i + 1..];
  }

  /** `arr[arr.length - 1] || null`: readings are objects, so the element is
      always truthy and only the empty array gives null. */
  function Last(s: seq<Reading>): (last: Option<Reading>)
    ensures last.None? <==> s == []
    ensures last.Some? ==> last.value in s && last.value == s[|s| - 1]
    ensures last.Some? && SortedByTime(s) ==> forall k :: 0 <= k < |s| ==> s[k].timestamp <= last.value.timestamp
  {
    if s == [] then None else Some(s[|s| - 1])
  }

  /** A partition as a page holds it: one tag's readings, sorted. */
  function Partition(data: seq<Reading>, loc: string): (p: seq<Reading>)
    ensures |p| == |Filter(data, loc)| <= |data|
  {
    SortByTime(Filter(data, loc))
  }

  /** The latest reading of one location, as the pages compute it. */
  function Latest(data: seq<Reading>, loc: string): (latest: Option<Reading>)
    ensures latest.None? <==> Filter(data, loc) == []
    ensures latest.Some? ==> latest.value in data && latest.value.location == loc
  {
    PartitionExact(data, loc);
    Last(Partition(data, loc))
  }

  lemma PartitionExact(data: seq<Reading>, loc: string)
    ensures SortedByTime(Partition(data, loc))
    ensures multiset(Partition(data, loc)) == multiset(Filter(data, loc))
    ensures forall x: Reading :: multiset(Partition(data, loc))[x] == if x.location == loc then multiset(data)[x] else 0
    ensures forall x :: x in Partition(data, loc) <==> x in data && x.location == loc
  {
    FilterExact(data, loc);
    SortByTimeSortedPermutation(Filter(data, loc));
    forall x ensures x in Partition(data, loc) <==> x in Filter(data, loc) {
      assert x in Partition(data, loc) <==> x in multiset(Partition(data, loc));
    }
  }

  /** No reading for the tag gives null; otherwise the latest reading is one
      of the tag's readings and none of them is later. */
  /** `r` is a newest reading of tag `loc` in the batch. */
  ghost predicate Newest(data: seq<Reading>, loc: string, r: Reading) {
    r in data && r.location == loc &&
    forall x :: x in data && x.location == loc ==> x.timestamp <= r.timestamp
  }

  lemma LatestIsNewest(data: seq<Reading>, loc: string)
    ensures Latest(data, loc).None? <==> forall x :: x in data ==> x.location != loc
    ensures Latest(data, loc).Some? ==> Newest(data, loc, Latest(data, loc).value)
  {
    PartitionExact(data, loc);
    var p := Partition(data, loc);
    if p != [] {
      var r := p[|p| - 1];
      forall x | x in data && x.location == loc ensures x.timestamp <= r.timestamp {
        assert x in p;
        var k :| 0 <= k < |p| && p[k] == x;
        assert k == |p| - 1 || k < |p| - 1;
      }
    } else {
      forall x | x in data ensures x.location != loc {
        assert x !in p;
      }
    }
  }

  /** On a tie for the newest timestamp, the latest reading is the one of
      those that arrived last in the batch. */
  lemma LatestBreaksTiesByArrival(data: seq<Reading>, loc: string)
    ensures Latest(data, loc).Some? ==>
      var r := Latest(data, loc).value;
      var tied := WithTime(Filter(data, loc), r.timestamp);
      |tied| > 0 && tied[|tied| - 1] == r
  {
    var p := Partition(data, loc);
    if p != [] {
      var init, r := p[..|p| - 1], p[|p| - 1];
      assert p == init + [r];
      SortByTimeStable(Filter(data, loc), r.timestamp);
      WithTimeSnoc(init, r, r.timestamp);
    }
  }

  /** What each page does to one tag's readings: filter, copy into an array,
      sort it in place, and read it back. */
  method SortedPartition(data: seq<Reading>, loc: string) returns (p: seq<Reading>)
    ensures p == Partition(data, loc)
  {
    var filtered := Filter(data, loc);
    var a := new Reading[|filtered|](i requires 0 <= i < |filtered| => filtered[i]);
    assert a[..] == filtered;
    SortInPlace(a);
    p := a[..];
  }
}
