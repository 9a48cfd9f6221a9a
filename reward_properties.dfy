/** What the reward bookkeeping guarantees: the shape and meaning of the aggregated rewards,
    last-writer-wins merging of diagnostics, the keys and sentinels of `reward_data`, the order
    of the `save_files` and extractor calls, and where the files go. */
module RewardProperties {
  import opened Wrappers
  import opened Reward
  import Utf8
  import Paths

  // ---------------------------------------------------------------------------------------
  // Column-wise mean
  // ---------------------------------------------------------------------------------------

  /** A column sum splits over stacked rows. */
  lemma {:induction false} ColumnSumAppend(a: seq<seq<real>>, b: seq<seq<real>>, j: nat)
    requires HasColumn(a, j) && HasColumn(b, j)
    ensures HasColumn(a + b, j)
    ensures ColumnSum(a + b, j) == ColumnSum(a, j) + ColumnSum(b, j)
    decreases |a|
  {
    if |a| == 0 {
      assert a + b == b;
    } else {
      assert (a + b)[1..] == a[1..] + b;
      ColumnSumAppend(a[1..], b, j);
    }
  }

  /** Column sums grow with their entries, and are bounded by the count times the bounds. */
  lemma {:induction false} ColumnSumBounds(rows: seq<seq<real>>, j: nat, lo: real, hi: real)
    requires HasColumn(rows, j)
    requires forall i :: 0 <= i < |rows| ==> lo <= rows[i][j] <= hi
    ensures (|rows| as real) * lo <= ColumnSum(rows, j) <= (|rows| as real) * hi
    decreases |rows|
  {
    if |rows| > 0 {
      ColumnSumBounds(rows[1..], j, lo, hi);
      assert (|rows| as real) * lo == lo + ((|rows| - 1) as real) * lo;
      assert (|rows| as real) * hi == hi + ((|rows| - 1) as real) * hi;
    }
  }

  lemma {:induction false} ColumnSumMonotone(rows: seq<seq<real>>, a: nat, b: nat)
    requires HasColumn(rows, a) && HasColumn(rows, b)
    requires forall i :: 0 <= i < |rows| ==> rows[i][a] <= rows[i][b]
    ensures ColumnSum(rows, a) <= ColumnSum(rows, b)
    decreases |rows|
  {
    if |rows| > 0 {
      ColumnSumMonotone(rows[1..], a, b);
    }
  }

  /** Aggregation succeeds exactly when every event reports as many rewards as the first; the
      result then has one mean per reward position, or is NaN when there is no event. */
  lemma AggregateShape(events: seq<RewardEvent>)
    ensures Aggregate(events).Ok? <==>
      forall i :: 0 <= i < |events| ==> |events[i].rewards| == |events[0].rewards|
    ensures Aggregate(events).Ok? && |events| == 0 ==> Aggregate(events).value.0 == NotANumber
    ensures Aggregate(events).Ok? && |events| > 0 ==>
      Aggregate(events).value.0.Vector? &&
      |Aggregate(events).value.0.values| == |events[0].rewards|
  {
    assert forall i :: 0 <= i < |events| ==> |Rows(events)[i]| == |events[i].rewards|;
  }

  /** The mean of each position lies between the lowest and the highest reward any event gave
      that position. */
  lemma AggregateBounds(events: seq<RewardEvent>, j: nat, lo: real, hi: real)
    requires |events| > 0
    requires forall i :: 0 <= i < |events| ==> |events[i].rewards| == |events[0].rewards|
    requires j < |events[0].rewards|
    requires forall i :: 0 <= i < |events| ==> lo <= events[i].rewards[j].1 <= hi
    ensures Aggregate(events).Ok? && Aggregate(events).value.0.Vector?
    ensures lo <= Aggregate(events).value.0.values[j] <= hi
  {
    var rows := Rows(events);
    var n := |events| as real;
    assert forall i :: 0 <= i < |rows| ==> j < |rows[i]| && rows[i][j] == events[i].rewards[j].1;
    AggregateShape(events);
    ColumnSumBounds(rows, j, lo, hi);
    var m := Aggregate(events).value.0.values[j];
    assert m == ColumnSum(rows, j) / n;
    DivideBounds(ColumnSum(rows, j), n, lo, hi);
  }

  lemma DivideBounds(x: real, n: real, lo: real, hi: real)
    requires n > 0.0 && n * lo <= x <= n * hi
    ensures lo <= x / n <= hi
  {
    DivideMonotone(n * lo, x, n);
    DivideMonotone(x, n * hi, n);
    assert (n * lo) / n == lo;
    assert (n * hi) / n == hi;
  }

  /** When every model gives one position the same reward, that is its aggregated reward. */
  lemma AggregateUnanimous(events: seq<RewardEvent>, j: nat, x: real)
    requires |events| > 0
    requires forall i :: 0 <= i < |events| ==> |events[i].rewards| == |events[0].rewards|
    requires j < |events[0].rewards|
    requires forall i :: 0 <= i < |events| ==> events[i].rewards[j].1 == x
    ensures Aggregate(events).Ok? && Aggregate(events).value.0.Vector?
    ensures Aggregate(events).value.0.values[j] == x
  {
    AggregateBounds(events, j, x, x);
  }

  /** A position that every model scores no higher than another is aggregated no higher: a
      worker every model ranks last stays last. */
  lemma AggregateDominance(events: seq<RewardEvent>, a: nat, b: nat)
    requires |events| > 0
    requires forall i :: 0 <= i < |events| ==> |events[i].rewards| == |events[0].rewards|
    requires a < |events[0].rewards| && b < |events[0].rewards|
    requires forall i :: 0 <= i < |events| ==> events[i].rewards[a].1 <= events[i].rewards[b].1
    ensures Aggregate(events).Ok? && Aggregate(events).value.0.Vector?
    ensures Aggregate(events).value.0.values[a] <= Aggregate(events).value.0.values[b]
  {
    var rows := Rows(events);
    var n := |events| as real;
    ColumnSumMonotone(rows, a, b);
    var m := Aggregate(events).value.0.values;
    assert m[a] == ColumnSum(rows, a) / n && m[b] == ColumnSum(rows, b) / n;
    DivideMonotone(ColumnSum(rows, a), ColumnSum(rows, b), n);
  }

  lemma DivideMonotone(x: real, y: real, n: real)
    requires n > 0.0 && x <= y
    ensures x / n <= y / n
  {
    assert y / n - x / n == (y - x) / n;
  }

  /** Taking one row out of a column sum leaves the sum of the others. */
  lemma ColumnSumRemove(rows: seq<seq<real>>, k: nat, j: nat)
    requires k < |rows| && HasColumn(rows, j)
    ensures HasColumn(rows[..k] + rows[k + 1..], j)
    ensures ColumnSum(rows, j) == rows[k][j] + ColumnSum(rows[..k] + rows[k + 1..], j)
  {
    var front, back := rows[..k], rows[k + 1..];
    assert rows == front + ([rows[k]] + back);
    ColumnSumAppend(front, [rows[k]] + back, j);
    ColumnSumAppend(front, back, j);
    assert ([rows[k]] + back)[1..] == back;
  }

  /** Rows of the events with event `k` taken out. */
  lemma RowsRemove(events: seq<RewardEvent>, k: nat)
    requires k < |events|
    ensures Rows(events)[..k] + Rows(events)[k + 1..] == Rows(events[..k] + events[k + 1..])
  {
  }

  lemma MultisetRemove<T>(s: seq<T>, k: nat)
    requires k < |s|
    ensures multiset(s[..k] + s[k + 1..]) == multiset(s) - multiset{s[k]}
  {
    assert s == s[..k] + [s[k]] + s[k + 1..];
  }

  /** Every event of a rearrangement is one of the original events, so it has the column too. */
  lemma PermutationHasColumn(e1: seq<RewardEvent>, e2: seq<RewardEvent>, j: nat)
    requires multiset(e1) == multiset(e2) && HasColumn(Rows(e1), j)
    ensures HasColumn(Rows(e2), j)
  {
    forall i | 0 <= i < |e2| ensures j < |Rows(e2)[i]| {
      assert e2[i] in multiset(e1);
      var m :| 0 <= m < |e1| && e1[m] == e2[i];
      assert Rows(e1)[m] == Rows(e2)[i];
    }
  }

  /** Moving the first event to position `k` keeps the column sums, given that it keeps them
      for the other events. */
  lemma ColumnSumMoveFirst(e1: seq<RewardEvent>, e2: seq<RewardEvent>, k: nat, j: nat)
    requires 0 < |e1| && k < |e2| && e2[k] == e1[0]
    requires HasColumn(Rows(e1), j) && HasColumn(Rows(e2), j)
    requires HasColumn(Rows(e1[1..]), j) && HasColumn(Rows(e2[..k] + e2[k + 1..]), j)
    requires ColumnSum(Rows(e1[1..]), j) == ColumnSum(Rows(e2[..k] + e2[k + 1..]), j)
    ensures ColumnSum(Rows(e1), j) == ColumnSum(Rows(e2), j)
  {
    var r1, r2 := Rows(e1), Rows(e2);
    RowsRemove(e2, k);
    ColumnSumRemove(r2, k, j);
    assert r1[1..] == Rows(e1[1..]);
    assert r1[0] == r2[k];
  }

  /** A position at which a member of a sequence sits. */
  lemma IndexOf<T>(s: seq<T>, x: T) returns (k: nat)
    requires x in multiset(s)
    ensures k < |s| && s[k] == x
  {
    assert x in s;
    k :| 0 <= k < |s| && s[k] == x;
  }

  /** Where the first element of a sequence sits in a rearrangement of it; the other elements
      are then rearrangements of each other. */
  lemma FindFirst<T>(e1: seq<T>, e2: seq<T>) returns (k: nat)
    requires multiset(e1) == multiset(e2) && 0 < |e1|
    ensures k < |e2| && e2[k] == e1[0]
    ensures multiset(e1[1..]) == multiset(e2[..k] + e2[k + 1..])
  {
    k := IndexOf(e2, e1[0]);
    MultisetRemove(e2, k);
    assert e1 == [e1[0]] + e1[1..];
    assert multiset(e1[1..]) == multiset(e1) - multiset{e1[0]};
  }

  lemma HasColumnTail(events: seq<RewardEvent>, j: nat)
    requires 0 < |events| && HasColumn(Rows(events), j)
    ensures HasColumn(Rows(events[1..]), j)
  {
    assert forall i :: 0 <= i < |events| - 1 ==> Rows(events[1..])[i] == Rows(events)[i + 1];
  }

  /** Column sums do not depend on the order of the events. */
  lemma {:induction false} ColumnSumPermutation(e1: seq<RewardEvent>, e2: seq<RewardEvent>, j: nat)
    requires multiset(e1) == multiset(e2) && HasColumn(Rows(e1), j)
    ensures HasColumn(Rows(e2), j)
    ensures ColumnSum(Rows(e1), j) == ColumnSum(Rows(e2), j)
    decreases |e1|
  {
    PermutationHasColumn(e1, e2, j);
    if |e1| == 0 {
      assert |e2| == |multiset(e2)| == 0;
    } else {
      var k := FindFirst(e1, e2);
      HasColumnTail(e1, j);
      ColumnSumPermutation(e1[1..], e2[..k] + e2[k + 1..], j);
      ColumnSumMoveFirst(e1, e2, k, j);
    }
  }

  /** The rewards do not depend on the order of the models, only the diagnostics do: any
      rearrangement of the events gives the same reward vector. */
  lemma AggregatePermutation(e1: seq<RewardEvent>, e2: seq<RewardEvent>)
    requires multiset(e1) == multiset(e2)
    requires Aggregate(e1).Ok?
    ensures Aggregate(e2).Ok?
    ensures Aggregate(e2).value.0 == Aggregate(e1).value.0
  {
    assert |e1| == |multiset(e1)| == |e2|;
    if |e1| > 0 {
      var r1, r2 := Rows(e1), Rows(e2);
      var w := |r1[0]|;
      forall i | 0 <= i < |e2| ensures |r2[i]| == w {
        assert e2[i] in multiset(e1);
        var m :| 0 <= m < |e1| && e1[m] == e2[i];
        assert r1[m] == r2[i];
      }
      forall j | 0 <= j < w ensures ColumnSum(r1, j) == ColumnSum(r2, j) {
        assert HasColumn(r1, j);
        ColumnSumPermutation(e1, e2, j);
      }
    }
  }

  // ---------------------------------------------------------------------------------------
  // Diagnostics dict
  // ---------------------------------------------------------------------------------------

  /** The merged dict holds exactly the keys of all events. */
  lemma {:induction false} MergeKeys(events: seq<RewardEvent>, k: string)
    ensures k in Merge(events) <==> exists i :: 0 <= i < |events| && k in events[i].fields
    decreases |events|
  {
    if |events| > 0 {
      var init := events[..|events| - 1];
      MergeKeys(init, k);
      if k in Merge(init) {
        var i :| 0 <= i < |init| && k in init[i].fields;
        assert k in events[i].fields;
      }
      if exists i :: 0 <= i < |events| && k in events[i].fields {
        var i :| 0 <= i < |events| && k in events[i].fields;
        if i < |init| { assert k in init[i].fields; }
      }
    }
  }

  /** Where several events report a key, the last of them wins. */
  lemma {:induction false} MergeLastWins(events: seq<RewardEvent>, k: string, i: nat)
    requires i < |events| && k in events[i].fields
    requires forall j :: i < j < |events| ==> k !in events[j].fields
    ensures k in Merge(events) && Merge(events)[k] == events[i].fields[k]
    decreases |events|
  {
    if i < |events| - 1 {
      var init := events[..|events| - 1];
      MergeLastWins(init, k, i);
    }
  }

  // ---------------------------------------------------------------------------------------
  // reward_data
  // ---------------------------------------------------------------------------------------

  lemma ZipAt(uids: seq<Uid>, responses: seq<Response>)
    ensures |Zip(uids, responses)| == PairCount(uids, responses)
    ensures forall i :: 0 <= i < PairCount(uids, responses) ==>
      Zip(uids, responses)[i] == (uids[i], responses[i])
  {
  }

  /** The uids of a list of pairs, in order. */
  function Firsts(pairs: seq<(Uid, Response)>): (uids: seq<Uid>) {
    if |pairs| == 0 then [] else Firsts(pairs[..|pairs| - 1]) + [pairs[|pairs| - 1].0]
  }

  /** The responses of a list of pairs, in order. */
  function Seconds(pairs: seq<(Uid, Response)>): (responses: seq<Response>) {
    if |pairs| == 0 then [] else Seconds(pairs[..|pairs| - 1]) + [pairs[|pairs| - 1].1]
  }

  lemma {:induction false} UnzipAt(pairs: seq<(Uid, Response)>)
    ensures |Firsts(pairs)| == |pairs| && |Seconds(pairs)| == |pairs|
    ensures forall i :: 0 <= i < |pairs| ==> Firsts(pairs)[i] == pairs[i].0
    ensures forall i :: 0 <= i < |pairs| ==> Seconds(pairs)[i] == pairs[i].1
    decreases |pairs|
  {
    if |pairs| > 0 {
      UnzipAt(pairs[..|pairs| - 1]);
    }
  }

  /** `zip` keeps the first `min(len(uids), len(responses))` uids and responses, in order,
      and nothing else: unzipping gives them back. */
  lemma ZipUnzip(uids: seq<Uid>, responses: seq<Response>)
    ensures Firsts(Zip(uids, responses)) == uids[..PairCount(uids, responses)]
    ensures Seconds(Zip(uids, responses)) == responses[..PairCount(uids, responses)]
  {
    UnzipAt(Zip(uids, responses));
  }

  /** Zipping the two halves of a list of pairs gives the list back. */
  lemma UnzipZip(pairs: seq<(Uid, Response)>)
    ensures Zip(Firsts(pairs), Seconds(pairs)) == pairs
  {
    UnzipAt(pairs);
  }

  lemma {:induction false} CollectKeysOfPairs(protein: Protein, parse: Parser, pairs: seq<(Uid, Response)>, k: Uid)
    ensures k in Collect(protein, parse, pairs).entries <==> exists i :: 0 <= i < |pairs| && pairs[i].0 == k
    decreases |pairs|
  {
    if |pairs| > 0 {
      var init := pairs[..|pairs| - 1];
      CollectKeysOfPairs(protein, parse, init, k);
      if k in Collect(protein, parse, init).entries {
        var i :| 0 <= i < |init| && init[i].0 == k;
        assert pairs[i].0 == k;
      }
      if exists i :: 0 <= i < |pairs| && pairs[i].0 == k {
        var i :| 0 <= i < |pairs| && pairs[i].0 == k;
        if i < |init| { assert init[i].0 == k; }
      }
    }
  }

  lemma {:induction false} CollectLastOfPairs(protein: Protein, parse: Parser, pairs: seq<(Uid, Response)>, i: nat)
    requires i < |pairs|
    requires forall j :: i < j < |pairs| ==> pairs[j].0 != pairs[i].0
    ensures pairs[i].0 in Collect(protein, parse, pairs).entries
    ensures Collect(protein, parse, pairs).entries[pairs[i].0] == Entry(protein, parse, pairs[i].1)
    decreases |pairs|
  {
    if i < |pairs| - 1 {
      CollectLastOfPairs(protein, parse, pairs[..|pairs| - 1], i);
    }
  }

  /** `reward_data` has exactly the uids of the pairs `zip` yields as keys. */
  lemma RewardDataKeys(protein: Protein, parse: Parser, uids: seq<Uid>, responses: seq<Response>, k: Uid)
    ensures k in Collect(protein, parse, Zip(uids, responses)).entries <==>
      exists i :: 0 <= i < PairCount(uids, responses) && uids[i] == k
    ensures k in Collect(protein, parse, Zip(uids, responses)).uids <==>
      k in Collect(protein, parse, Zip(uids, responses)).entries
  {
    var pairs := Zip(uids, responses);
    CollectOrdered(protein, parse, pairs);
    CollectKeysOfPairs(protein, parse, pairs, k);
    if exists i :: 0 <= i < |pairs| && pairs[i].0 == k {
      var i :| 0 <= i < |pairs| && pairs[i].0 == k;
      assert uids[i] == k;
    }
    if exists i :: 0 <= i < PairCount(uids, responses) && uids[i] == k {
      var i :| 0 <= i < PairCount(uids, responses) && uids[i] == k;
      assert pairs[i].0 == k;
    }
  }

  /** A uid's entry comes from its last occurrence: `None` when that response's status code is
      not 200, the extractor's output for its worker directory when it is. */
  lemma RewardDataEntry(protein: Protein, parse: Parser, uids: seq<Uid>, responses: seq<Response>, i: nat)
    requires i < PairCount(uids, responses)
    requires forall j :: i < j < PairCount(uids, responses) ==> uids[j] != uids[i]
    ensures uids[i] in Collect(protein, parse, Zip(uids, responses)).entries
    ensures responses[i].statusCode != 200 ==>
      Collect(protein, parse, Zip(uids, responses)).entries[uids[i]] == None
    ensures responses[i].statusCode == 200 ==>
      Collect(protein, parse, Zip(uids, responses)).entries[uids[i]] ==
        Some(parse(WorkerDirectory(protein, responses[i].hotkey), protein.validatorDirectory))
  {
    CollectLastOfPairs(protein, parse, Zip(uids, responses), i);
  }

  // ---------------------------------------------------------------------------------------
  // Key order of reward_data
  // ---------------------------------------------------------------------------------------

  /** A dict's order lists each of its keys exactly once. */
  predicate Ordered(data: RewardData) {
    && (forall i, j :: 0 <= i < j < |data.uids| ==> data.uids[i] != data.uids[j])
    && (forall k :: k in data.uids ==> k in data.entries)
    && (forall k :: k in data.entries ==> k in data.uids)
  }

  /** Storing into a dict keeps every key listed once, and changes no other key's value. */
  lemma PutOrdered(data: RewardData, uid: Uid, value: Option<Dataset>)
    requires Ordered(data)
    ensures Ordered(Put(data, uid, value))
    ensures uid in Put(data, uid, value).entries && Put(data, uid, value).entries[uid] == value
    ensures forall k :: k in data.entries && k != uid ==>
      k in Put(data, uid, value).entries && Put(data, uid, value).entries[k] == data.entries[k]
  {
  }

  /** `reward_data` lists each of its uids exactly once. */
  lemma {:induction false} CollectOrdered(protein: Protein, parse: Parser, pairs: seq<(Uid, Response)>)
    ensures Ordered(Collect(protein, parse, pairs))
    decreases |pairs|
  {
    if |pairs| > 0 {
      var last := pairs[|pairs| - 1];
      CollectOrdered(protein, parse, pairs[..|pairs| - 1]);
      PutOrdered(Collect(protein, parse, pairs[..|pairs| - 1]), last.0, Entry(protein, parse, last.1));
    }
  }

  /** Where a uid sits in the order: its first (with `Ordered`, its only) position. */
  function Position(order: seq<Uid>, x: Uid): (i: nat)
    requires x in order
    ensures i < |order| && order[i] == x
    ensures forall j :: 0 <= j < i ==> order[j] != x
  {
    if order[0] == x then 0 else 1 + Position(order[1..], x)
  }

  lemma PositionAppend(order: seq<Uid>, y: Uid, x: Uid)
    requires x in order
    ensures x in order + [y] && Position(order + [y], x) == Position(order, x)
  {
    var q := Position(order, x);
    assert (order + [y])[q] == x;
  }

  lemma PositionLast(order: seq<Uid>, x: Uid)
    requires x !in order
    ensures x in order + [x] && Position(order + [x], x) == |order|
  {
    assert (order + [x])[|order|] == x;
  }

  /** Pair `i` is the first pair with its uid. */
  predicate FirstOccurrence(pairs: seq<(Uid, Response)>, i: nat) {
    i < |pairs| && forall j :: 0 <= j < i ==> pairs[j].0 != pairs[i].0
  }

  /** `reward_data` lists its uids in the order in which they first occur among the pairs. */
  lemma {:induction false} CollectOrderOfPairs(protein: Protein, parse: Parser, pairs: seq<(Uid, Response)>, i: nat, j: nat)
    requires i < j && FirstOccurrence(pairs, i) && FirstOccurrence(pairs, j)
    ensures var order := Collect(protein, parse, pairs).uids;
      && pairs[i].0 in order && pairs[j].0 in order
      && Position(order, pairs[i].0) < Position(order, pairs[j].0)
    decreases |pairs|
  {
    var n := |pairs|;
    var init := pairs[..n - 1];
    var last := pairs[n - 1];
    var before := Collect(protein, parse, init);
    assert Collect(protein, parse, pairs) == Put(before, last.0, Entry(protein, parse, last.1));
    CollectOrdered(protein, parse, init);
    CollectKeysOfPairs(protein, parse, init, pairs[i].0);
    assert init[i] == pairs[i];
    assert pairs[i].0 in before.uids;
    if j < n - 1 {
      assert init[j] == pairs[j];
      assert FirstOccurrence(init, i) && FirstOccurrence(init, j) by {
        assert forall k :: 0 <= k < j ==> init[k] == pairs[k];
      }
      CollectOrderOfPairs(protein, parse, init, i, j);
      if last.0 !in before.entries {
        PositionAppend(before.uids, last.0, pairs[i].0);
        PositionAppend(before.uids, last.0, pairs[j].0);
      }
    } else {
      CollectKeysOfPairs(protein, parse, init, last.0);
      assert forall k :: 0 <= k < |init| ==> init[k] == pairs[k];
      PositionAppend(before.uids, last.0, pairs[i].0);
      PositionLast(before.uids, last.0);
    }
  }

  /** `reward_data` holds each paired uid once, in the roster's order of first occurrence: of
      two uids, the one that occurs first in `uids` comes first. */
  lemma RewardDataOrder(protein: Protein, parse: Parser, uids: seq<Uid>, responses: seq<Response>, i: nat, j: nat)
    requires i < j < PairCount(uids, responses)
    requires forall k :: 0 <= k < i ==> uids[k] != uids[i]
    requires forall k :: 0 <= k < j ==> uids[k] != uids[j]
    ensures Ordered(Collect(protein, parse, Zip(uids, responses)))
    ensures var order := Collect(protein, parse, Zip(uids, responses)).uids;
      && uids[i] in order && uids[j] in order
      && Position(order, uids[i]) < Position(order, uids[j])
  {
    var pairs := Zip(uids, responses);
    CollectOrdered(protein, parse, pairs);
    assert FirstOccurrence(pairs, i) && FirstOccurrence(pairs, j);
    CollectOrderOfPairs(protein, parse, pairs, i, j);
  }

  /** The order follows the roster, and a repeated uid keeps its first place while taking its
      last value: uids `[1, 2, 1]` give the order `[1, 2]` with uid 1's entry from the third
      response, and the roster `[2, 1]` gives the order `[2, 1]`. */
  lemma InsertionOrderExample(protein: Protein, parse: Parser, a: Response, b: Response, c: Response)
    ensures Collect(protein, parse, Zip([1, 2, 1], [a, b, c])).uids == [1, 2]
    ensures Collect(protein, parse, Zip([1, 2, 1], [a, b, c])).entries[1] == Entry(protein, parse, c)
    ensures Collect(protein, parse, Zip([2, 1], [b, a])).uids == [2, 1]
  {
    var p3 := Zip([1, 2, 1], [a, b, c]);
    assert p3 == [(1, a), (2, b), (1, c)];
    assert p3[..2] == [(1, a), (2, b)] && p3[..2][..1] == [(1, a)] && [(1, a)][..0] == [];
    assert Collect(protein, parse, []) == NoData;
    var d1 := Collect(protein, parse, [(1, a)]);
    assert d1 == Put(NoData, 1, Entry(protein, parse, a)) && d1.uids == [1];
    var d2 := Collect(protein, parse, p3[..2]);
    assert d2 == Put(d1, 2, Entry(protein, parse, b)) && d2.uids == [1, 2];
    assert Collect(protein, parse, p3) == Put(d2, 1, Entry(protein, parse, c));
    var p2 := Zip([2, 1], [b, a]);
    assert p2 == [(2, b), (1, a)];
    assert p2[..1] == [(2, b)] && [(2, b)][..0] == [];
    assert Collect(protein, parse, []) == NoData;
    var e1 := Collect(protein, parse, [(2, b)]);
    assert e1 == Put(NoData, 2, Entry(protein, parse, b)) && e1.uids == [2];
    assert Collect(protein, parse, p2) == Put(e1, 1, Entry(protein, parse, a));
  }

  // ---------------------------------------------------------------------------------------
  // save_files and extractor calls
  // ---------------------------------------------------------------------------------------

  /** The number of pairs whose response has status 200. */
  function CountOk(pairs: seq<(Uid, Response)>): (n: nat)
    ensures n <= |pairs|
  {
    if |pairs| == 0 then 0
    else CountOk(pairs[..|pairs| - 1]) + (if pairs[|pairs| - 1].1.statusCode == 200 then 1 else 0)
  }

  /** One `save_files` call per pair, and one extractor call per pair with status 200. */
  lemma {:induction false} CallsLength(protein: Protein, pairs: seq<(Uid, Response)>)
    ensures |Calls(protein, pairs)| == |pairs| + CountOk(pairs)
    decreases |pairs|
  {
    if |pairs| > 0 {
      CallsLength(protein, pairs[..|pairs| - 1]);
    }
  }

  /** Walking two runs of pairs one after the other makes the calls of the first run, then
      those of the second. */
  lemma {:induction false} CallsAppend(protein: Protein, a: seq<(Uid, Response)>, b: seq<(Uid, Response)>)
    ensures Calls(protein, a + b) == Calls(protein, a) + Calls(protein, b)
    decreases |b|
  {
    if |b| == 0 {
      assert a + b == a;
    } else {
      assert (a + b)[..|a + b| - 1] == a + b[..|b| - 1];
      CallsAppend(protein, a, b[..|b| - 1]);
    }
  }

  lemma CallsSingle(protein: Protein, p: (Uid, Response))
    ensures Calls(protein, [p]) == CallsFor(protein, p.1)
  {
    assert [p][..0] == [];
  }

  /** The calls around pair `i`: those of the pairs before it, its own, those after it. */
  lemma CallsSplit(protein: Protein, pairs: seq<(Uid, Response)>, i: nat)
    requires i < |pairs|
    ensures Calls(protein, pairs) ==
      Calls(protein, pairs[..i]) + CallsFor(protein, pairs[i].1) + Calls(protein, pairs[i + 1..])
  {
    var before, rest := pairs[..i], pairs[i + 1..];
    assert pairs == before + [pairs[i]] + rest;
    CallsAppend(protein, before + [pairs[i]], rest);
    CallsAppend(protein, before, [pairs[i]]);
    CallsSingle(protein, pairs[i]);
  }

  /** Walking pairs starts with a `save_files` call. */
  lemma CallsStart(protein: Protein, pairs: seq<(Uid, Response)>)
    requires 0 < |pairs|
    ensures 0 < |Calls(protein, pairs)| && Calls(protein, pairs)[0].Save?
  {
    CallsSplit(protein, pairs, 0);
    assert pairs[..0] == [];
  }

  /** The calls for pair `i` start at position `i + CountOk(pairs[..i])`: first `save_files`
      into that worker's directory, whatever its status; then, for status 200 only, the
      extractor on that same directory; after a failed response comes the next pair's save. */
  lemma CallsAt(protein: Protein, pairs: seq<(Uid, Response)>, i: nat)
    requires i < |pairs|
    ensures var calls := Calls(protein, pairs);
      var k := i + CountOk(pairs[..i]);
      var resp := pairs[i].1;
      var dir := WorkerDirectory(protein, resp.hotkey);
      && k < |calls| && calls[k] == Save(resp.mdOutput, dir)
      && (resp.statusCode == 200 ==>
            k + 1 < |calls| && calls[k + 1] == Parse(dir, protein.validatorDirectory))
      && (resp.statusCode != 200 ==> k + 1 == |calls| || calls[k + 1].Save?)
  {
    CallsSplit(protein, pairs, i);
    CallsLength(protein, pairs[..i]);
    if i + 1 < |pairs| {
      CallsStart(protein, pairs[i + 1..]);
    }
  }

  /** Every extractor call comes right after the `save_files` call into the same worker
      directory, and is given the validator directory `v`. */
  predicate SavedBeforeParse(calls: seq<Call>, v: Path) {
    forall m :: 0 <= m < |calls| && calls[m].Parse? ==>
      && m > 0 && calls[m - 1].Save?
      && calls[m - 1].outputDirectory == calls[m].minerDirectory
      && calls[m].validatorDirectory == v
  }

  /** `get_rewards` stages a worker's files before it runs the extractor on them. */
  lemma {:induction false} ParseFollowsSave(protein: Protein, pairs: seq<(Uid, Response)>)
    ensures SavedBeforeParse(Calls(protein, pairs), protein.validatorDirectory)
    decreases |pairs|
  {
    if |pairs| > 0 {
      var init := Calls(protein, pairs[..|pairs| - 1]);
      var last := CallsFor(protein, pairs[|pairs| - 1].1);
      var calls := Calls(protein, pairs);
      ParseFollowsSave(protein, pairs[..|pairs| - 1]);
      assert SavedBeforeParse(init, protein.validatorDirectory);
      assert calls == init + last;
      forall m | 0 <= m < |calls| && calls[m].Parse?
        ensures m > 0 && calls[m - 1].Save?
        ensures calls[m - 1].outputDirectory == calls[m].minerDirectory
        ensures calls[m].validatorDirectory == protein.validatorDirectory
      {
        if m < |init| {
          assert calls[m] == init[m] && init[m].Parse?;
          assert calls[m - 1] == init[m - 1];
        } else {
          assert m == |init| + 1 && calls[m] == last[1] && calls[m - 1] == last[0];
        }
      }
    }
  }

  /** The extractor call a response leads to: status 200, in that worker's directory. */
  predicate ParsesInto(protein: Protein, resp: Response, d: Path) {
    resp.statusCode == 200 && d == WorkerDirectory(protein, resp.hotkey)
  }

  /** Some pair is a status-200 response whose worker directory is `d`. */
  predicate AnyParsesInto(protein: Protein, pairs: seq<(Uid, Response)>, d: Path) {
    exists i :: 0 <= i < |pairs| && ParsesInto(protein, pairs[i].1, d)
  }

  lemma AnyParsesIntoStep(protein: Protein, pairs: seq<(Uid, Response)>, d: Path)
    requires 0 < |pairs|
    ensures AnyParsesInto(protein, pairs, d) <==>
      AnyParsesInto(protein, pairs[..|pairs| - 1], d) || ParsesInto(protein, pairs[|pairs| - 1].1, d)
  {
    var init := pairs[..|pairs| - 1];
    if AnyParsesInto(protein, init, d) {
      var i :| 0 <= i < |init| && ParsesInto(protein, init[i].1, d);
      assert pairs[i] == init[i];
    }
    if AnyParsesInto(protein, pairs, d) {
      var i :| 0 <= i < |pairs| && ParsesInto(protein, pairs[i].1, d);
      if i < |init| { assert pairs[i] == init[i]; }
    }
  }

  lemma {:induction false} ParseCallsOfPairs(protein: Protein, pairs: seq<(Uid, Response)>, d: Path, v: Path)
    ensures Parse(d, v) in Calls(protein, pairs) <==>
      v == protein.validatorDirectory && AnyParsesInto(protein, pairs, d)
    decreases |pairs|
  {
    if |pairs| > 0 {
      var init := pairs[..|pairs| - 1];
      var last := pairs[|pairs| - 1].1;
      ParseCallsOfPairs(protein, init, d, v);
      AnyParsesIntoStep(protein, pairs, d);
      assert Calls(protein, pairs) == Calls(protein, init) + CallsFor(protein, last);
      assert Parse(d, v) in CallsFor(protein, last) <==>
        v == protein.validatorDirectory && ParsesInto(protein, last, d);
    }
  }

  /** The extractor is called, with the validator directory, on the directory of every paired
      response with status 200, and on no other directory. */
  lemma ParsedExactlySuccesses(protein: Protein, uids: seq<Uid>, responses: seq<Response>, d: Path, v: Path)
    ensures Parse(d, v) in Calls(protein, Zip(uids, responses)) <==>
      v == protein.validatorDirectory &&
      exists i :: 0 <= i < PairCount(uids, responses) && ParsesInto(protein, responses[i], d)
  {
    var pairs := Zip(uids, responses);
    ParseCallsOfPairs(protein, pairs, d, v);
    if exists i :: 0 <= i < |pairs| && ParsesInto(protein, pairs[i].1, d) {
      var i :| 0 <= i < |pairs| && ParsesInto(protein, pairs[i].1, d);
      assert pairs[i].1 == responses[i];
    }
    if exists i :: 0 <= i < PairCount(uids, responses) && ParsesInto(protein, responses[i], d) {
      var i :| 0 <= i < PairCount(uids, responses) && ParsesInto(protein, responses[i], d);
      assert pairs[i].1 == responses[i];
    }
  }

  /** When every request failed, the extractor is never called: the calls are the pairs'
      `save_files` calls, one each, in order. */
  lemma {:induction false} NothingParsedOnFailure(protein: Protein, pairs: seq<(Uid, Response)>)
    requires forall i :: 0 <= i < |pairs| ==> pairs[i].1.statusCode != 200
    ensures Calls(protein, pairs) ==
      seq(|pairs|, i requires 0 <= i < |pairs| =>
        Save(pairs[i].1.mdOutput, WorkerDirectory(protein, pairs[i].1.hotkey)))
    decreases |pairs|
  {
    if |pairs| > 0 {
      var init := pairs[..|pairs| - 1];
      NothingParsedOnFailure(protein, init);
    }
  }

  // ---------------------------------------------------------------------------------------
  // Worker directories and size summary
  // ---------------------------------------------------------------------------------------

  /** Two workers share a directory exactly when their hotkeys share the first eight
      characters. */
  lemma SharedWorkerDirectory(protein: Protein, h1: string, h2: string)
    requires !Paths.IsAbsolute(h1) && !Paths.IsAbsolute(h2)
    ensures WorkerDirectory(protein, h1) == WorkerDirectory(protein, h2) <==>
      HotkeyPrefix(h1) == HotkeyPrefix(h2)
  {
    Paths.JoinInjective(protein.validatorDirectory, HotkeyPrefix(h1), HotkeyPrefix(h2));
  }

  /** The size summary has one entry per output file, counting at least one and at most four
      bytes per character, exactly one for ASCII content. */
  lemma SizeSummaryBounds(resp: Response, name: string)
    ensures name in SizeSummary(resp) <==> name in resp.mdOutput
    ensures name in resp.mdOutput ==>
      |resp.mdOutput[name]| <= SizeSummary(resp)[name] <= 4 * |resp.mdOutput[name]|
    ensures name in resp.mdOutput ==>
      (SizeSummary(resp)[name] == |resp.mdOutput[name]| <==>
         forall i :: 0 <= i < |resp.mdOutput[name]| ==> resp.mdOutput[name][i] as int < 0x80)
  {
    if name in resp.mdOutput {
      Utf8.LengthBounds(resp.mdOutput[name]);
    }
  }

  // ---------------------------------------------------------------------------------------
  // get_rewards as a whole
  // ---------------------------------------------------------------------------------------

  /** `get_rewards` fails exactly when the two models report different numbers of rewards, or
      when there was no pair to walk; otherwise it returns one mean per reward position. */
  lemma RewardsOutcome(protein: Protein, responses: seq<Response>, uids: seq<Uid>,
                       parse: Parser, energy: RewardModel, rmsd: RewardModel)
    ensures var data := Collect(protein, parse, Zip(uids, responses));
      var r := Rewards(protein, responses, uids, parse, energy, rmsd);
      && (r.Ok? <==> PairCount(uids, responses) > 0 && |energy(data).rewards| == |rmsd(data).rewards|)
      && (r.Err? && |energy(data).rewards| != |rmsd(data).rewards| ==> r.error == RaggedRewards)
      && (r.Ok? ==> r.value.0.Vector? && |r.value.0.values| == |energy(data).rewards|)
      && (PairCount(uids, responses) == 0 && |energy(data).rewards| == |rmsd(data).rewards| ==>
            r == Err(SummaryUnbound))
  {
    var data := Collect(protein, parse, Zip(uids, responses));
    var events := [energy(data), rmsd(data)];
    assert Rows(events)[0] == Values(energy(data).rewards);
    assert Rows(events)[1] == Values(rmsd(data).rewards);
    AggregateShape(events);
  }

  /** Only the last paired response's size summary reaches the returned dict: it overrides
      same-named model fields, and every other key is the models' merged diagnostics. */
  lemma OnlyLastSummaryMerged(protein: Protein, responses: seq<Response>, uids: seq<Uid>,
                              parse: Parser, energy: RewardModel, rmsd: RewardModel, name: string)
    requires Rewards(protein, responses, uids, parse, energy, rmsd).Ok?
    ensures var n := PairCount(uids, responses);
      var data := Collect(protein, parse, Zip(uids, responses));
      var events := Rewards(protein, responses, uids, parse, energy, rmsd).value.1;
      var merged := Merge([energy(data), rmsd(data)]);
      && n > 0
      && (name in responses[n - 1].mdOutput ==>
            name in events && events[name] == Count(Utf8.Length(responses[n - 1].mdOutput[name])))
      && (name !in responses[n - 1].mdOutput ==>
            (name in events <==> name in merged) && (name in events ==> events[name] == merged[name]))
  {
    ZipAt(uids, responses);
  }
}
