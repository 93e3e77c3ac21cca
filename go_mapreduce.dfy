/**
 The Go job: `mapRecord` turns each CSV row into at most one (passenger, "1")
 pair, `shuffle` groups the pairs by passenger into lists, `reduce` sends one
 (passenger, decimal count) pair per list, and the loop at the end of `main`
 keeps the highest count and every passenger tied at it.

 The map goroutines finish in any order, so the pairs reach `shuffle` in some
 permutation of the rows' order; `Run` takes that permutation as a parameter.
 Go's map iteration order in `reduce` is unspecified; `Reduce` picks the next
 key with `:|`, so its contract holds for every order.
 */
module GoMapReduce {
  import opened Records
  import opened DecimalText

  /** A `[2]string` sent on a channel: a key and its value. */
  datatype KeyValue = KeyValue(key: string, value: string)

  /** The unit value each valid row contributes. */
  const One: string := "1"

  // ---------------------------------------------------------------- map

  /** `mapRecord`: a row of exactly `Width` fields yields (first field, "1"); any other row yields nothing. */
  function MapRecord(record: Record): (r: Option<KeyValue>)
    ensures r.Some? <==> IsValid(record)
    ensures r.Some? ==> r.value == KeyValue(record[0], One)
  {
    if |record| != Width then None else Some(KeyValue(record[0], One))
  }

  /** The pairs the map goroutines send, listed in row order. */
  function Emissions(records: seq<Record>): (sent: seq<KeyValue>)
    ensures |sent| <= |records|
    ensures forall i | 0 <= i < |sent| :: sent[i].value == One
  {
    if records == [] then []
    else
      var sent := match MapRecord(records[|records| - 1]) case Some(kv) => [kv] case None => [];
      Emissions(records[..|records| - 1]) + sent
  }

  /** Number of valid rows whose first field is `k`: the count the job is meant to report. */
  function RowCount(records: seq<Record>, k: string): nat
  {
    if records == [] then 0
    else
      var last := records[|records| - 1];
      RowCount(records[..|records| - 1], k) + (if IsValid(last) && last[0] == k then 1 else 0)
  }

  /** Every pair sent is a unit pair, and there is one (k, "1") per valid row with first field k. */
  lemma {:induction false} EmissionsAreMapped(records: seq<Record>)
    ensures forall kv | kv in Emissions(records) :: kv.value == One
    ensures forall k :: multiset(Emissions(records))[KeyValue(k, One)] == RowCount(records, k)
    ensures |Emissions(records)| == |records| - InvalidRows(records)
    decreases |records|
  {
    if records != [] {
      var p := records[..|records| - 1];
      var last := records[|records| - 1];
      EmissionsAreMapped(p);
    }
  }

  /** Number of rows `mapRecord` drops. */
  function InvalidRows(records: seq<Record>): (n: nat)
    ensures n <= |records|
  {
    if records == [] then 0
    else InvalidRows(records[..|records| - 1]) + (if IsValid(records[|records| - 1]) then 0 else 1)
  }

  /** A passenger has a positive count exactly when some valid row carries it. */
  lemma {:induction false} RowCountPositive(records: seq<Record>, k: string)
    ensures RowCount(records, k) > 0 <==> exists i | 0 <= i < |records| :: IsValid(records[i]) && records[i][0] == k
    decreases |records|
  {
    if records != [] {
      var p := records[..|records| - 1];
      RowCountPositive(p, k);
      if RowCount(p, k) > 0 {
        var i :| 0 <= i < |p| && IsValid(p[i]) && p[i][0] == k;
        assert records[i] == p[i];
      }
      if exists i | 0 <= i < |records| :: IsValid(records[i]) && records[i][0] == k {
        var i :| 0 <= i < |records| && IsValid(records[i]) && records[i][0] == k;
        if i < |p| {
          assert p[i] == records[i];
        }
      }
    }
  }

  // ---------------------------------------------------------------- shuffle

  /** The keys that occur in a stream of pairs. */
  function KeySet(s: seq<KeyValue>): set<string>
  {
    set kv | kv in s :: kv.key
  }

  /** The values sent with key `k`, in arrival order. */
  function ValuesFor(s: seq<KeyValue>, k: string): seq<string>
  {
    if s == [] then []
    else ValuesFor(s[..|s| - 1], k) + (if s[|s| - 1].key == k then [s[|s| - 1].value] else [])
  }

  /** Number of pairs with key `k` in a stream. */
  function KeyCount(s: seq<KeyValue>, k: string): nat
  {
    |KeyIndices(s, k)|
  }

  /** Positions of the pairs with key `k`. */
  function KeyIndices(s: seq<KeyValue>, k: string): set<int>
  {
    set i | 0 <= i < |s| && s[i].key == k
  }

  /** Appending one pair extends only its own key's list. */
  lemma ValuesForSnoc(s: seq<KeyValue>, kv: KeyValue, k: string)
    ensures ValuesFor(s + [kv], k) == ValuesFor(s, k) + (if kv.key == k then [kv.value] else [])
  {
    assert (s + [kv])[..|s|] == s;
  }

  lemma KeySetSnoc(s: seq<KeyValue>, kv: KeyValue)
    ensures KeySet(s + [kv]) == KeySet(s) + {kv.key}
  {
    assert forall x | x in s + [kv] :: x in s || x == kv;
  }

  /** The map `shuffle` holds once it has drained `s`: every key of `s` with its values. */
  ghost predicate GroupsOf(data: map<string, seq<string>>, s: seq<KeyValue>)
  {
    && data.Keys == KeySet(s)
    && (forall k | k in data :: data[k] == ValuesFor(s, k) && data[k] != [])
    && (forall k | k !in data :: ValuesFor(s, k) == [])
  }

  /** One iteration of `shuffle`'s loop keeps `GroupsOf`. */
  lemma ShuffleStep(data: map<string, seq<string>>, s: seq<KeyValue>, kv: KeyValue)
    requires GroupsOf(data, s)
    ensures GroupsOf(data[kv.key := (if kv.key in data then data[kv.key] else []) + [kv.value]], s + [kv])
  {
    KeySetSnoc(s, kv);
    forall k ensures ValuesFor(s + [kv], k) == ValuesFor(s, k) + (if kv.key == k then [kv.value] else []) {
      ValuesForSnoc(s, kv, k);
    }
  }

  /** `shuffle`: drains the stream into a map from key to the list of its values in arrival order. */
  method Shuffle(input: seq<KeyValue>) returns (data: map<string, seq<string>>)
    ensures data.Keys == KeySet(input)
    ensures forall k | k in data :: data[k] == ValuesFor(input, k) && data[k] != []
  {
    data := map[];
    for i := 0 to |input|
      invariant GroupsOf(data, input[..i])
    {
      var kv := input[i];
      ShuffleStep(data, input[..i], kv);
      // a missing key reads as a nil slice, and `append` to nil starts a new list
      var list := if kv.key in data then data[kv.key] else [];
      data := data[kv.key := list + [kv.value]];
      assert input[..i + 1] == input[..i] + [kv];
    }
    assert input[..|input|] == input;
  }

  /** The list for a key holds exactly as many values as the stream has pairs with that key. */
  lemma {:induction false} ValuesForLength(s: seq<KeyValue>, k: string)
    ensures |ValuesFor(s, k)| == KeyCount(s, k)
    ensures (forall i | 0 <= i < |s| :: s[i].value == One) ==> forall v | v in ValuesFor(s, k) :: v == One
    decreases |s|
  {
    if s != [] {
      var p := s[..|s| - 1];
      ValuesForLength(p, k);
      KeyCountSnoc(s, k);
      assert forall i | 0 <= i < |p| :: p[i] == s[i];
    }
  }

  /** Counting the pairs with key `k` one pair at a time. */
  lemma KeyCountSnoc(s: seq<KeyValue>, k: string)
    requires s != []
    ensures KeyCount(s, k) == KeyCount(s[..|s| - 1], k) + (if s[|s| - 1].key == k then 1 else 0)
  {
    var n := |s| - 1;
    var rest := if s[n].key == k then {n} else {};
    KeyIndicesSnoc(s, k);
    assert KeyIndices(s[..n], k) !! rest;
  }

  lemma KeyIndicesSnoc(s: seq<KeyValue>, k: string)
    requires s != []
    ensures KeyIndices(s, k) == KeyIndices(s[..|s| - 1], k) + (if s[|s| - 1].key == k then {|s| - 1} else {})
  {
    var n := |s| - 1;
    forall i | 0 <= i < n ensures s[..n][i] == s[i] {
    }
  }

  /** For a stream of unit pairs, the per-key count depends only on the multiset of pairs. */
  lemma {:induction false} ValuesForMultiplicity(s: seq<KeyValue>, k: string)
    requires forall kv | kv in s :: kv.value == One
    ensures |ValuesFor(s, k)| == multiset(s)[KeyValue(k, One)]
    decreases |s|
  {
    if s != [] {
      var p := s[..|s| - 1];
      assert s == p + [s[|s| - 1]];
      ValuesForMultiplicity(p, k);
    }
  }

  /** A key has a non-empty list exactly when it occurs in the stream. */
  lemma {:induction false} ValuesForPresent(s: seq<KeyValue>, k: string)
    ensures ValuesFor(s, k) != [] <==> k in KeySet(s)
    decreases |s|
  {
    if s != [] {
      var p := s[..|s| - 1];
      assert s == p + [s[|s| - 1]];
      ValuesForPresent(p, k);
    }
  }

  /**
   Whatever order the map goroutines deliver in, the list `shuffle` builds for
   a passenger has one element per valid row of that passenger.
   */
  lemma ArrivalCounts(records: seq<Record>, arrival: seq<KeyValue>, k: string)
    requires multiset(arrival) == multiset(Emissions(records))
    ensures |ValuesFor(arrival, k)| == RowCount(records, k)
    ensures k in KeySet(arrival) <==> RowCount(records, k) > 0
    ensures forall v | v in ValuesFor(arrival, k) :: v == One
  {
    EmissionsAreMapped(records);
    assert forall kv | kv in arrival :: kv.value == One by {
      forall kv | kv in arrival ensures kv.value == One {
        assert kv in multiset(Emissions(records));
      }
    }
    ValuesForMultiplicity(arrival, k);
    ValuesForPresent(arrival, k);
    ValuesForLength(arrival, k);
  }

  // ---------------------------------------------------------------- reduce

  /** The count the selector reads from a reduced pair. */
  function CountOf(kv: KeyValue): nat
  {
    ScannedCount(kv.value)
  }

  /**
   `reduce`: one pair per key of `data`, carrying the decimal text of its list's
   length. Keys come out in an order the caller cannot rely on.
   */
  method Reduce(data: map<string, seq<string>>) returns (out: seq<KeyValue>)
    ensures forall i | 0 <= i < |out| :: out[i].key in data && out[i].value == FormatCount(|data[out[i].key]|)
    ensures forall i, j | 0 <= i < j < |out| :: out[i].key != out[j].key
    ensures forall k | k in data :: exists i | 0 <= i < |out| :: out[i].key == k
  {
    out := [];
    var rest := data.Keys;
    while rest != {}
      invariant rest <= data.Keys
      invariant forall i | 0 <= i < |out| :: out[i].key in data && out[i].key !in rest
      invariant forall i | 0 <= i < |out| :: out[i].value == FormatCount(|data[out[i].key]|)
      invariant forall i, j | 0 <= i < j < |out| :: out[i].key != out[j].key
      invariant forall k | k in data && k !in rest :: exists i | 0 <= i < |out| :: out[i].key == k
      decreases rest
    {
      var k :| k in rest;
      ghost var before := out;
      out := out + [KeyValue(k, FormatCount(|data[k]|))];
      assert forall i | 0 <= i < |before| :: out[i] == before[i];
      assert out[|before|].key == k;
      rest := rest - {k};
    }
  }

  // ---------------------------------------------------------------- select

  /** The keys of the pairs whose count is `c`, in stream order. */
  function KeysWithCount(s: seq<KeyValue>, c: nat): (r: seq<string>)
    ensures |r| <= |s|
  {
    if s == [] then []
    else
      var last := s[|s| - 1];
      KeysWithCount(s[..|s| - 1], c) + (if CountOf(last) == c then [last.key] else [])
  }

  /** A key is listed exactly when some pair carries it with count `c`. */
  lemma {:induction false} KeysWithCountMembers(s: seq<KeyValue>, c: nat)
    ensures forall k :: k in KeysWithCount(s, c) <==> exists i | 0 <= i < |s| :: s[i].key == k && CountOf(s[i]) == c
    decreases |s|
  {
    if s != [] {
      var p := s[..|s| - 1];
      KeysWithCountMembers(p, c);
      forall k ensures k in KeysWithCount(s, c) <==> exists i | 0 <= i < |s| :: s[i].key == k && CountOf(s[i]) == c {
        if exists i | 0 <= i < |s| :: s[i].key == k && CountOf(s[i]) == c {
          var i :| 0 <= i < |s| && s[i].key == k && CountOf(s[i]) == c;
          if i < |p| {
            assert p[i] == s[i];
          }
        }
        if k in KeysWithCount(p, c) {
          var i :| 0 <= i < |p| && p[i].key == k && CountOf(p[i]) == c;
          assert s[i] == p[i];
        }
      }
    }
  }

  /** No key is tied at a count above every count in the stream. */
  lemma {:induction false} KeysWithCountAbove(s: seq<KeyValue>, c: nat)
    requires forall i | 0 <= i < |s| :: CountOf(s[i]) < c
    ensures KeysWithCount(s, c) == []
    decreases |s|
  {
    if s != [] {
      KeysWithCountAbove(s[..|s| - 1], c);
    }
  }

  /** Distinct keys in the stream stay distinct in the tie list. */
  lemma {:induction false} KeysWithCountDistinct(s: seq<KeyValue>, c: nat)
    requires forall i, j | 0 <= i < j < |s| :: s[i].key != s[j].key
    ensures forall i, j | 0 <= i < j < |KeysWithCount(s, c)| :: KeysWithCount(s, c)[i] != KeysWithCount(s, c)[j]
    decreases |s|
  {
    if s != [] {
      var p := s[..|s| - 1];
      KeysWithCountDistinct(p, c);
      KeysWithCountMembers(p, c);
      var last := s[|s| - 1];
      if CountOf(last) == c {
        assert last.key !in KeysWithCount(p, c);
      }
    }
  }

  /** No key of the first `i` pairs is tied at a count above all of theirs. */
  lemma KeysWithCountPrefixAbove(s: seq<KeyValue>, i: nat, c: nat)
    requires i <= |s|
    requires forall j | 0 <= j < i :: CountOf(s[j]) < c
    ensures KeysWithCount(s[..i], c) == []
  {
    assert forall j | 0 <= j < |s[..i]| :: s[..i][j] == s[j];
    KeysWithCountAbove(s[..i], c);
  }

  /** Reading one more pair extends the tie list for `c` by that pair's key exactly when its count is `c`. */
  lemma KeysWithCountLast(s: seq<KeyValue>, i: nat, c: nat)
    requires i < |s|
    ensures KeysWithCount(s[..i + 1], c) == KeysWithCount(s[..i], c) + (if CountOf(s[i]) == c then [s[i].key] else [])
  {
    assert s[..i + 1][..i] == s[..i];
  }

  /**
   The selector loop of `main`: `high` starts at 0 and the tie list empty; a
   larger count replaces both, an equal count appends its key.
   */
  method SelectHighest(reduced: seq<KeyValue>) returns (high: nat, winners: seq<string>)
    ensures forall i | 0 <= i < |reduced| :: CountOf(reduced[i]) <= high
    ensures high == 0 || exists i | 0 <= i < |reduced| :: CountOf(reduced[i]) == high
    ensures winners == KeysWithCount(reduced, high)
  {
    high := 0;
    winners := [];
    for i := 0 to |reduced|
      invariant forall j | 0 <= j < i :: CountOf(reduced[j]) <= high
      invariant high == 0 || exists j | 0 <= j < i :: CountOf(reduced[j]) == high
      invariant winners == KeysWithCount(reduced[..i], high)
    {
      var kv := reduced[i];
      var numFlights := ScannedCount(kv.value);
      if numFlights > high {
        KeysWithCountPrefixAbove(reduced, i, numFlights);
        high := numFlights;
        winners := [kv.key];
      } else if numFlights == high {
        winners := winners + [kv.key];
      }
      KeysWithCountLast(reduced, i, high);
    }
    assert reduced[..|reduced|] == reduced;
  }

  // ---------------------------------------------------------------- pipeline

  /** The reduced pairs name, once each, every passenger with valid rows, with that passenger's row count. */
  ghost predicate CountsOf(records: seq<Record>, reduced: seq<KeyValue>)
  {
    && (forall i | 0 <= i < |reduced| :: CountOf(reduced[i]) == RowCount(records, reduced[i].key) > 0)
    && (forall i, j | 0 <= i < j < |reduced| :: reduced[i].key != reduced[j].key)
    && (forall k | RowCount(records, k) > 0 :: exists i | 0 <= i < |reduced| :: reduced[i].key == k)
  }

  /** Shuffling any arrival order and reducing the result gives every passenger its row count. */
  lemma ReducedCounts(records: seq<Record>, arrival: seq<KeyValue>, data: map<string, seq<string>>, reduced: seq<KeyValue>)
    requires multiset(arrival) == multiset(Emissions(records))
    requires data.Keys == KeySet(arrival)
    requires forall k | k in data :: data[k] == ValuesFor(arrival, k)
    requires forall i | 0 <= i < |reduced| :: reduced[i].key in data && reduced[i].value == FormatCount(|data[reduced[i].key]|)
    requires forall i, j | 0 <= i < j < |reduced| :: reduced[i].key != reduced[j].key
    requires forall k | k in data :: exists i | 0 <= i < |reduced| :: reduced[i].key == k
    ensures CountsOf(records, reduced)
  {
    forall i | 0 <= i < |reduced|
      ensures CountOf(reduced[i]) == RowCount(records, reduced[i].key) > 0
    {
      var k := reduced[i].key;
      ArrivalCounts(records, arrival, k);
      ParseFormat(|data[k]|);
    }
    forall k | RowCount(records, k) > 0 ensures exists i | 0 <= i < |reduced| :: reduced[i].key == k {
      ArrivalCounts(records, arrival, k);
    }
  }

  /** A bound on the reduced counts bounds every passenger's row count. */
  lemma CountsBounded(records: seq<Record>, reduced: seq<KeyValue>, high: nat)
    requires CountsOf(records, reduced)
    requires forall i | 0 <= i < |reduced| :: CountOf(reduced[i]) <= high
    ensures forall k :: RowCount(records, k) <= high
  {
    forall k ensures RowCount(records, k) <= high {
      if RowCount(records, k) > 0 {
        var i :| 0 <= i < |reduced| && reduced[i].key == k;
      }
    }
  }

  /** The tie list for `c` over such pairs holds, once each, exactly the passengers with `c` rows. */
  lemma CountsWinners(records: seq<Record>, reduced: seq<KeyValue>, c: nat)
    requires CountsOf(records, reduced)
    ensures forall k :: k in KeysWithCount(reduced, c) <==> 0 < RowCount(records, k) == c
    ensures forall i, j | 0 <= i < j < |KeysWithCount(reduced, c)| :: KeysWithCount(reduced, c)[i] != KeysWithCount(reduced, c)[j]
  {
    KeysWithCountMembers(reduced, c);
    KeysWithCountDistinct(reduced, c);
    forall k ensures k in KeysWithCount(reduced, c) <==> 0 < RowCount(records, k) == c {
      if 0 < RowCount(records, k) == c {
        var i :| 0 <= i < |reduced| && reduced[i].key == k;
      }
    }
  }

  /** The selector run over such pairs ends with the highest row count and exactly the passengers that have it. */
  lemma SelectCounts(records: seq<Record>, reduced: seq<KeyValue>, high: nat, winners: seq<string>)
    requires CountsOf(records, reduced)
    requires forall i | 0 <= i < |reduced| :: CountOf(reduced[i]) <= high
    requires high == 0 || exists i | 0 <= i < |reduced| :: CountOf(reduced[i]) == high
    requires winners == KeysWithCount(reduced, high)
    ensures forall k :: RowCount(records, k) <= high
    ensures high > 0 ==> exists k :: RowCount(records, k) == high
    ensures high == 0 <==> forall i | 0 <= i < |records| :: !IsValid(records[i])
    ensures forall k :: k in winners <==> 0 < RowCount(records, k) == high
    ensures forall i, j | 0 <= i < j < |winners| :: winners[i] != winners[j]
    ensures high == 0 ==> winners == []
  {
    CountsBounded(records, reduced, high);
    CountsWinners(records, reduced, high);
    if high > 0 {
      var i :| 0 <= i < |reduced| && CountOf(reduced[i]) == high;
      assert RowCount(records, reduced[i].key) == high;
      var k := reduced[i].key;
      RowCountPositive(records, k);
    }
    forall i | 0 <= i < |records| && IsValid(records[i]) ensures high > 0 {
      RowCountPositive(records, records[i][0]);
    }
    if winners != [] {
      assert winners[0] in winners;
    }
  }

  /**
   The whole job on `records`, where `arrival` is the order in which the map
   goroutines' pairs reach `shuffle`. The answer does not depend on that
   order nor on the map iteration order inside `reduce`: `high` is the largest
   number of valid rows sharing a first field, and `winners` lists, once each,
   exactly the passengers with that many rows.
   */
  method Run(records: seq<Record>, arrival: seq<KeyValue>) returns (high: nat, winners: seq<string>)
    requires multiset(arrival) == multiset(Emissions(records))
    ensures forall k :: RowCount(records, k) <= high
    ensures high > 0 ==> exists k :: RowCount(records, k) == high
    ensures high == 0 <==> forall i | 0 <= i < |records| :: !IsValid(records[i])
    ensures forall k :: k in winners <==> 0 < RowCount(records, k) == high
    ensures forall i, j | 0 <= i < j < |winners| :: winners[i] != winners[j]
    ensures high == 0 ==> winners == []
  {
    var data := Shuffle(arrival);
    var reduced := Reduce(data);
    ReducedCounts(records, arrival, data, reduced);
    high, winners := SelectHighest(reduced);
    SelectCounts(records, reduced, high, winners);
  }

  /**
   Any two answers `Run` may give for the same rows (under different arrival
   and reduce orders) have the same maximum and the same winners.
   */
  lemma RunAnswerUnique(records: seq<Record>, high1: nat, winners1: seq<string>, high2: nat, winners2: seq<string>)
    requires forall k :: RowCount(records, k) <= high1
    requires high1 > 0 ==> exists k :: RowCount(records, k) == high1
    requires high1 == 0 <==> forall i | 0 <= i < |records| :: !IsValid(records[i])
    requires forall k :: k in winners1 <==> 0 < RowCount(records, k) == high1
    requires forall k :: RowCount(records, k) <= high2
    requires high2 > 0 ==> exists k :: RowCount(records, k) == high2
    requires high2 == 0 <==> forall i | 0 <= i < |records| :: !IsValid(records[i])
    requires forall k :: k in winners2 <==> 0 < RowCount(records, k) == high2
    ensures high1 == high2
    ensures (set k | k in winners1) == (set k | k in winners2)
  {
  }

  // ---------------------------------------------------------------- example

  /** A valid row for passenger `k`; the other five columns do not matter. */
  function Row(k: string): Record
  {
    [k, "", "", "", "", ""]
  }

  /** Row counts of the rows A, A, B, A, C, B, plus a 4-column row. */
  lemma ExampleCounts(k: string)
    ensures var rows := [Row("A"), Row("A"), Row("B"), ["A", "", "", ""], Row("A"), Row("C"), Row("B")];
      RowCount(rows, k) == if k == "A" then 3 else if k == "B" then 2 else if k == "C" then 1 else 0
  {
    var rows := [Row("A"), Row("A"), Row("B"), ["A", "", "", ""], Row("A"), Row("C"), Row("B")];
    var a, b, c := if k == "A" then 1 else 0, if k == "B" then 1 else 0, if k == "C" then 1 else 0;
    assert RowCount(rows[..1], k) == a by { assert rows[..1][..0] == []; }
    assert RowCount(rows[..2], k) == 2 * a by { assert rows[..2][..1] == rows[..1]; }
    assert RowCount(rows[..3], k) == 2 * a + b by { assert rows[..3][..2] == rows[..2]; }
    assert RowCount(rows[..4], k) == 2 * a + b by { assert rows[..4][..3] == rows[..3]; }
    assert RowCount(rows[..5], k) == 3 * a + b by { assert rows[..5][..4] == rows[..4]; }
    assert RowCount(rows[..6], k) == 3 * a + b + c by { assert rows[..6][..5] == rows[..5]; }
  }

  /** Whatever the arrival order, A wins alone with 3 rows; the short row counts for nothing. */
  method Example(arrival: seq<KeyValue>)
    requires multiset(arrival)
             == multiset(Emissions([Row("A"), Row("A"), Row("B"), ["A", "", "", ""], Row("A"), Row("C"), Row("B")]))
  {
    var rows := [Row("A"), Row("A"), Row("B"), ["A", "", "", ""], Row("A"), Row("C"), Row("B")];
    var high, winners := Run(rows, arrival);
    ExampleCounts("A");
    var k :| RowCount(rows, k) == high;
    ExampleCounts(k);
    assert high == 3;
    assert "A" in winners;
    ExampleCounts("B");
    assert "B" !in winners;
  }
}
