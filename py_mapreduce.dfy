/**
 The Python job: `map` turns a row into `(normalised passenger id, 1)` or
 `None`, `shuffle` builds a dict from id to its list of 1s (insertion order =
 first occurrence), `reduce` sums each list, and `__main__` takes the largest
 sum with `max` and keeps every entry holding it with `filter`.

 `pool.map` keeps the order of its input, so both uses of it are ordinary
 order-preserving sequence maps here.
 */
module PyMapReduce {
  import opened Records
  import opened PyKeys

  /** A `(key, value)` tuple: a passenger id and a number. */
  datatype Pair = Pair(key: string, value: int)

  /** What `__main__` ends with: the highest count and the entries holding it. */
  datatype Selection = Selection(high: int, winners: seq<Pair>)

  // ---------------------------------------------------------------- map

  /**
   `map`: a row of exactly `Width` columns yields its stripped, upper-cased
   first column with the value 1; any other row yields `None`.
   */
  function Map(r: Record): (m: Option<Pair>)
    ensures m.Some? <==> IsValid(r)
    ensures m.Some? ==> m.value == Pair(Normalize(r[0]), 1)
  {
    if |r| != Width then None else Some(Pair(Normalize(r[0]), 1))
  }

  /** `pool.map(map, map_in)`. */
  function MapAll(rows: seq<Record>): (out: seq<Option<Pair>>)
    ensures |out| == |rows|
    ensures forall i | 0 <= i < |rows| :: out[i].Some? <==> IsValid(rows[i])
    ensures forall i | 0 <= i < |rows| && IsValid(rows[i]) :: out[i] == Some(Pair(Normalize(rows[i][0]), 1))
  {
    seq(|rows|, i requires 0 <= i < |rows| => Map(rows[i]))
  }

  /** Number of valid rows whose normalised first column is `k`: the count the job is meant to report. */
  function NormRowCount(rows: seq<Record>, k: string): nat
  {
    if rows == [] then 0
    else
      var last := rows[|rows| - 1];
      NormRowCount(rows[..|rows| - 1], k) + (if IsValid(last) && Normalize(last[0]) == k then 1 else 0)
  }

  /** Row `q` is a valid row whose normalised first column is `k`. */
  predicate RowOf(rows: seq<Record>, k: string, q: int)
  {
    0 <= q < |rows| && IsValid(rows[q]) && Normalize(rows[q][0]) == k
  }

  /** Some valid row before row `q` has normalised first column `k`. */
  predicate RowBefore(rows: seq<Record>, k: string, q: int)
  {
    exists p | 0 <= p < q :: RowOf(rows, k, p)
  }

  // ---------------------------------------------------------------- shuffle

  /** Entry `q` of the mapper output is a pair with key `k`. */
  predicate Occurs(s: seq<Option<Pair>>, k: string, q: int)
  {
    0 <= q < |s| && s[q].Some? && s[q].value.key == k
  }

  /** The keys of the non-`None` entries. */
  function KeysIn(s: seq<Option<Pair>>): set<string>
  {
    set e | e in s && e.Some? :: e.value.key
  }

  /** Number of non-`None` entries. */
  function Present(s: seq<Option<Pair>>): nat
  {
    if s == [] then 0 else Present(s[..|s| - 1]) + (if s[|s| - 1].Some? then 1 else 0)
  }

  /** The values of the pairs with key `k`, in input order. */
  function ValuesOf(s: seq<Option<Pair>>, k: string): seq<int>
  {
    if s == [] then []
    else
      var last := s[|s| - 1];
      ValuesOf(s[..|s| - 1], k) + (if last.Some? && last.value.key == k then [last.value.value] else [])
  }

  /** The keys in the order they first occur: the insertion order of the dict `shuffle` builds. */
  function FirstSeen(s: seq<Option<Pair>>): seq<string>
  {
    if s == [] then []
    else
      var order := FirstSeen(s[..|s| - 1]);
      var last := s[|s| - 1];
      if last.Some? && last.value.key !in order then order + [last.value.key] else order
  }

  /** The dict `shuffle` holds once it has read `s`, with its keys in insertion order. */
  ghost predicate DictOf(data: map<string, seq<int>>, order: seq<string>, s: seq<Option<Pair>>)
  {
    && order == FirstSeen(s)
    && data.Keys == KeysIn(s)
    && (forall k | k in data :: data[k] == ValuesOf(s, k) && data[k] != [])
    && (forall k | k !in data :: ValuesOf(s, k) == [])
  }

  lemma KeysInSnoc(s: seq<Option<Pair>>, e: Option<Pair>)
    ensures KeysIn(s + [e]) == KeysIn(s) + (if e.Some? then {e.value.key} else {})
  {
    assert forall x | x in s + [e] :: x in s || x == e;
  }

  lemma ValuesOfSnoc(s: seq<Option<Pair>>, e: Option<Pair>, k: string)
    ensures ValuesOf(s + [e], k) == ValuesOf(s, k) + (if e.Some? && e.value.key == k then [e.value.value] else [])
  {
    assert (s + [e])[..|s|] == s;
  }

  /** The keys listed by `FirstSeen` are exactly the keys present. */
  lemma {:induction false} FirstSeenMembers(s: seq<Option<Pair>>)
    ensures forall k :: k in FirstSeen(s) <==> k in KeysIn(s)
    decreases |s|
  {
    if s != [] {
      var p := s[..|s| - 1];
      FirstSeenMembers(p);
      assert s == p + [s[|s| - 1]];
      KeysInSnoc(p, s[|s| - 1]);
    }
  }

  lemma FirstSeenSnoc(s: seq<Option<Pair>>, e: Option<Pair>)
    ensures FirstSeen(s + [e])
            == if e.Some? && e.value.key !in FirstSeen(s) then FirstSeen(s) + [e.value.key] else FirstSeen(s)
  {
    assert (s + [e])[..|s|] == s;
  }

  /** Reading a pair with a key not yet in the dict starts that key's list and appends the key to the order. */
  lemma ShuffleNewKey(data: map<string, seq<int>>, order: seq<string>, s: seq<Option<Pair>>, k: string, v: int)
    requires DictOf(data, order, s) && k !in data
    ensures DictOf(data[k := [v]], order + [k], s + [Some(Pair(k, v))])
  {
    var e := Some(Pair(k, v));
    var s', data' := s + [e], data[k := [v]];
    FirstSeenMembers(s);
    FirstSeenSnoc(s, e);
    assert FirstSeen(s') == order + [k];
    KeysInSnoc(s, e);
    assert data'.Keys == KeysIn(s');
    forall j | j in data' ensures data'[j] == ValuesOf(s', j) && data'[j] != [] {
      ValuesOfSnoc(s, e, j);
    }
    forall j | j !in data' ensures ValuesOf(s', j) == [] {
      ValuesOfSnoc(s, e, j);
    }
  }

  /** Reading a pair with a key already in the dict appends to its list and leaves the order alone. */
  lemma ShuffleOldKey(data: map<string, seq<int>>, order: seq<string>, s: seq<Option<Pair>>, k: string, v: int)
    requires DictOf(data, order, s) && k in data
    ensures DictOf(data[k := data[k] + [v]], order, s + [Some(Pair(k, v))])
  {
    var e := Some(Pair(k, v));
    var s', data' := s + [e], data[k := data[k] + [v]];
    FirstSeenMembers(s);
    FirstSeenSnoc(s, e);
    assert FirstSeen(s') == order;
    KeysInSnoc(s, e);
    assert data'.Keys == KeysIn(s');
    forall j | j in data' ensures data'[j] == ValuesOf(s', j) && data'[j] != [] {
      ValuesOfSnoc(s, e, j);
    }
    forall j | j !in data' ensures ValuesOf(s', j) == [] {
      ValuesOfSnoc(s, e, j);
    }
  }

  /** Reading `None` changes nothing. */
  lemma ShuffleNone(data: map<string, seq<int>>, order: seq<string>, s: seq<Option<Pair>>)
    requires DictOf(data, order, s)
    ensures DictOf(data, order, s + [None])
  {
    KeysInSnoc(s, None);
    FirstSeenSnoc(s, None);
    forall j ensures ValuesOf(s + [None], j) == ValuesOf(s, j) {
      ValuesOfSnoc(s, None, j);
    }
  }

  /**
   `shuffle`: skips `None`, and for each pair either starts the list of a new
   key (which joins the dict's key order) or appends to its key's list.
   */
  method Shuffle(mapperOut: seq<Option<Pair>>) returns (data: map<string, seq<int>>, order: seq<string>)
    ensures order == FirstSeen(mapperOut)
    ensures data.Keys == KeysIn(mapperOut)
    ensures forall k | k in data :: data[k] == ValuesOf(mapperOut, k) && data[k] != []
  {
    data, order := map[], [];
    for i := 0 to |mapperOut|
      invariant DictOf(data, order, mapperOut[..i])
    {
      assert mapperOut[..i + 1] == mapperOut[..i] + [mapperOut[i]];
      match mapperOut[i]
      case None =>
        ShuffleNone(data, order, mapperOut[..i]);
      case Some(Pair(k, v)) =>
        if k !in data {
          ShuffleNewKey(data, order, mapperOut[..i], k, v);
          data := data[k := [v]];
          order := order + [k];
        } else {
          ShuffleOldKey(data, order, mapperOut[..i], k, v);
          data := data[k := data[k] + [v]];
        }
    }
    assert mapperOut[..|mapperOut|] == mapperOut;
  }

  /** No key is inserted twice. */
  lemma {:induction false} FirstSeenDistinct(s: seq<Option<Pair>>)
    ensures forall i, j | 0 <= i < j < |FirstSeen(s)| :: FirstSeen(s)[i] != FirstSeen(s)[j]
    decreases |s|
  {
    if s != [] {
      FirstSeenDistinct(s[..|s| - 1]);
    }
  }

  /** Every key the dict lists occurs somewhere in the mapper output. */
  lemma FirstSeenWitness(s: seq<Option<Pair>>, k: string)
    requires k in FirstSeen(s)
    ensures exists q :: Occurs(s, k, q)
  {
    FirstSeenMembers(s);
    var e :| e in s && e.Some? && e.value.key == k;
    var q :| 0 <= q < |s| && s[q] == e;
    assert Occurs(s, k, q);
  }

  /**
   The dict's key order follows first occurrence: wherever the key at
   position `j` of the order occurs in the mapper output, the key at an
   earlier position `i` has occurred before it.
   */
  lemma {:induction false} FirstSeenOrder(s: seq<Option<Pair>>, i: nat, j: nat, q: nat)
    requires i < j < |FirstSeen(s)| && Occurs(s, FirstSeen(s)[j], q)
    ensures exists p | 0 <= p < q :: Occurs(s, FirstSeen(s)[i], p)
    decreases |s|
  {
    var n := |s| - 1;
    var pre := s[..n];
    var o := FirstSeen(pre);
    var order := FirstSeen(s);
    assert forall x | 0 <= x < |o| :: order[x] == o[x];
    var p: nat;
    if q < n {
      // the key at `q` occurred in `pre`, so both keys were already listed for `pre`
      assert Occurs(pre, order[j], q);
      assert pre[q] in pre;
      FirstSeenMembers(pre);
      assert j < |o|;
      FirstSeenOrder(pre, i, j, q);
      p :| 0 <= p < q && Occurs(pre, o[i], p);
    } else if j < |o| {
      // the key at `q` occurred in `pre` too; use one of those occurrences
      FirstSeenWitness(pre, o[j]);
      var q' :| Occurs(pre, o[j], q');
      FirstSeenOrder(pre, i, j, q');
      p :| 0 <= p < q' && Occurs(pre, o[i], p);
    } else {
      // the key at `q` is new, and every earlier key occurred in `pre`
      FirstSeenWitness(pre, o[i]);
      p :| Occurs(pre, o[i], p);
    }
    assert s[p] == pre[p];
    assert Occurs(s, order[i], p);
  }

  /** The list lengths added up over some keys. */
  function GroupedTotal(s: seq<Option<Pair>>, keys: seq<string>): nat
  {
    if keys == [] then 0 else GroupedTotal(s, keys[..|keys| - 1]) + |ValuesOf(s, keys[|keys| - 1])|
  }

  /** Number of times `k` appears in `keys`. */
  function Occurrences(keys: seq<string>, k: string): nat
  {
    if keys == [] then 0 else Occurrences(keys[..|keys| - 1], k) + (if keys[|keys| - 1] == k then 1 else 0)
  }

  lemma {:induction false} GroupedTotalSnoc(s: seq<Option<Pair>>, e: Option<Pair>, keys: seq<string>)
    ensures GroupedTotal(s + [e], keys)
            == GroupedTotal(s, keys) + (if e.Some? then Occurrences(keys, e.value.key) else 0)
    decreases |keys|
  {
    if keys != [] {
      GroupedTotalSnoc(s, e, keys[..|keys| - 1]);
      ValuesOfSnoc(s, e, keys[|keys| - 1]);
    }
  }

  lemma {:induction false} OccurrencesOfDistinct(keys: seq<string>, k: string)
    requires forall i, j | 0 <= i < j < |keys| :: keys[i] != keys[j]
    ensures Occurrences(keys, k) == if k in keys then 1 else 0
    decreases |keys|
  {
    if keys != [] {
      var p := keys[..|keys| - 1];
      OccurrencesOfDistinct(p, k);
      assert forall x | x in keys :: x in p || x == keys[|keys| - 1];
      assert forall x | x in p :: x in keys;
    }
  }

  /** `shuffle` loses and invents nothing: its lists hold one value per non-`None` input, in all. */
  lemma {:induction false} ShuffleTotal(s: seq<Option<Pair>>)
    ensures GroupedTotal(s, FirstSeen(s)) == Present(s)
    decreases |s|
  {
    if s != [] {
      var p := s[..|s| - 1];
      var e := s[|s| - 1];
      assert s == p + [e];
      ShuffleTotal(p);
      GroupedTotalSnoc(p, e, FirstSeen(p));
      if e.Some? {
        FirstSeenDistinct(p);
        OccurrencesOfDistinct(FirstSeen(p), e.value.key);
        if e.value.key !in FirstSeen(p) {
          FirstSeenMembers(p);
          ValuesOfPresent(p, e.value.key);
          ValuesOfSnoc(p, e, e.value.key);
          assert FirstSeen(s)[..|FirstSeen(s)| - 1] == FirstSeen(p);
        }
      }
    }
  }

  /** A key has values exactly when it is present. */
  lemma {:induction false} ValuesOfPresent(s: seq<Option<Pair>>, k: string)
    ensures ValuesOf(s, k) != [] <==> k in KeysIn(s)
    decreases |s|
  {
    if s != [] {
      var p := s[..|s| - 1];
      assert s == p + [s[|s| - 1]];
      KeysInSnoc(p, s[|s| - 1]);
      ValuesOfPresent(p, k);
    }
  }

  lemma MapAllSnoc(rows: seq<Record>)
    requires rows != []
    ensures MapAll(rows) == MapAll(rows[..|rows| - 1]) + [Map(rows[|rows| - 1])]
  {
  }

  /** The mapper output lists, for each normalised id, one 1 per valid row with that id. */
  lemma {:induction false} MappedValues(rows: seq<Record>, k: string)
    ensures |ValuesOf(MapAll(rows), k)| == NormRowCount(rows, k)
    ensures forall i | 0 <= i < |ValuesOf(MapAll(rows), k)| :: ValuesOf(MapAll(rows), k)[i] == 1
    decreases |rows|
  {
    if rows != [] {
      var p := rows[..|rows| - 1];
      MappedValues(p, k);
      MapAllSnoc(rows);
      ValuesOfSnoc(MapAll(p), Map(rows[|rows| - 1]), k);
    }
  }

  /** An id is present in the mapper output exactly when some valid row normalises to it. */
  lemma MappedKeys(rows: seq<Record>, k: string)
    ensures k in KeysIn(MapAll(rows)) <==> NormRowCount(rows, k) > 0
  {
    MappedValues(rows, k);
    ValuesOfPresent(MapAll(rows), k);
  }

  /** A valid row puts its normalised id into the mapper output. */
  lemma MappedRow(rows: seq<Record>, i: nat)
    requires i < |rows| && IsValid(rows[i])
    ensures NormRowCount(rows, Normalize(rows[i][0])) > 0
  {
    var s := MapAll(rows);
    assert s[i] == Some(Pair(Normalize(rows[i][0]), 1));
    assert s[i] in s;
    MappedKeys(rows, Normalize(rows[i][0]));
  }

  // ---------------------------------------------------------------- reduce

  function Sum(v: seq<int>): int
  {
    if v == [] then 0 else Sum(v[..|v| - 1]) + v[|v| - 1]
  }

  /** A list of 1s sums to its length. */
  lemma {:induction false} SumOfOnes(v: seq<int>)
    requires forall i | 0 <= i < |v| :: v[i] == 1
    ensures Sum(v) == |v|
    decreases |v|
  {
    if v != [] {
      var p := v[..|v| - 1];
      assert forall i | 0 <= i < |p| :: p[i] == v[i];
      SumOfOnes(p);
    }
  }

  /** `reduce`: an id and the sum of its list. */
  function Reduce(k: string, v: seq<int>): (r: Pair)
    ensures r.key == k
    ensures (forall i | 0 <= i < |v| :: v[i] == 1) ==> r.value == |v|
  {
    if forall i | 0 <= i < |v| :: v[i] == 1 then
      SumOfOnes(v);
      Pair(k, Sum(v))
    else
      Pair(k, Sum(v))
  }

  /** `pool.map(reduce, reduce_in.items())`: one entry per dict key, in the dict's key order. */
  function ReduceAll(data: map<string, seq<int>>, order: seq<string>): (out: seq<Pair>)
    requires forall k | k in order :: k in data
    ensures |out| == |order|
    ensures forall i | 0 <= i < |order| :: out[i] == Reduce(order[i], data[order[i]])
  {
    seq(|order|, i requires 0 <= i < |order| => Reduce(order[i], data[order[i]]))
  }

  // ---------------------------------------------------------------- select

  /**
   `max(reduce_out, key=lambda x: x[1])[1]`: the largest count; `None` where
   `max` raises `ValueError` on an empty list.
   */
  function MaxCount(out: seq<Pair>): (r: Option<int>)
    ensures r.None? <==> out == []
    ensures r.Some? ==> forall i | 0 <= i < |out| :: out[i].value <= r.value
    ensures r.Some? ==> exists i | 0 <= i < |out| :: out[i].value == r.value
  {
    if out == [] then None
    else
      var last := out[|out| - 1].value;
      match MaxCount(out[..|out| - 1])
      case None => Some(last)
      case Some(m) => if m < last then Some(last) else Some(m)
  }

  /** `filter(lambda arr: arr[1] == c, reduce_out)`: the entries with count `c`, in order. */
  function WithCount(out: seq<Pair>, c: int): (r: seq<Pair>)
    ensures forall e :: e in r <==> e in out && e.value == c
    ensures |r| <= |out|
  {
    if out == [] then []
    else
      var last := out[|out| - 1];
      var pre := out[..|out| - 1];
      assert forall e :: e in out <==> e in pre || e == last;
      WithCount(pre, c) + (if last.value == c then [last] else [])
  }

  /** Entries with distinct keys stay distinct after `filter`. */
  lemma {:induction false} WithCountDistinct(out: seq<Pair>, c: int)
    requires forall i, j | 0 <= i < j < |out| :: out[i].key != out[j].key
    ensures forall i, j | 0 <= i < j < |WithCount(out, c)| :: WithCount(out, c)[i].key != WithCount(out, c)[j].key
    decreases |out|
  {
    if out != [] {
      var pre := out[..|out| - 1];
      var last := out[|out| - 1];
      WithCountDistinct(pre, c);
      forall e | e in WithCount(pre, c) ensures e.key != last.key {
        var i :| 0 <= i < |pre| && pre[i] == e;
      }
    }
  }

  /** `filter` keeps the relative order of the entries it keeps. */
  lemma {:induction false} WithCountOrder(out: seq<Pair>, c: int, a: nat, b: nat)
    requires forall i, j | 0 <= i < j < |out| :: out[i].key != out[j].key
    requires a < b < |WithCount(out, c)|
    ensures exists x, y | 0 <= x < y < |out| :: out[x] == WithCount(out, c)[a] && out[y] == WithCount(out, c)[b]
    decreases |out|
  {
    var n := |out| - 1;
    var pre := out[..n];
    var w := WithCount(pre, c);
    var kept := WithCount(out, c);
    assert kept == w + (if out[n].value == c then [out[n]] else []);
    assert kept[a] == w[a];
    if b < |w| {
      WithCountOrder(pre, c, a, b);
      var x, y :| 0 <= x < y < |pre| && pre[x] == w[a] && pre[y] == w[b];
      assert out[x] == pre[x] && out[y] == pre[y];
    } else {
      assert kept[b] == out[n];
      assert w[a] in w;
      var x :| 0 <= x < |pre| && pre[x] == w[a];
      assert out[x] == pre[x];
    }
  }

  /**
   The selection in `__main__`: `None` where `max` raises, otherwise the
   highest count and the entries holding it; at least one entry holds it.
   */
  function Select(out: seq<Pair>): (r: Option<Selection>)
    ensures r.None? <==> out == []
    ensures r.Some? ==> r.value.winners != []
    ensures r.Some? ==> forall i | 0 <= i < |out| :: out[i].value <= r.value.high
    ensures r.Some? ==> forall e :: e in r.value.winners <==> e in out && e.value == r.value.high
  {
    match MaxCount(out)
    case None => None
    case Some(high) =>
      var winners := WithCount(out, high);
      assert winners != [] by {
        var i :| 0 <= i < |out| && out[i].value == high;
        assert out[i] in winners;
      }
      Some(Selection(high, winners))
  }

  // ---------------------------------------------------------------- pipeline

  /**
   `reduce_out` holds, once per id, every id with rows and its row count.
   */
  ghost predicate CountsOf(rows: seq<Record>, out: seq<Pair>)
  {
    && (forall i | 0 <= i < |out| :: out[i].value == NormRowCount(rows, out[i].key) > 0)
    && (forall i, j | 0 <= i < j < |out| :: out[i].key != out[j].key)
    && (forall k | NormRowCount(rows, k) > 0 :: exists i | 0 <= i < |out| :: out[i].key == k)
  }

  /** Reducing the dict `shuffle` builds from the mapper output gives every id its row count. */
  lemma ReducedCounts(rows: seq<Record>, data: map<string, seq<int>>, order: seq<string>)
    requires order == FirstSeen(MapAll(rows))
    requires data.Keys == KeysIn(MapAll(rows))
    requires forall k | k in data :: data[k] == ValuesOf(MapAll(rows), k)
    ensures forall k | k in order :: k in data
    ensures CountsOf(rows, ReduceAll(data, order))
    ensures forall i | 0 <= i < |order| :: ReduceAll(data, order)[i].key == order[i]
  {
    var mapOut := MapAll(rows);
    FirstSeenMembers(mapOut);
    FirstSeenDistinct(mapOut);
    var out := ReduceAll(data, order);
    forall i | 0 <= i < |out| ensures out[i].value == NormRowCount(rows, out[i].key) > 0 {
      MappedValues(rows, order[i]);
      MappedKeys(rows, order[i]);
      SumOfOnes(data[order[i]]);
    }
    forall k | NormRowCount(rows, k) > 0 ensures exists i | 0 <= i < |out| :: out[i].key == k {
      MappedKeys(rows, k);
      var i :| 0 <= i < |order| && order[i] == k;
      assert out[i].key == k;
    }
  }

  /** The selection over such entries is the highest row count and exactly the ids that have it. */
  lemma SelectCounts(rows: seq<Record>, out: seq<Pair>)
    requires CountsOf(rows, out)
    ensures Select(out).None? <==> forall i | 0 <= i < |rows| :: !IsValid(rows[i])
    ensures Select(out).Some? ==> forall k :: NormRowCount(rows, k) <= Select(out).value.high
    ensures Select(out).Some? ==> exists k :: NormRowCount(rows, k) == Select(out).value.high > 0
    ensures Select(out).Some? ==>
      forall e :: e in Select(out).value.winners <==> e.value == Select(out).value.high == NormRowCount(rows, e.key)
  {
    if out == [] {
      forall i | 0 <= i < |rows| && IsValid(rows[i]) ensures false {
        MappedRow(rows, i);
      }
    } else {
      RowWitness(rows, out[0].key);
      var high := Select(out).value.high;
      forall k ensures NormRowCount(rows, k) <= high {
        if NormRowCount(rows, k) > 0 {
          var i :| 0 <= i < |out| && out[i].key == k;
        }
      }
      var i :| 0 <= i < |out| && out[i].value == high;
      assert NormRowCount(rows, out[i].key) == high > 0;
      forall e ensures e in Select(out).value.winners <==> e.value == high == NormRowCount(rows, e.key) {
        if e.value == high == NormRowCount(rows, e.key) {
          var j :| 0 <= j < |out| && out[j].key == e.key;
          assert out[j] == e;
        }
        if e in out {
          var j :| 0 <= j < |out| && out[j] == e;
        }
      }
    }
  }

  /**
   The winners come out in the order their ids first appear among the valid
   rows: wherever a later winner has a row, an earlier winner has a row before it.
   */
  lemma WinnersInRowOrder(rows: seq<Record>, out: seq<Pair>, c: int, a: nat, b: nat, q: nat)
    requires |out| == |FirstSeen(MapAll(rows))|
    requires forall i | 0 <= i < |out| :: out[i].key == FirstSeen(MapAll(rows))[i]
    requires a < b < |WithCount(out, c)|
    requires RowOf(rows, WithCount(out, c)[b].key, q)
    ensures RowBefore(rows, WithCount(out, c)[a].key, q)
  {
    var w := WithCount(out, c);
    var mapOut := MapAll(rows);
    var order := FirstSeen(mapOut);
    FirstSeenDistinct(mapOut);
    WithCountOrder(out, c, a, b);
    var x, y :| 0 <= x < y < |out| && out[x] == w[a] && out[y] == w[b];
    assert mapOut[q] == Map(rows[q]);
    assert Occurs(mapOut, order[y], q);
    FirstSeenOrder(mapOut, x, y, q);
    var p :| 0 <= p < q && Occurs(mapOut, order[x], p);
    assert mapOut[p] == Map(rows[p]);
    assert RowOf(rows, w[a].key, p);
  }

  /** `filter` over the reduced entries lists the tied ids in first-row order. */
  lemma FilterInRowOrder(rows: seq<Record>, out: seq<Pair>, c: int)
    requires |out| == |FirstSeen(MapAll(rows))|
    requires forall i | 0 <= i < |out| :: out[i].key == FirstSeen(MapAll(rows))[i]
    ensures forall a, b, q | 0 <= a < b < |WithCount(out, c)| && RowOf(rows, WithCount(out, c)[b].key, q) ::
      RowBefore(rows, WithCount(out, c)[a].key, q)
  {
    forall a, b, q | 0 <= a < b < |WithCount(out, c)| && RowOf(rows, WithCount(out, c)[b].key, q)
      ensures RowBefore(rows, WithCount(out, c)[a].key, q)
    {
      WinnersInRowOrder(rows, out, c, a, b, q);
    }
  }

  /** What `__main__` computes from such entries, for rows whose ids reach `reduce_out` in first-row order. */
  lemma RunSelection(rows: seq<Record>, out: seq<Pair>)
    requires CountsOf(rows, out)
    requires |out| == |FirstSeen(MapAll(rows))|
    requires forall i | 0 <= i < |out| :: out[i].key == FirstSeen(MapAll(rows))[i]
    ensures Select(out).None? <==> forall i | 0 <= i < |rows| :: !IsValid(rows[i])
    ensures Select(out).Some? ==> forall k :: NormRowCount(rows, k) <= Select(out).value.high
    ensures Select(out).Some? ==> exists k :: NormRowCount(rows, k) == Select(out).value.high > 0
    ensures Select(out).Some? ==>
      forall e :: e in Select(out).value.winners <==> e.value == Select(out).value.high == NormRowCount(rows, e.key)
    ensures Select(out).Some? ==>
      forall i, j | 0 <= i < j < |Select(out).value.winners| :: Select(out).value.winners[i].key != Select(out).value.winners[j].key
    ensures Select(out).Some? ==>
      forall a, b, q | 0 <= a < b < |Select(out).value.winners| && RowOf(rows, Select(out).value.winners[b].key, q) ::
        RowBefore(rows, Select(out).value.winners[a].key, q)
  {
    SelectCounts(rows, out);
    if out != [] {
      var high := Select(out).value.high;
      assert Select(out).value.winners == WithCount(out, high);
      WithCountDistinct(out, high);
      FilterInRowOrder(rows, out, high);
    }
  }

  /**
   The whole job on `rows`. With no valid row `max` raises, modelled as
   `None`. Otherwise `high` is the largest number of valid rows sharing a
   normalised id, and `winners` holds, once per id, exactly the ids with that
   many rows, each paired with `high`.
   */
  method Run(rows: seq<Record>) returns (r: Option<Selection>)
    ensures r.None? <==> forall i | 0 <= i < |rows| :: !IsValid(rows[i])
    ensures r.Some? ==> forall k :: NormRowCount(rows, k) <= r.value.high
    ensures r.Some? ==> exists k :: NormRowCount(rows, k) == r.value.high > 0
    ensures r.Some? ==> forall e :: e in r.value.winners <==> e.value == r.value.high == NormRowCount(rows, e.key)
    ensures r.Some? ==> forall i, j | 0 <= i < j < |r.value.winners| :: r.value.winners[i].key != r.value.winners[j].key
    ensures r.Some? ==> forall a, b, q | 0 <= a < b < |r.value.winners| && RowOf(rows, r.value.winners[b].key, q) ::
      RowBefore(rows, r.value.winners[a].key, q)
  {
    var mapOut := MapAll(rows);
    var data, order := Shuffle(mapOut);
    ReducedCounts(rows, data, order);
    var reduceOut := ReduceAll(data, order);
    RunSelection(rows, reduceOut);
    r := Select(reduceOut);
  }

  /** A positive count has a valid row behind it. */
  lemma {:induction false} RowWitness(rows: seq<Record>, k: string)
    requires NormRowCount(rows, k) > 0
    ensures exists i | 0 <= i < |rows| :: IsValid(rows[i]) && Normalize(rows[i][0]) == k
    decreases |rows|
  {
    var p := rows[..|rows| - 1];
    if NormRowCount(p, k) > 0 {
      RowWitness(p, k);
      var i :| 0 <= i < |p| && IsValid(p[i]) && Normalize(p[i][0]) == k;
      assert rows[i] == p[i];
    }
  }
}
