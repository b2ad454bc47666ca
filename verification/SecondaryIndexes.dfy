/** Secondary indexes: field value to the ids of the documents that carry it. Two
    values are one key exactly when the order calls them `Equal`, that is, when
    they are identical, so a map keyed by values stands for the ordered map. */
module SecondaryIndexes {
  import opened Bytes
  import opened Documents
  import opened ValueOrder

  type Entries = map<Value, set<u64>>

  datatype Bound = Included(v: Value) | Excluded(v: Value) | Unbounded

  // ---- Bounds -----------------------------------------------------------------------

  predicate AboveLow(value: Value, lo: Bound) {
    match lo
    case Unbounded => true
    case Included(b) => Cmp(value, b) != Less
    case Excluded(b) => Cmp(value, b) == Greater
  }

  predicate BelowHigh(value: Value, hi: Bound) {
    match hi
    case Unbounded => true
    case Included(b) => Cmp(value, b) != Greater
    case Excluded(b) => Cmp(value, b) == Less
  }

  predicate InBounds(value: Value, lo: Bound, hi: Bound) {
    AboveLow(value, lo) && BelowHigh(value, hi)
  }

  predicate IsEmptyRange(lo: Bound, hi: Bound) {
    if lo.Unbounded? || hi.Unbounded? then false
    else
      match Cmp(lo.v, hi.v)
      case Greater => true
      case Equal => !(lo.Included? && hi.Included?)
      case Less => false
  }

  /** When an ordered map's range query does not panic. */
  predicate RangeAllowed(lo: Bound, hi: Bound) {
    lo.Unbounded? || hi.Unbounded? ||
    (Cmp(lo.v, hi.v) != Greater &&
     !(Cmp(lo.v, hi.v) == Equal && lo.Excluded? && hi.Excluded?))
  }

  /** A range reported empty holds no value at all; any other range may be asked
      of the ordered map. */
  lemma EmptyRangeIsEmpty(lo: Bound, hi: Bound)
    ensures IsEmptyRange(lo, hi) ==> forall v :: !InBounds(v, lo, hi)
    ensures !IsEmptyRange(lo, hi) ==> RangeAllowed(lo, hi)
  {
    if IsEmptyRange(lo, hi) {
      forall v
        ensures !InBounds(v, lo, hi)
      {
        CmpAntisymmetric(v, lo.v);
        CmpAntisymmetric(v, hi.v);
        CmpAntisymmetric(lo.v, hi.v);
        if InBounds(v, lo, hi) && v != lo.v && v != hi.v {
          CmpTransitive(lo.v, v, hi.v);
        }
      }
    }
  }

  /** What a range contains. Each bound restricts on its own; no bound refuses
      nothing; an excluded bound admits what lies strictly beyond it, an included one
      that and itself. */
  lemma BoundsMeaning(value: Value, b: Value, lo: Bound, hi: Bound)
    ensures InBounds(value, lo, hi) <==> InBounds(value, lo, Unbounded) && InBounds(value, Unbounded, hi)
    ensures InBounds(value, Unbounded, Unbounded)
    ensures InBounds(value, Excluded(b), Unbounded) <==> Cmp(b, value) == Less
    ensures InBounds(value, Unbounded, Excluded(b)) <==> Cmp(value, b) == Less
    ensures InBounds(value, Included(b), Unbounded) <==> value == b || InBounds(value, Excluded(b), Unbounded)
    ensures InBounds(value, Unbounded, Included(b)) <==> value == b || InBounds(value, Unbounded, Excluded(b))
    ensures InBounds(value, Included(b), Included(b)) <==> value == b
  {
    CmpAntisymmetric(value, b);
    hide Cmp;
  }

  /** A value in a range between two numbers is a number between them. */
  lemma NumberRange(value: Value, a: i64, b: i64)
    ensures InBounds(value, Included(Int(a)), Included(Int(b))) <==> value.Int? && a <= value.n <= b
    ensures InBounds(value, Included(Int(a)), Excluded(Int(b))) <==> value.Int? && a <= value.n < b
    ensures InBounds(value, Excluded(Int(a)), Included(Int(b))) <==> value.Int? && a < value.n <= b
    ensures InBounds(value, Excluded(Int(a)), Excluded(Int(b))) <==> value.Int? && a < value.n < b
  {}

  // ---- Ids and keys in order ----------------------------------------------------------

  ghost predicate Increasing(s: seq<u64>) {
    forall i, j :: 0 <= i < j < |s| ==> s[i] < s[j]
  }

  lemma {:induction false} LeastId(s: set<u64>) returns (least: u64)
    requires s != {}
    ensures least in s && forall x :: x in s ==> least <= x
    decreases |s|
  {
    var x :| x in s;
    if s == {x} {
      least := x;
    } else {
      var m := LeastId(s - {x});
      least := if m < x then m else x;
      assert forall y :: y in s ==> y == x || y in s - {x};
    }
  }

  predicate IsLeastId(s: set<u64>, x: u64) {
    x in s && forall y :: y in s ==> x <= y
  }

  lemma LeastIdExists(s: set<u64>)
    requires s != {}
    ensures exists x :: x in s && IsLeastId(s, x)
  {
    var least := LeastId(s);
    assert IsLeastId(s, least);
  }

  /** The ids of a set, smallest first. */
  ghost function SortedIds(s: set<u64>): seq<u64>
    decreases |s|
  {
    if s == {} then []
    else
      LeastIdExists(s);
      var x :| x in s && IsLeastId(s, x);
      [x] + SortedIds(s - {x})
  }

  lemma LeastKeyExists(s: set<Value>)
    requires s != {}
    ensures exists k :: k in s && forall v :: v in s && v != k ==> Cmp(k, v) == Less
  {
    var least := LeastExists(s);
  }

  ghost predicate KeysIncreasing(s: seq<Value>) {
    forall i, j :: 0 <= i < j < |s| ==> Cmp(s[i], s[j]) == Less
  }

  /** The keys of a set in the value order. */
  ghost function SortedKeys(s: set<Value>): seq<Value>
    decreases |s|
  {
    if s == {} then []
    else
      LeastKeyExists(s);
      var k :| k in s && forall v :: v in s && v != k ==> Cmp(k, v) == Less;
      [k] + SortedKeys(s - {k})
  }

  lemma {:induction false} SortedIdsLaws(s: set<u64>)
    ensures forall x :: x in SortedIds(s) <==> x in s
    ensures Increasing(SortedIds(s))
    decreases |s|
  {
    if s != {} {
      var x := SortedIds(s)[0];
      SortedIdsLaws(s - {x});
      assert SortedIds(s) == [x] + SortedIds(s - {x});
      forall i | 0 <= i < |SortedIds(s - {x})|
        ensures x < SortedIds(s - {x})[i]
      {
        assert SortedIds(s - {x})[i] in s - {x};
      }
    }
  }

  lemma {:induction false} SortedKeysLaws(s: set<Value>)
    ensures forall k :: k in SortedKeys(s) <==> k in s
    ensures KeysIncreasing(SortedKeys(s))
    decreases |s|
  {
    hide Cmp;
    if s != {} {
      var k := SortedKeys(s)[0];
      SortedKeysLaws(s - {k});
      assert SortedKeys(s) == [k] + SortedKeys(s - {k});
      forall i | 0 <= i < |SortedKeys(s - {k})|
        ensures Cmp(k, SortedKeys(s - {k})[i]) == Less
      {
        assert SortedKeys(s - {k})[i] in s - {k};
      }
    }
  }

  lemma NoIds()
    ensures SortedIds({}) == []
  {}

  lemma NoKeys()
    ensures SortedKeys({}) == []
  {}

  lemma SortedIdsUnfold(s: set<u64>, x: u64)
    requires IsLeastId(s, x)
    ensures SortedIds(s) == [x] + SortedIds(s - {x})
  {}

  lemma SortedKeysUnfold(s: set<Value>, k: Value)
    requires k in s && forall v :: v in s && v != k ==> Cmp(k, v) == Less
    ensures SortedKeys(s) == [k] + SortedKeys(s - {k})
  {
    var c := SortedKeys(s)[0];
    CmpAntisymmetric(c, k);
    hide Cmp;
  }

  // ---- Entries ----------------------------------------------------------------------

  /** Document `id` is recorded under value `v`. */
  predicate Holds(m: Entries, v: Value, id: u64) {
    v in m && id in m[v]
  }

  predicate NoEmptySets(m: Entries) {
    forall v :: v in m ==> m[v] != {}
  }

  /** No id sits under two values. */
  ghost predicate Functional(m: Entries) {
    forall v, w, id :: Holds(m, v, id) && Holds(m, w, id) ==> v == w
  }

  function IdsAt(m: Entries, v: Value): set<u64> {
    if v in m then m[v] else {}
  }

  function AddTo(m: Entries, v: Value, id: u64): (r: Entries)
    ensures forall w, j :: Holds(r, w, j) <==> Holds(m, w, j) || (w == v && j == id)
    ensures NoEmptySets(m) ==> NoEmptySets(r)
  {
    m[v := IdsAt(m, v) + {id}]
  }

  function RemoveFrom(m: Entries, v: Value, id: u64): (r: Entries)
    ensures forall w, j :: Holds(r, w, j) <==> Holds(m, w, j) && !(w == v && j == id)
    ensures NoEmptySets(m) ==> NoEmptySets(r)
  {
    if v !in m then m
    else if m[v] - {id} == {} then
      assert forall j :: j in m[v] && j != id ==> j in m[v] - {id};
      m - {v}
    else m[v := m[v] - {id}]
  }

  /** Entries without empty sets are determined by what they hold. */
  lemma EntriesDetermined(m: Entries, n: Entries)
    requires NoEmptySets(m) && NoEmptySets(n)
    requires forall v, id :: Holds(m, v, id) <==> Holds(n, v, id)
    ensures m == n
  {
    forall v
      ensures v in m <==> v in n
    {
      if v in m {
        var id :| id in m[v];
        assert Holds(m, v, id);
      }
      if v in n {
        var id :| id in n[v];
        assert Holds(n, v, id);
      }
    }
    forall v | v in m
      ensures m[v] == n[v]
    {
      forall id
        ensures id in m[v] <==> id in n[v]
      {
        assert Holds(m, v, id) <==> Holds(n, v, id);
      }
    }
  }

  // ---- Range results ------------------------------------------------------------------

  ghost function KeysWithin(m: Entries, lo: Bound, hi: Bound): set<Value> {
    set k | k in m && InBounds(k, lo, hi)
  }

  ghost function IdsUnder(m: Entries, keys: seq<Value>): seq<u64>
    requires forall k :: k in keys ==> k in m
    decreases |keys|
  {
    if keys == [] then [] else SortedIds(m[keys[0]]) + IdsUnder(m, keys[1..])
  }

  /** Ids of the keys in bounds: by value, then by id. */
  ghost function RangeOf(m: Entries, lo: Bound, hi: Bound): seq<u64> {
    SortedKeysLaws(KeysWithin(m, lo, hi));
    IdsUnder(m, SortedKeys(KeysWithin(m, lo, hi)))
  }

  lemma {:induction false} IdsUnderMembers(m: Entries, keys: seq<Value>, id: u64)
    requires forall k :: k in keys ==> k in m
    ensures id in IdsUnder(m, keys) <==> exists k :: k in keys && Holds(m, k, id)
    decreases |keys|
  {
    if keys != [] {
      SortedIdsLaws(m[keys[0]]);
      IdsUnderMembers(m, keys[1..], id);
      assert keys == [keys[0]] + keys[1..];
      if id in SortedIds(m[keys[0]]) {
        assert keys[0] in keys && Holds(m, keys[0], id);
      }
      if k :| k in keys && Holds(m, k, id) {
        assert k == keys[0] || k in keys[1..];
      }
    }
  }

  /** A range query returns exactly the ids whose value is in bounds. */
  lemma RangeMembers(m: Entries, lo: Bound, hi: Bound, id: u64)
    ensures id in RangeOf(m, lo, hi) <==> exists k :: Holds(m, k, id) && InBounds(k, lo, hi)
  {
    SortedKeysLaws(KeysWithin(m, lo, hi));
    var keys := SortedKeys(KeysWithin(m, lo, hi));
    IdsUnderMembers(m, keys, id);
    if k :| Holds(m, k, id) && InBounds(k, lo, hi) {
      assert k in keys;
    }
  }

  /** Between two numbers, exactly the ids of the numbers between them. */
  lemma NumberRangeMembers(m: Entries, a: i64, b: i64, id: u64)
    ensures id in RangeOf(m, Included(Int(a)), Included(Int(b))) <==> exists n: i64 :: a <= n <= b && Holds(m, Int(n), id)
    ensures id in RangeOf(m, Included(Int(a)), Excluded(Int(b))) <==> exists n: i64 :: a <= n < b && Holds(m, Int(n), id)
  {
    hide RangeOf, InBounds;
    RangeMembers(m, Included(Int(a)), Included(Int(b)), id);
    RangeMembers(m, Included(Int(a)), Excluded(Int(b)), id);
    forall k
      ensures InBounds(k, Included(Int(a)), Included(Int(b))) <==> k.Int? && a <= k.n <= b
      ensures InBounds(k, Included(Int(a)), Excluded(Int(b))) <==> k.Int? && a <= k.n < b
    {
      NumberRange(k, a, b);
    }
    forall n: i64
      ensures InBounds(Int(n), Included(Int(a)), Included(Int(b))) <==> a <= n <= b
      ensures InBounds(Int(n), Included(Int(a)), Excluded(Int(b))) <==> a <= n < b
    {
      NumberRange(Int(n), a, b);
    }
  }

  /** Position i comes before position j for a reason: a smaller value, or the same
      value and a smaller id. */
  ghost predicate OrderedByValueThenId(m: Entries, out: seq<u64>) {
    forall i, j, k, l :: 0 <= i < j < |out| && Holds(m, k, out[i]) && Holds(m, l, out[j]) ==>
      Cmp(k, l) == Less || (k == l && out[i] < out[j])
  }

  lemma {:induction false} IdsUnderOrdered(m: Entries, keys: seq<Value>)
    requires Functional(m) && KeysIncreasing(keys)
    requires forall k :: k in keys ==> k in m
    ensures OrderedByValueThenId(m, IdsUnder(m, keys))
    decreases |keys|
  {
    hide Cmp;
    if keys != [] {
      var head, tail := SortedIds(m[keys[0]]), IdsUnder(m, keys[1..]);
      SortedIdsLaws(m[keys[0]]);
      IdsUnderOrdered(m, keys[1..]);
      var out := head + tail;
      forall i, j, k, l | 0 <= i < j < |out| && Holds(m, k, out[i]) && Holds(m, l, out[j])
        ensures Cmp(k, l) == Less || (k == l && out[i] < out[j])
      {
        if j < |head| {
          assert head[i] in m[keys[0]] && head[j] in m[keys[0]];
          assert Holds(m, keys[0], head[i]) && Holds(m, keys[0], head[j]);
        } else if i >= |head| {
          assert out[i] == tail[i - |head|] && out[j] == tail[j - |head|];
        } else {
          assert Holds(m, keys[0], head[i]);
          assert out[j] == tail[j - |head|] && out[j] in tail;
          IdsUnderMembers(m, keys[1..], out[j]);
          var key :| key in keys[1..] && Holds(m, key, out[j]);
          var at :| 0 <= at < |keys[1..]| && keys[1..][at] == key;
          assert keys[at + 1] == key;
        }
      }
    }
  }

  /** With no id under two values, a range result is sorted by value and then by
      id, and repeats nothing. */
  lemma RangeIsOrdered(m: Entries, lo: Bound, hi: Bound)
    requires Functional(m)
    ensures OrderedByValueThenId(m, RangeOf(m, lo, hi))
    ensures forall i, j :: 0 <= i < j < |RangeOf(m, lo, hi)| ==> RangeOf(m, lo, hi)[i] != RangeOf(m, lo, hi)[j]
  {
    hide Cmp;
    var out := RangeOf(m, lo, hi);
    SortedKeysLaws(KeysWithin(m, lo, hi));
    IdsUnderOrdered(m, SortedKeys(KeysWithin(m, lo, hi)));
    forall i, j | 0 <= i < j < |out|
      ensures out[i] != out[j]
    {
      assert out[i] in out;
      RangeMembers(m, lo, hi, out[i]);
      var k :| Holds(m, k, out[i]) && InBounds(k, lo, hi);
      CmpAntisymmetric(k, k);
    }
  }

  // ---- The index as it runs -----------------------------------------------------------

  /** The first id an ordered set yields. */
  method FirstId(s: set<u64>) returns (x: u64)
    requires s != {}
    ensures x in s && SortedIds(s) == [x] + SortedIds(s - {x})
  {
    LeastIdExists(s);
    x :| x in s && IsLeastId(s, x);
    SortedIdsUnfold(s, x);
  }

  /** The first key an ordered map yields. */
  method FirstKey(s: set<Value>) returns (k: Value)
    requires s != {}
    ensures k in s && SortedKeys(s) == [k] + SortedKeys(s - {k})
  {
    LeastKeyExists(s);
    k :| k in s && forall v :: v in s && v != k ==> Cmp(k, v) == Less;
    SortedKeysUnfold(s, k);
  }

  /** List a set of ids in ascending order. */
  method ListIds(s: set<u64>) returns (out: seq<u64>)
    ensures out == SortedIds(s)
  {
    hide SortedIds;
    out := [];
    var rest := s;
    assert [] + SortedIds(s) == SortedIds(s);
    while rest != {}
      invariant out + SortedIds(rest) == SortedIds(s)
      decreases |rest|
    {
      var x := FirstId(rest);
      out := out + [x];
      rest := rest - {x};
    }
    NoIds();
  }

  class SecondaryIndex {
    var entries: Entries

    constructor ()
      ensures entries == map[]
    {
      entries := map[];
    }

    method Add(value: Value, id: u64)
      modifies this
      ensures entries == AddTo(old(entries), value, id)
    {
      if value !in entries {
        entries := entries[value := {}];
      }
      entries := entries[value := entries[value] + {id}];
    }

    method Remove(value: Value, id: u64)
      modifies this
      ensures entries == RemoveFrom(old(entries), value, id)
    {
      if value in entries {
        entries := entries[value := entries[value] - {id}];
        if entries[value] == {} {
          entries := entries - {value};
        }
      }
    }

    method Equal(value: Value) returns (out: seq<u64>)
      ensures out == SortedIds(IdsAt(entries, value))
    {
      if value in entries {
        out := ListIds(entries[value]);
      } else {
        out := [];
      }
    }

    method Range(lo: Bound, hi: Bound) returns (out: seq<u64>)
      ensures out == RangeOf(entries, lo, hi)
    {
      EmptyRangeIsEmpty(lo, hi);
      if IsEmptyRange(lo, hi) {
        assert KeysWithin(entries, lo, hi) == {};
        return [];
      }
      assert RangeAllowed(lo, hi);
      out := WalkKeys(set k | k in entries && InBounds(k, lo, hi));
    }

    /** The ids under the given keys, keys in ascending order. */
    method WalkKeys(keys: set<Value>) returns (out: seq<u64>)
      requires keys <= entries.Keys
      ensures forall k :: k in SortedKeys(keys) ==> k in entries
      ensures out == IdsUnder(entries, SortedKeys(keys))
    {
      hide SortedKeys, SortedIds, Cmp;
      SortedKeysLaws(keys);
      out := [];
      var rest := keys;
      while rest != {}
        invariant rest <= keys
        invariant forall k :: k in SortedKeys(rest) ==> k in rest
        invariant out + IdsUnder(entries, SortedKeys(rest)) == IdsUnder(entries, SortedKeys(keys))
        decreases |rest|
      {
        var k := FirstKey(rest);
        assert SortedKeys(rest)[1..] == SortedKeys(rest - {k});
        SortedKeysLaws(rest - {k});
        var ids := ListIds(entries[k]);
        out := out + ids;
        rest := rest - {k};
      }
      NoKeys();
    }
  }
}
