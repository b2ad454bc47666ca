/** Values and documents: an ordered list of named fields, and its updates. */
module Documents {
  import opened Bytes

  /** A string is its UTF-8 bytes; a float is its 64-bit pattern. */
  datatype Value =
    | Null
    | Bool(b: bool)
    | Int(n: i64)
    | Float(bits: u64)
    | Str(text: seq<byte>)
    | Blob(data: seq<byte>)
    | Array(items: seq<Value>)
    | Object(doc: Document)

  datatype Field = Field(key: seq<byte>, value: Value)

  type Document = seq<Field>

  datatype Option<+T> = None | Some(value: T)

  ghost predicate DistinctKeys(d: Document) {
    forall i, j :: 0 <= i < j < |d| ==> d[i].key != d[j].key
  }

  ghost predicate HasKey(d: Document, key: seq<byte>) {
    exists i :: 0 <= i < |d| && d[i].key == key
  }

  /** What the types of the source guarantee of every value: text is UTF-8 and no
      document repeats a key, at every level. */
  ghost predicate WfValue(v: Value)
    decreases v
  {
    match v
    case Str(s) => ValidUtf8(s)
    case Array(items) => forall i :: 0 <= i < |items| ==> WfValue(items[i])
    case Object(d) => WfDoc(d)
    case _ => true
  }

  ghost predicate WfDoc(d: Document)
    decreases d
  {
    && DistinctKeys(d)
    && forall i :: 0 <= i < |d| ==> ValidUtf8(d[i].key) && WfValue(d[i].value)
  }

  /** Nesting of containers inside a value. */
  ghost function Depth(v: Value): nat
    decreases v
  {
    match v
    case Array(items) => 1 + DepthOfItems(items)
    case Object(d) => 1 + DepthOfDoc(d)
    case _ => 0
  }

  ghost function DepthOfItems(items: seq<Value>): nat
    decreases items
  {
    if items == [] then 0 else Max(Depth(items[0]), DepthOfItems(items[1..]))
  }

  ghost function DepthOfDoc(d: Document): nat
    decreases d
  {
    if d == [] then 0 else Max(Depth(d[0].value), DepthOfDoc(d[1..]))
  }

  function Max(a: nat, b: nat): nat { if a < b then b else a }

  // ---- Pure updates -----------------------------------------------------------

  /** The first field named `key`. */
  function Get(d: Document, key: seq<byte>): Option<Value> {
    if d == [] then None
    else if d[0].key == key then Some(d[0].value)
    else Get(d[1..], key)
  }

  /** Replace in place when the key is present, append otherwise. */
  function Set(d: Document, key: seq<byte>, value: Value): Document {
    if d == [] then [Field(key, value)]
    else if d[0].key == key then [Field(key, value)] + d[1..]
    else [d[0]] + Set(d[1..], key, value)
  }

  /** Drop the first field named `key`. */
  function Remove(d: Document, key: seq<byte>): Document {
    if d == [] then []
    else if d[0].key == key then d[1..]
    else [d[0]] + Remove(d[1..], key)
  }

  /** Set every pair in turn: later duplicates overwrite earlier ones. */
  function SetAll(d: Document, pairs: seq<Field>): Document
    decreases |pairs|
  {
    if pairs == [] then d else SetAll(Set(d, pairs[0].key, pairs[0].value), pairs[1..])
  }

  // ---- Laws -------------------------------------------------------------------

  lemma {:induction false} GetFinds(d: Document, key: seq<byte>)
    ensures Get(d, key).Some? <==> HasKey(d, key)
    ensures DistinctKeys(d) ==>
              forall i :: 0 <= i < |d| && d[i].key == key ==> Get(d, key) == Some(d[i].value)
  {
    if d != [] {
      GetFinds(d[1..], key);
      if HasKey(d, key) && d[0].key != key {
        var i :| 0 <= i < |d| && d[i].key == key;
        assert d[1..][i - 1].key == key;
      }
    }
  }

  /** `set` keeps every position and key; it adds one field at the end exactly
      when the key is new. */
  lemma {:induction false} SetShape(d: Document, key: seq<byte>, value: Value)
    ensures var r := Set(d, key, value);
            && |r| == (if HasKey(d, key) then |d| else |d| + 1)
            && (forall i :: 0 <= i < |d| ==> r[i].key == d[i].key)
            && (!HasKey(d, key) ==> r == d + [Field(key, value)])
            && (forall i :: 0 <= i < |r| ==> r[i] == Field(key, value) || (i < |d| && r[i] == d[i]))
  {
    if d != [] {
      if d[0].key == key {
        assert HasKey(d, key);
      } else {
        SetShape(d[1..], key, value);
        assert HasKey(d, key) <==> HasKey(d[1..], key) by {
          if HasKey(d, key) {
            var i :| 0 <= i < |d| && d[i].key == key;
            assert d[1..][i - 1].key == key;
          }
        }
        assert d == [d[0]] + d[1..];
        var r, t := Set(d, key, value), Set(d[1..], key, value);
        forall i | 0 <= i < |r|
          ensures r[i] == Field(key, value) || (i < |d| && r[i] == d[i])
        {
          if i > 0 {
            assert r[i] == t[i - 1];
          }
        }
      }
    }
  }

  lemma SetKeepsDistinct(d: Document, key: seq<byte>, value: Value)
    requires DistinctKeys(d)
    ensures DistinctKeys(Set(d, key, value))
  {
    SetShape(d, key, value);
    if !HasKey(d, key) {
      forall i | 0 <= i < |d|
        ensures d[i].key != key
      {}
    }
  }

  /** Reading after `set`: the new value under its key, the old one elsewhere. */
  lemma {:induction false} GetAfterSet(d: Document, key: seq<byte>, value: Value, other: seq<byte>)
    ensures Get(Set(d, key, value), other) == if other == key then Some(value) else Get(d, other)
  {
    if d != [] && d[0].key != key {
      GetAfterSet(d[1..], key, value, other);
      assert Set(d, key, value)[1..] == Set(d[1..], key, value);
    } else if d != [] {
      assert Set(d, key, value)[1..] == d[1..];
    }
  }

  lemma {:induction false} RemoveShape(d: Document, key: seq<byte>)
    requires DistinctKeys(d)
    ensures DistinctKeys(Remove(d, key))
    ensures forall i :: 0 <= i < |Remove(d, key)| ==> Remove(d, key)[i] in d
  {
    if d != [] && d[0].key != key {
      RemoveShape(d[1..], key);
      var t := Remove(d[1..], key);
      forall j | 0 <= j < |t|
        ensures t[j].key != d[0].key && t[j] in d
      {
        assert t[j] in d[1..];
      }
    }
  }

  /** Reading after `remove`: nothing under its key, the old value elsewhere. */
  lemma {:induction false} GetAfterRemove(d: Document, key: seq<byte>, other: seq<byte>)
    requires DistinctKeys(d)
    ensures DistinctKeys(Remove(d, key))
    ensures Get(Remove(d, key), other) == if other == key then None else Get(d, other)
  {
    RemoveShape(d, key);
    if d == [] {
    } else if d[0].key == key {
      GetFinds(d[1..], key);
    } else {
      GetAfterRemove(d[1..], key, other);
      assert Remove(d, key)[1..] == Remove(d[1..], key);
    }
  }

  lemma {:induction false} SetAllKeepsDistinct(d: Document, pairs: seq<Field>)
    requires DistinctKeys(d)
    ensures DistinctKeys(SetAll(d, pairs))
    decreases |pairs|
  {
    if pairs != [] {
      SetKeepsDistinct(d, pairs[0].key, pairs[0].value);
      SetAllKeepsDistinct(Set(d, pairs[0].key, pairs[0].value), pairs[1..]);
    }
  }

  /** Removing takes out the first field with the key and closes the gap, and
      nothing else; without the key it does nothing. */
  lemma {:induction false} RemoveTakesFirst(d: Document, key: seq<byte>)
    ensures !HasKey(d, key) ==> Remove(d, key) == d
    ensures forall i :: IsFirst(d, i, key) ==> Remove(d, key) == d[..i] + d[i + 1..]
  {
    if d != [] {
      RemoveTakesFirst(d[1..], key);
      assert d == [d[0]] + d[1..];
      if HasKey(d[1..], key) {
        var i :| 0 <= i < |d[1..]| && d[1..][i].key == key;
        assert d[i + 1].key == key;
      }
      forall i | IsFirst(d, i, key)
        ensures Remove(d, key) == d[..i] + d[i + 1..]
      {
        if i > 0 {
          assert forall k :: 0 <= k < |d[1..]| ==> d[1..][k] == d[k + 1];
          assert IsFirst(d[1..], i - 1, key);
          assert d[..i] == [d[0]] + d[1..][..i - 1] && d[i + 1..] == d[1..][i..];
        }
      }
    }
  }

  ghost predicate IsFirst(d: Document, i: int, key: seq<byte>) {
    0 <= i < |d| && d[i].key == key && forall k :: 0 <= k < i ==> d[k].key != key
  }

  ghost predicate IsLast(d: Document, i: int, key: seq<byte>) {
    0 <= i < |d| && d[i].key == key && forall k :: i < k < |d| ==> d[k].key != key
  }

  lemma {:induction false} SetAllSnoc(d: Document, pairs: seq<Field>, f: Field)
    ensures SetAll(d, pairs + [f]) == Set(SetAll(d, pairs), f.key, f.value)
    decreases |pairs|
  {
    if pairs == [] {
      assert pairs + [f] == [f] && [f][1..] == [];
      assert SetAll(d, [f]) == SetAll(Set(d, f.key, f.value), []);
    } else {
      assert (pairs + [f])[1..] == pairs[1..] + [f];
      SetAllSnoc(Set(d, pairs[0].key, pairs[0].value), pairs[1..], f);
    }
  }

  /** Collecting pairs keeps the last value of every key, and no key that is in no
      pair. */
  lemma {:induction false} GetAfterSetAll(pairs: seq<Field>, key: seq<byte>)
    ensures Get(SetAll([], pairs), key) == None <==> !HasKey(pairs, key)
    ensures forall i :: IsLast(pairs, i, key) ==> Get(SetAll([], pairs), key) == Some(pairs[i].value)
    decreases |pairs|
  {
    if pairs != [] {
      var n := |pairs| - 1;
      var init, f := pairs[..n], pairs[n];
      assert pairs == init + [f];
      GetAfterSetAll(init, key);
      SetAllSnoc([], init, f);
      GetAfterSet(SetAll([], init), f.key, f.value, key);
      if HasKey(pairs, key) && f.key != key {
        var i :| 0 <= i < |pairs| && pairs[i].key == key;
        assert init[i].key == key;
      }
      if HasKey(init, key) {
        var i :| 0 <= i < |init| && init[i].key == key;
        assert pairs[i].key == key;
      }
      assert f.key == key ==> pairs[n].key == key;
      forall i | IsLast(pairs, i, key)
        ensures Get(SetAll([], pairs), key) == Some(pairs[i].value)
      {
        if i < n {
          assert pairs[n].key != key;
          assert IsLast(init, i, key);
        }
      }
    }
  }

  /** Keys come once each, in order of first appearance: before any pair with a later
      key there is one with each earlier key. */
  ghost predicate InOrderOfAppearance(d: Document, pairs: seq<Field>) {
    && DistinctKeys(d)
    && (forall key :: HasKey(d, key) <==> HasKey(pairs, key))
    && forall i, j, q :: 0 <= i < j < |d| && 0 <= q < |pairs| && pairs[q].key == d[j].key ==>
         AppearsBefore(pairs, q, d[i].key)
  }

  ghost predicate AppearsBefore(pairs: seq<Field>, q: int, key: seq<byte>) {
    exists p :: 0 <= p < q && p < |pairs| && pairs[p].key == key
  }

  lemma {:induction false} SetAllKeepsOrder(pairs: seq<Field>)
    ensures InOrderOfAppearance(SetAll([], pairs), pairs)
    decreases |pairs|
  {
    if pairs != [] {
      var n := |pairs| - 1;
      assert pairs == pairs[..n] + [pairs[n]];
      SetAllKeepsOrder(pairs[..n]);
      SetAllSnoc([], pairs[..n], pairs[n]);
      OrderKept(SetAll([], pairs[..n]), pairs[..n], pairs[n]);
    }
  }

  lemma OrderKept(d: Document, pairs: seq<Field>, f: Field)
    requires InOrderOfAppearance(d, pairs)
    ensures InOrderOfAppearance(Set(d, f.key, f.value), pairs + [f])
  {
    var r, all := Set(d, f.key, f.value), pairs + [f];
    SetShape(d, f.key, f.value);
    SetKeepsDistinct(d, f.key, f.value);
    forall key
      ensures HasKey(r, key) <==> HasKey(all, key)
    {
      HasKeyAfterSet(d, f.key, f.value, key);
      HasKeySnoc(pairs, f, key);
    }
    forall i, j, q | 0 <= i < j < |r| && 0 <= q < |all| && all[q].key == r[j].key
      ensures AppearsBefore(all, q, r[i].key)
    {
      assert r[i].key == d[i].key;
      if q < |pairs| {
        AppearsInDocument(d, pairs, q);
        assert j < |d| && pairs[q].key == d[j].key;
        var p :| 0 <= p < q && p < |pairs| && pairs[p].key == d[i].key;
        assert all[p].key == r[i].key;
      } else {
        assert HasKey(d, d[i].key);
        var p :| 0 <= p < |pairs| && pairs[p].key == d[i].key;
        assert all[p].key == r[i].key;
      }
    }
  }

  lemma AppearsInDocument(d: Document, pairs: seq<Field>, q: nat)
    requires InOrderOfAppearance(d, pairs) && q < |pairs|
    ensures HasKey(d, pairs[q].key)
  {
    assert HasKey(pairs, pairs[q].key);
  }

  lemma HasKeyAfterSet(d: Document, key: seq<byte>, value: Value, other: seq<byte>)
    ensures HasKey(Set(d, key, value), other) <==> HasKey(d, other) || other == key
  {
    GetFinds(d, other);
    GetFinds(Set(d, key, value), other);
    GetAfterSet(d, key, value, other);
  }

  lemma HasKeySnoc(d: Document, f: Field, key: seq<byte>)
    ensures HasKey(d + [f], key) <==> HasKey(d, key) || f.key == key
  {
    if HasKey(d, key) {
      var i :| 0 <= i < |d| && d[i].key == key;
      assert (d + [f])[i].key == key;
    }
    assert (d + [f])[|d|].key == f.key;
  }

  /** Fields with new, distinct keys are appended as they stand. */
  lemma {:induction false} SetAllDistinct(d: Document, pairs: seq<Field>)
    requires DistinctKeys(d + pairs)
    ensures SetAll(d, pairs) == d + pairs
    decreases |pairs|
  {
    if pairs == [] {
      assert d + pairs == d;
    } else {
      forall i | 0 <= i < |d|
        ensures d[i].key != pairs[0].key
      {
        assert (d + pairs)[i] == d[i] && (d + pairs)[|d|] == pairs[0];
      }
      SetShape(d, pairs[0].key, pairs[0].value);
      assert d + [pairs[0]] + pairs[1..] == d + pairs;
      SetAllDistinct(d + [pairs[0]], pairs[1..]);
    }
  }

  /** A container is deeper than anything in it. */
  lemma {:induction false} DepthOfItem(items: seq<Value>, i: nat)
    requires i < |items|
    ensures Depth(Array(items)) > Depth(items[i])
    decreases i
  {
    if i > 0 {
      DepthOfItem(items[1..], i - 1);
    }
  }

  lemma {:induction false} DepthOfField(d: Document, i: nat)
    requires i < |d|
    ensures Depth(Object(d)) > Depth(d[i].value)
    decreases i
  {
    if i > 0 {
      DepthOfField(d[1..], i - 1);
    }
  }

  lemma SkippedAt(d: Document, i: nat, key: seq<byte>, value: Value)
    requires i < |d| && d[i].key != key
    ensures d[..i] + Set(d[i..], key, value) == d[..i + 1] + Set(d[i + 1..], key, value)
  {
    assert d[i..][1..] == d[i + 1..];
    assert d[..i] + [d[i]] == d[..i + 1];
  }

  lemma ReplacedAt(d: Document, i: nat, key: seq<byte>, value: Value)
    requires i < |d| && d[i].key == key
    ensures d[..i] + Set(d[i..], key, value) == d[i := Field(key, value)]
  {
    assert d[i..][1..] == d[i + 1..];
  }

  lemma PassedAt(d: Document, i: nat, key: seq<byte>)
    requires i < |d| && d[i].key != key
    ensures d[..i] + Remove(d[i..], key) == d[..i + 1] + Remove(d[i + 1..], key)
    ensures Get(d[i..], key) == Get(d[i + 1..], key)
  {
    assert d[i..][1..] == d[i + 1..];
    assert d[..i] + [d[i]] == d[..i + 1];
  }

  lemma RemovedAt(d: Document, i: nat, key: seq<byte>)
    requires i < |d| && d[i].key == key
    ensures Remove(d[i..], key) == d[i + 1..] && Get(d[i..], key) == Some(d[i].value)
  {
    assert d[i..][1..] == d[i + 1..];
  }

  // ---- The mutable document ---------------------------------------------------

  /** A document under construction: the source's `fields` vector. */
  class DocumentBuilder {
    var fields: Document

    constructor ()
      ensures fields == []
    {
      fields := [];
    }

    method SetField(key: seq<byte>, value: Value)
      modifies this
      ensures fields == Set(old(fields), key, value)
    {
      var i := 0;
      while i < |fields| && fields[i].key != key
        invariant 0 <= i <= |fields| && fields == old(fields)
        invariant Set(fields, key, value) == fields[..i] + Set(fields[i..], key, value)
      {
        SkippedAt(fields, i, key, value);
        i := i + 1;
      }
      if i < |fields| {
        ReplacedAt(fields, i, key, value);
        fields := fields[i := Field(key, value)];
      } else {
        assert fields[..i] == fields;
        fields := fields + [Field(key, value)];
      }
    }

    method GetField(key: seq<byte>) returns (r: Option<Value>)
      ensures r == Get(fields, key)
    {
      var i := 0;
      while i < |fields| && fields[i].key != key
        invariant 0 <= i <= |fields|
        invariant Get(fields, key) == Get(fields[i..], key)
      {
        assert fields[i..][1..] == fields[i + 1..];
        i := i + 1;
      }
      r := if i < |fields| then Some(fields[i].value) else None;
    }

    method RemoveField(key: seq<byte>) returns (r: Option<Value>)
      modifies this
      ensures fields == Remove(old(fields), key)
      ensures r == Get(old(fields), key)
    {
      var i := 0;
      while i < |fields| && fields[i].key != key
        invariant 0 <= i <= |fields| && fields == old(fields)
        invariant Get(fields, key) == Get(fields[i..], key)
        invariant Remove(fields, key) == fields[..i] + Remove(fields[i..], key)
      {
        PassedAt(fields, i, key);
        i := i + 1;
      }
      if i == |fields| {
        assert fields[..i] + [] == fields;
        return None;
      }
      RemovedAt(fields, i, key);
      r := Some(fields[i].value);
      fields := fields[..i] + fields[i + 1..];
    }

    method Clear()
      modifies this
      ensures fields == []
    {
      fields := [];
    }

    /** Collect key/value pairs into a document. */
    constructor FromPairs(pairs: seq<Field>)
      ensures fields == SetAll([], pairs)
    {
      fields := [];
      new;
      var i := 0;
      while i < |pairs|
        invariant 0 <= i <= |pairs|
        invariant SetAll([], pairs) == SetAll(fields, pairs[i..])
      {
        assert pairs[i..][1..] == pairs[i + 1..];
        SetField(pairs[i].key, pairs[i].value);
        i := i + 1;
      }
    }
  }
}
