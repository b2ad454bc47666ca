/** The codec as it runs: encoders that push onto a vector, and a bounds-checked
    cursor that the decoders advance. Both compute the functions of `Codec`. */
module CodecMachine {
  import opened Bytes
  import opened Documents
  import opened Errors
  import opened Codec

  /** A growable byte vector. */
  class ByteVec {
    var data: seq<byte>

    constructor ()
      ensures data == []
    {
      data := [];
    }

    method Clear()
      modifies this
      ensures data == []
    {
      data := [];
    }

    method Push(b: byte)
      modifies this
      ensures data == old(data) + [b]
    {
      data := data + [b];
    }

    method Extend(s: seq<byte>)
      modifies this
      ensures data == old(data) + s
    {
      data := data + s;
    }

    /** Overwrite the bytes from `at`. */
    method Fill(at: nat, s: seq<byte>)
      requires at + |s| <= |data|
      modifies this
      ensures data == old(data)[..at] + s + old(data)[at + |s|..]
    {
      data := data[..at] + s + data[at + |s|..];
    }
  }

  // ---- Encoders -------------------------------------------------------------------

  method WriteLen(out: ByteVec, len: nat) returns (r: Result<Unit>)
    modifies out
    ensures r == if len < U32_LIMIT then Success(Unit) else Failure(ValueTooLarge)
    ensures out.data == if r.Success? then old(out.data) + LE(len, 4) else old(out.data)
  {
    if len >= U32_LIMIT {
      return Failure(ValueTooLarge);
    }
    out.Extend(LE(len, 4));
    return Success(Unit);
  }

  /** What an encoder has done to `out`: appended all of the encoding, or returned
      an error after appending a part of it. */
  ghost predicate Wrote(before: seq<byte>, after: seq<byte>, encoding: seq<byte>, fits: bool, r: Result<Unit>) {
    && r == (if fits then Success(Unit) else Failure(ValueTooLarge))
    && before <= after <= before + encoding
    && (fits ==> after == before + encoding)
  }

  /** A part of the first of two pieces is a part of both. */
  lemma PartOfBoth(start: seq<byte>, before: seq<byte>, after: seq<byte>, head: seq<byte>, tail: seq<byte>)
    requires start <= before <= after <= before + head
    ensures start <= after <= before + (head + tail)
  {
    var all := before + (head + tail);
    assert all[..|before + head|] == before + head;
    assert after == all[..|after|];
    assert start == before[..|start|] == after[..|start|];
  }

  /** A tag and then a part, or all, of what follows it. */
  lemma AfterTag(before: seq<byte>, tag: seq<byte>, after: seq<byte>, rest: seq<byte>)
    requires before + tag <= after <= before + tag + rest
    ensures before <= after <= before + (tag + rest)
    ensures before + tag + rest == before + (tag + rest)
  {
    Regroup(before, tag, rest);
    assert before == (before + tag)[..|before|] == after[..|before|];
  }

  method EncodeDocumentInto(out: ByteVec, d: Document) returns (r: Result<Unit>)
    modifies out
    ensures Wrote(old(out.data), out.data, EncodeDoc(d), FitsDoc(d), r)
    decreases d, 1
  {
    hide EncodeValue, EncodeField, EncodeFields, Fits, LE;
    ghost var all := EncodeDoc(d);
    var _ :- WriteLen(out, |d|);
    var i := 0;
    assert d[0..] == d;
    while i < |d|
      invariant 0 <= i <= |d|
      invariant forall j :: 0 <= j < i ==> |d[j].key| < U32_LIMIT && Fits(d[j].value)
      invariant old(out.data) <= out.data
      invariant out.data + EncodeFields(d[i..]) == old(out.data) + all
    {
      ghost var before := out.data;
      FieldsFrom(d, i);
      var wrote := EncodeFieldInto(out, d[i]);
      PartOfBoth(old(out.data), before, out.data, EncodeField(d[i]), EncodeFields(d[i + 1..]));
      var _ :- wrote;
      Regroup(before, EncodeField(d[i]), EncodeFields(d[i + 1..]));
      i := i + 1;
    }
    FieldsFrom(d, i);
    return Success(Unit);
  }

  method EncodeFieldInto(out: ByteVec, f: Field) returns (r: Result<Unit>)
    modifies out
    ensures Wrote(old(out.data), out.data, EncodeField(f), |f.key| < U32_LIMIT && Fits(f.value), r)
    decreases f
  {
    hide EncodeValue, Fits, LE;
    ghost var before, head := out.data, LE(|f.key|, 4) + f.key;
    assert EncodeField(f) == head + EncodeValue(f.value);
    hide EncodeField;
    var _ :- WriteLen(out, |f.key|);
    out.Extend(f.key);
    Regroup(before, LE(|f.key|, 4), f.key);
    r := EncodeValueInto(out, f.value);
    AfterTag(before, head, out.data, EncodeValue(f.value));
  }

  lemma Regroup(a: seq<byte>, b: seq<byte>, c: seq<byte>)
    ensures a + b + c == a + (b + c)
  {}

  /** A length and the bytes it counts. */
  method WriteBytes(out: ByteVec, s: seq<byte>) returns (r: Result<Unit>)
    modifies out
    ensures Wrote(old(out.data), out.data, LE(|s|, 4) + s, |s| < U32_LIMIT, r)
  {
    var _ :- WriteLen(out, |s|);
    out.Extend(s);
    return Success(Unit);
  }

  method EncodeValueInto(out: ByteVec, v: Value) returns (r: Result<Unit>)
    modifies out
    ensures Wrote(old(out.data), out.data, EncodeValue(v), Fits(v), r)
    decreases v
  {
    hide LE, EncodeItems, EncodeDoc;
    r := Success(Unit);
    match v {
      case Null =>
        out.Push(0);
      case Bool(b) =>
        out.Push(1);
        out.Push(if b then 1 else 0);
        Regroup(old(out.data), [1], [if b then 1 else 0]);
      case Int(n) =>
        out.Push(2);
        out.Extend(LE(ToUnsigned(n), 8));
        Regroup(old(out.data), [2], LE(ToUnsigned(n), 8));
      case Float(bits) =>
        out.Push(3);
        out.Extend(LE(bits, 8));
        Regroup(old(out.data), [3], LE(bits, 8));
      case Str(text) =>
        out.Push(4);
        r := WriteBytes(out, text);
        AfterTag(old(out.data), [4], out.data, LE(|text|, 4) + text);
        Regroup([4], LE(|text|, 4), text);
      case Blob(data) =>
        out.Push(5);
        r := WriteBytes(out, data);
        AfterTag(old(out.data), [5], out.data, LE(|data|, 4) + data);
        Regroup([5], LE(|data|, 4), data);
      case Array(items) =>
        out.Push(6);
        r := EncodeItemsInto(out, items);
        AfterTag(old(out.data), [6], out.data, LE(|items|, 4) + EncodeItems(items));
        Regroup([6], LE(|items|, 4), EncodeItems(items));
      case Object(d) =>
        out.Push(7);
        r := EncodeDocumentInto(out, d);
        AfterTag(old(out.data), [7], out.data, EncodeDoc(d));
    }
  }

  method EncodeItemsInto(out: ByteVec, items: seq<Value>) returns (r: Result<Unit>)
    modifies out
    ensures Wrote(old(out.data), out.data, LE(|items|, 4) + EncodeItems(items),
                  |items| < U32_LIMIT && (forall i :: 0 <= i < |items| ==> Fits(items[i])), r)
    decreases items
  {
    hide EncodeValue, EncodeItems, Fits, LE;
    ghost var start, all := out.data, LE(|items|, 4) + EncodeItems(items);
    var _ :- WriteLen(out, |items|);
    var i := 0;
    assert items[0..] == items;
    Regroup(start, LE(|items|, 4), EncodeItems(items));
    while i < |items|
      invariant 0 <= i <= |items|
      invariant forall j :: 0 <= j < i ==> Fits(items[j])
      invariant start <= out.data
      invariant out.data + EncodeItems(items[i..]) == start + all
    {
      ghost var before := out.data;
      ghost var head, tail := EncodeValue(items[i]), EncodeItems(items[i + 1..]);
      ItemsFrom(items, i);
      var wrote := EncodeValueInto(out, items[i]);
      PartOfBoth(start, before, out.data, head, tail);
      var _ :- wrote;
      Regroup(before, head, tail);
      i := i + 1;
    }
    ItemsFrom(items, i);
    assert out.data == start + all;
    return Success(Unit);
  }

  lemma ItemsFrom(items: seq<Value>, i: nat)
    requires i <= |items|
    ensures i < |items| ==> EncodeItems(items[i..]) == EncodeValue(items[i]) + EncodeItems(items[i + 1..])
    ensures i == |items| ==> EncodeItems(items[i..]) == []
  {
    if i < |items| {
      assert items[i..][1..] == items[i + 1..];
    }
  }

  lemma FieldsFrom(d: Document, i: nat)
    requires i <= |d|
    ensures i < |d| ==> EncodeFields(d[i..]) == EncodeField(d[i]) + EncodeFields(d[i + 1..])
    ensures i == |d| ==> EncodeFields(d[i..]) == []
  {
    if i < |d| {
      assert d[i..][1..] == d[i + 1..];
    }
  }

  // ---- The cursor -----------------------------------------------------------------

  /** A forward-only cursor over `buf`. */
  class Reader {
    const buf: seq<byte>
    var pos: nat

    constructor (buf: seq<byte>)
      ensures this.buf == buf && pos == 0
    {
      this.buf := buf;
      pos := 0;
    }

    ghost predicate Valid()
      reads this
    {
      pos <= |buf|
    }

    /** The bytes not read yet. */
    ghost function Rest(): seq<byte>
      requires Valid()
      reads this
    {
      buf[pos..]
    }

    /** The cursor did what the parser `p` says: same value and same rest, or the
        same error. */
    ghost predicate Agrees<T>(p: Parsed<T>, r: Result<T>)
      requires Valid()
      reads this
    {
      match p
      case Good(v, rest) => r == Success(v) && Rest() == rest
      case Bad(why) => r == Failure(Corrupt(why))
    }

    method Take(n: nat) returns (r: Result<seq<byte>>)
      requires Valid()
      modifies this
      ensures Valid() && old(pos) <= pos && Agrees(Codec.Take(old(Rest()), n), r)
    {
      var end := pos + n;
      if end > |buf| {
        return Failure(Corrupt(UnexpectedEnd));
      }
      r := Success(buf[pos..end]);
      assert buf[pos..][..n] == buf[pos..end];
      assert buf[pos..][n..] == buf[end..];
      pos := end;
    }

    method ReadU8() returns (r: Result<byte>)
      requires Valid()
      modifies this
      ensures Valid() && old(pos) <= pos
      ensures if old(Rest()) == [] then r == Failure(Corrupt(UnexpectedEnd))
              else r == Success(old(Rest())[0]) && Rest() == old(Rest())[1..]
    {
      var b :- Take(1);
      return Success(b[0]);
    }

    method ReadLen() returns (r: Result<nat>)
      requires Valid()
      modifies this
      ensures Valid() && old(pos) <= pos && Agrees(Codec.ReadLen(old(Rest())), r)
    {
      var b :- Take(4);
      return Success(FromLE(b));
    }

    method ReadU64() returns (r: Result<u64>)
      requires Valid()
      modifies this
      ensures Valid() && old(pos) <= pos && Agrees(Codec.ReadU64(old(Rest())), r)
    {
      var b :- Take(8);
      FromLE64Bound(b);
      return Success(FromLE(b));
    }

    method ReadText(why: Reason) returns (r: Result<seq<byte>>)
      requires Valid()
      modifies this
      ensures Valid() && old(pos) <= pos && Agrees(Codec.ReadText(old(Rest()), why), r)
    {
      var n :- ReadLen();
      var text :- Take(n);
      if !ValidUtf8(text) {
        return Failure(Corrupt(why));
      }
      return Success(text);
    }

    method ReadValue() returns (r: Result<Value>)
      requires Valid()
      modifies this
      ensures Valid() && old(pos) <= pos && Agrees(Codec.ReadValue(old(Rest())), r)
      decreases |buf| - pos, 0
    {
      hide FromLE, Codec.ReadText, Codec.ReadLen, Codec.ReadU64;
      var tag :- ReadU8();
      if tag == 0 {
        return Success(Null);
      } else if tag == 1 {
        var b :- ReadU8();
        return Success(Bool(b != 0));
      } else if tag == 2 {
        var n :- ReadU64();
        return Success(Int(ToSigned(n)));
      } else if tag == 3 {
        var n :- ReadU64();
        return Success(Float(n));
      } else if tag == 4 {
        var text :- ReadText(BadStringText);
        return Success(Str(text));
      } else if tag == 5 {
        var n :- ReadLen();
        var data :- Take(n);
        return Success(Blob(data));
      } else if tag == 6 {
        var items :- ReadItems();
        return Success(Array(items));
      } else if tag == 7 {
        var d :- ReadDocument();
        return Success(Object(d));
      }
      return Failure(Corrupt(UnknownTag));
    }

    /** The array branch: a length, then that many values. */
    method ReadItems() returns (r: Result<seq<Value>>)
      requires Valid()
      modifies this
      ensures Valid() && old(pos) <= pos
      ensures match Codec.ReadLen(old(Rest()))
              case Good(n, rest) => Agrees(Codec.ReadItems(rest, n, []), r)
              case Bad(why) => r == Failure(Corrupt(why))
      decreases |buf| - pos, 0
    {
      hide FromLE, Codec.ReadValue;
      var n :- ReadLen();
      ghost var start := Rest();
      var items: seq<Value> := [];
      var i := 0;
      while i < n
        invariant 0 <= i <= n && Valid() && old(pos) < pos
        invariant Codec.ReadItems(start, n, []) == Codec.ReadItems(Rest(), n - i, items)
      {
        var v :- ReadValue();
        items := items + [v];
        i := i + 1;
      }
      return Success(items);
    }

    method ReadDocument() returns (r: Result<Document>)
      requires Valid()
      modifies this
      ensures Valid() && old(pos) <= pos && Agrees(Codec.ReadDoc(old(Rest())), r)
      decreases |buf| - pos, 0
    {
      hide FromLE, Codec.ReadValue, Codec.ReadText, Set;
      var n :- ReadLen();
      ghost var start := Rest();
      var doc := new DocumentBuilder();
      var i := 0;
      while i < n
        invariant 0 <= i <= n && Valid() && old(pos) < pos
        invariant fresh(doc)
        invariant Codec.ReadFields(start, n, []) == Codec.ReadFields(Rest(), n - i, doc.fields)
      {
        var key :- ReadText(BadKeyText);
        var v :- ReadValue();
        doc.SetField(key, v);
        i := i + 1;
      }
      return Success(doc.fields);
    }
  }

  /** Decode a whole body. */
  method DecodeDocument(bytes: seq<byte>) returns (r: Result<Document>)
    ensures r == Decode(bytes)
  {
    var reader := new Reader(bytes);
    assert bytes[0..] == bytes;
    var d :- reader.ReadDocument();
    if |reader.buf| - reader.pos != 0 {
      return Failure(Corrupt(TrailingBytes));
    }
    return Success(d);
  }
}
