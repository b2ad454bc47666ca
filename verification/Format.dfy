/** The documented layout of a store file, byte by byte, of what the functions print. */
module Format {
  import opened Bytes
  import opened Documents
  import opened Codec
  import opened Log
  import opened Store
  import Crc32c

  /** Byte `i` of a little-endian integer. */
  function ByteAt(n: nat, i: nat): byte {
    n / Pow256(i) % 256
  }

  /** Magic, version 1, six reserved zeros. */
  lemma HeaderLayout()
    ensures FreshHeader() == [0x42, 0x49, 0x53, 0x4F, 0x4E, 0x44, 0x42, 0x31, 1, 0, 0, 0, 0, 0, 0, 0]
  {
    assert LE(1, 2) == [1] + LE(0, 1) && LE(0, 1) == [0] + LE(0, 0);
  }

  /** Length and checksum of the payload in four bytes each, the operation, the id in
      eight bytes, the body. */
  lemma FrameLayout(r: Record)
    requires WfRecord(r)
    ensures |Frame(r)| == 17 + |r.body|
    ensures forall i :: 0 <= i < 4 ==> Frame(r)[i] == ByteAt(9 + |r.body|, i)
    ensures forall i :: 0 <= i < 4 ==> Frame(r)[4 + i] == ByteAt(Crc32c.Crc(Frame(r)[8..]), i)
    ensures Frame(r)[8] == r.op
    ensures forall i :: 0 <= i < 8 ==> Frame(r)[9 + i] == ByteAt(r.id, i)
    ensures Frame(r)[17..] == r.body
  {
    hide LE, Crc32c.Crc, ByteAt;
    var p := Payload(r);
    assert Frame(r)[8..] == p;
    forall i | 0 <= i < 4
      ensures Frame(r)[i] == ByteAt(9 + |r.body|, i)
    {
      assert Frame(r)[i] == LE(|p|, 4)[i];
      IsByteAt(|p|, 4, i);
    }
    forall i | 0 <= i < 4
      ensures Frame(r)[4 + i] == ByteAt(Crc32c.Crc(p), i)
    {
      assert Frame(r)[4 + i] == LE(Crc32c.Crc(p), 4)[i];
      IsByteAt(Crc32c.Crc(p), 4, i);
    }
    forall i | 0 <= i < 8
      ensures Frame(r)[9 + i] == ByteAt(r.id, i)
    {
      assert Frame(r)[9 + i] == p[1 + i] == LE(r.id, 8)[i];
      IsByteAt(r.id, 8, i);
    }
    assert Frame(r)[17..] == p[9..];
  }

  lemma IsByteAt(n: nat, width: nat, i: nat)
    requires i < width
    ensures LE(n, width)[i] == ByteAt(n, i)
  {
    LEAt(n, width, i);
  }

  /** A record is a put, 1, or a delete, 2, with a payload of at most 64 MiB. */
  lemma RecordLimits(r: Record)
    ensures WfRecord(r) <==> (r.op == 1 || r.op == 2) && 9 + |r.body| <= 67_108_864
  {}

  /** A put carries the encoded document, if that leaves the payload within the limit;
      a delete is nine bytes of payload. */
  lemma StoredRecords(id: u64, doc: Document)
    ensures PutRecord(id, doc) == Record(1, id, EncodeDoc(doc))
    ensures Accepts(doc) <==> 9 + |EncodeDoc(doc)| <= 67_108_864
    ensures Payload(DeleteRecord(id))[0] == 2 && |Payload(DeleteRecord(id))| == 9
  {
    hide EncodeDoc;
  }

  /** The tag of each variant, and what follows it. */
  lemma ValueLayout(v: Value)
    ensures v.Null? ==> EncodeValue(v) == [0]
    ensures v.Bool? ==> EncodeValue(v) == [1, if v.b then 1 else 0]
    ensures v.Int? ==> |EncodeValue(v)| == 9 && EncodeValue(v)[0] == 2
                       && forall i :: 0 <= i < 8 ==> EncodeValue(v)[1 + i] == ByteAt(v.n % 0x1_0000_0000_0000_0000, i)
    ensures v.Float? ==> |EncodeValue(v)| == 9 && EncodeValue(v)[0] == 3
                         && forall i :: 0 <= i < 8 ==> EncodeValue(v)[1 + i] == ByteAt(v.bits, i)
    ensures v.Str? ==> EncodeValue(v) == [4] + LE(|v.text|, 4) + v.text
    ensures v.Blob? ==> EncodeValue(v) == [5] + LE(|v.data|, 4) + v.data
    ensures v.Array? ==> EncodeValue(v) == [6] + LE(|v.items|, 4) + EncodeItems(v.items)
    ensures v.Object? ==> EncodeValue(v) == [7] + LE(|v.doc|, 4) + EncodeFields(v.doc)
  {
    hide LE, ByteAt;
    match v {
      case Int(n) =>
        EightBytes(2, ToUnsigned(n));
        assert ToUnsigned(n) == n % 0x1_0000_0000_0000_0000;
      case Float(bits) =>
        EightBytes(3, bits);
      case Object(d) =>
        assert [7] + (LE(|d|, 4) + EncodeFields(d)) == [7] + LE(|d|, 4) + EncodeFields(d);
      case _ =>
    }
  }

  lemma EightBytes(tag: byte, n: u64)
    ensures forall i :: 0 <= i < 8 ==> ([tag] + LE(n, 8))[1 + i] == ByteAt(n, i)
  {
    hide LE, ByteAt;
    forall i | 0 <= i < 8
      ensures ([tag] + LE(n, 8))[1 + i] == ByteAt(n, i)
    {
      IsByteAt(n, 8, i);
    }
  }

  /** Elements and fields follow one another with nothing between; a field is the
      length of its key, the key, the value. */
  lemma SequenceLayout(items: seq<Value>, v: Value, d: Document, f: Field)
    ensures EncodeItems([]) == [] && EncodeItems(items + [v]) == EncodeItems(items) + EncodeValue(v)
    ensures EncodeFields([]) == []
    ensures EncodeFields(d + [f]) == EncodeFields(d) + (LE(|f.key|, 4) + f.key + EncodeValue(f.value))
  {
    hide LE, EncodeValue;
    ItemsSnoc(items, v);
    FieldsSnoc(d, f);
  }

  lemma {:induction false} ItemsSnoc(items: seq<Value>, v: Value)
    ensures EncodeItems(items + [v]) == EncodeItems(items) + EncodeValue(v)
  {
    hide EncodeValue;
    if items != [] {
      ItemsSnoc(items[1..], v);
      assert (items + [v])[1..] == items[1..] + [v];
    } else {
      assert items + [v] == [v] && [v][1..] == [];
      assert EncodeItems([v]) == EncodeValue(v) + EncodeItems([]);
    }
  }

  lemma {:induction false} FieldsSnoc(d: Document, f: Field)
    ensures EncodeFields(d + [f]) == EncodeFields(d) + EncodeField(f)
  {
    hide EncodeField;
    if d != [] {
      FieldsSnoc(d[1..], f);
      assert (d + [f])[1..] == d[1..] + [f];
    } else {
      assert d + [f] == [f] && [f][1..] == [];
      assert EncodeFields([f]) == EncodeField(f) + EncodeFields([]);
    }
  }
}
