/** What a successful parse of arbitrary bytes guarantees, and the size laws of
    the printer. */
module CodecLaws {
  import opened Bytes
  import opened Documents
  import opened Errors
  import opened Codec

  // ---- Sizes --------------------------------------------------------------------

  lemma {:induction false} EncodeItemsSnoc(items: seq<Value>, v: Value)
    ensures EncodeItems(items + [v]) == EncodeItems(items) + EncodeValue(v)
    decreases |items|
  {
    hide EncodeValue;
    if items == [] {
      assert (items + [v])[1..] == [];
    } else {
      assert (items + [v])[1..] == items[1..] + [v];
      EncodeItemsSnoc(items[1..], v);
    }
  }

  lemma {:induction false} SetSize(d: Document, key: seq<byte>, value: Value)
    ensures |EncodeFields(Set(d, key, value))| <= |EncodeFields(d)| + |EncodeField(Field(key, value))|
    decreases |d|
  {
    hide EncodeField;
    var r := Set(d, key, value);
    if d == [] {
      assert r[1..] == [];
    } else if d[0].key == key {
      assert r[1..] == d[1..];
    } else {
      SetSize(d[1..], key, value);
      assert r[1..] == Set(d[1..], key, value);
    }
  }

  /** Five bytes at least are spent on every level of nesting. */
  lemma {:induction false} DepthBound(v: Value)
    ensures 5 * Depth(v) <= |EncodeValue(v)|
    decreases v
  {
    match v
    case Array(items) => DepthBoundItems(items);
    case Object(d) => DepthBoundDoc(d);
    case _ =>
  }

  lemma {:induction false} DepthBoundItems(items: seq<Value>)
    ensures 5 * DepthOfItems(items) <= |EncodeItems(items)|
    decreases items
  {
    hide EncodeValue, Depth;
    if items != [] {
      DepthBound(items[0]);
      DepthBoundItems(items[1..]);
    }
  }

  lemma {:induction false} DepthBoundDoc(d: Document)
    ensures 5 * DepthOfDoc(d) <= |EncodeFields(d)|
    decreases d
  {
    hide EncodeValue, Depth;
    if d != [] {
      DepthBound(d[0].value);
      DepthBoundDoc(d[1..]);
    }
  }

  /** A value whose encoding is shorter than 4 GiB has no oversized length in it. */
  lemma {:induction false} SmallFits(v: Value)
    requires |EncodeValue(v)| < U32_LIMIT
    ensures Fits(v)
    decreases v
  {
    match v
    case Array(items) => SmallItemsFit(items);
    case Object(d) => SmallDocFits(d);
    case _ =>
  }

  lemma {:induction false} SmallItemsFit(items: seq<Value>)
    requires |EncodeItems(items)| < U32_LIMIT
    ensures forall i :: 0 <= i < |items| ==> Fits(items[i])
    decreases items
  {
    hide EncodeValue, Fits;
    if items != [] {
      SmallFits(items[0]);
      SmallItemsFit(items[1..]);
      forall i | 0 <= i < |items|
        ensures Fits(items[i])
      {
        if i > 0 {
          assert items[i] == items[1..][i - 1];
        }
      }
    }
  }

  lemma {:induction false} SmallFieldsFit(d: Document)
    requires |EncodeFields(d)| < U32_LIMIT
    ensures forall i :: 0 <= i < |d| ==> |d[i].key| < U32_LIMIT && Fits(d[i].value)
    decreases d, 0
  {
    hide EncodeValue, Fits;
    if d != [] {
      SmallFits(d[0].value);
      SmallFieldsFit(d[1..]);
      forall i | 0 <= i < |d|
        ensures |d[i].key| < U32_LIMIT && Fits(d[i].value)
      {
        if i > 0 {
          assert d[i] == d[1..][i - 1];
        }
      }
    }
  }

  lemma {:induction false} SmallDocFits(d: Document)
    requires |EncodeDoc(d)| < U32_LIMIT
    ensures FitsDoc(d)
    decreases d, 1
  {
    SmallFieldsFit(d);
  }

  // ---- Arbitrary input ------------------------------------------------------------

  /** What a parsed value satisfies, given how many bytes it took. */
  ghost predicate Sane(v: Value, taken: int) {
    WfValue(v) && Fits(v) && |EncodeValue(v)| <= taken
  }

  ghost predicate SaneItems(items: seq<Value>) {
    forall i :: 0 <= i < |items| ==> WfValue(items[i]) && Fits(items[i])
  }

  ghost predicate SaneFields(d: Document) {
    && DistinctKeys(d)
    && forall i :: 0 <= i < |d| ==>
         ValidUtf8(d[i].key) && |d[i].key| < U32_LIMIT && WfValue(d[i].value) && Fits(d[i].value)
  }

  lemma ReadBlobSize(s: seq<byte>)
    requires ReadBlob(s).Good?
    ensures ReadLen(s).Good? && ReadLen(s).value < U32_LIMIT
    ensures |ReadBlob(s).value| < U32_LIMIT
    ensures |s| - |ReadBlob(s).rest| == 4 + |ReadBlob(s).value|
  {
    FromLE32Bound(s[..4]);
  }

  lemma ReadLenBound(s: seq<byte>)
    requires ReadLen(s).Good?
    ensures ReadLen(s).value < U32_LIMIT && |ReadLen(s).rest| == |s| - 4
  {
    FromLE32Bound(s[..4]);
  }

  lemma {:induction false} ParsedValueIsSane(s: seq<byte>)
    requires ReadValue(s).Good?
    ensures Sane(ReadValue(s).value, |s| - |ReadValue(s).rest|)
    decreases |s|, 0
  {
    hide FromLE, LE, ReadLen, ReadText, ReadBlob;
    var tag, t := s[0], s[1..];
    if tag == 4 {
      TextIsBlob(t, BadStringText);
      ReadBlobSize(t);
    } else if tag == 5 {
      ReadBlobSize(t);
    } else if tag == 6 {
      ReadLenBound(t);
      ParsedItemsAreSane(ReadLen(t).rest, ReadLen(t).value, []);
    } else if tag == 7 {
      ParsedDocIsSane(t);
    }
  }

  lemma {:induction false} ParsedItemsAreSane(s: seq<byte>, n: nat, done: seq<Value>)
    requires ReadItems(s, n, done).Good? && SaneItems(done)
    ensures var r := ReadItems(s, n, done);
            SaneItems(r.value) && |r.value| == |done| + n &&
            |EncodeItems(r.value)| <= |EncodeItems(done)| + |s| - |r.rest|
    decreases |s|, n + 1
  {
    hide ReadValue, EncodeValue, EncodeItems, Fits, WfValue;
    if n > 0 {
      ParsedValueIsSane(s);
      var v := ReadValue(s);
      EncodeItemsSnoc(done, v.value);
      ParsedItemsAreSane(v.rest, n - 1, done + [v.value]);
    }
  }

  lemma {:induction false} ParsedFieldsAreSane(s: seq<byte>, n: nat, done: Document)
    requires ReadFields(s, n, done).Good? && SaneFields(done)
    ensures var r := ReadFields(s, n, done);
            SaneFields(r.value) && |r.value| <= |done| + n &&
            |EncodeFields(r.value)| <= |EncodeFields(done)| + |s| - |r.rest|
    decreases |s|, n + 1
  {
    hide ReadValue, ReadText, EncodeValue, EncodeFields, Fits, WfValue, Set, SaneFields;
    if n > 0 {
      TextIsBlob(s, BadKeyText);
      ReadBlobSize(s);
      var k := ReadText(s, BadKeyText);
      ParsedValueIsSane(k.rest);
      var v := ReadValue(k.rest);
      SetKeepsSane(done, k.value, v.value);
      SetSize(done, k.value, v.value);
      ParsedFieldsAreSane(v.rest, n - 1, Set(done, k.value, v.value));
    }
  }

  lemma SetKeepsSane(d: Document, key: seq<byte>, value: Value)
    requires SaneFields(d)
    requires ValidUtf8(key) && |key| < U32_LIMIT && WfValue(value) && Fits(value)
    ensures SaneFields(Set(d, key, value)) && |Set(d, key, value)| <= |d| + 1
  {
    SetShape(d, key, value);
    SetKeepsDistinct(d, key, value);
  }

  lemma {:induction false} ParsedDocIsSane(s: seq<byte>)
    requires ReadDoc(s).Good?
    ensures WfDoc(ReadDoc(s).value) && FitsDoc(ReadDoc(s).value)
    ensures |EncodeDoc(ReadDoc(s).value)| <= |s| - |ReadDoc(s).rest|
    decreases |s|, 0
  {
    hide ReadLen;
    ReadLenBound(s);
    ParsedFieldsAreSane(ReadLen(s).rest, ReadLen(s).value, []);
  }

  /** Decoding arbitrary bytes gives a well-formed document; encoding it again
      never takes more room, and decodes to the same document. Duplicate keys and
      odd booleans are thus normalised once. */
  lemma DecodeNormalises(s: seq<byte>)
    requires Decode(s).Success?
    ensures var d := Decode(s).value;
            && WfDoc(d) && FitsDoc(d)
            && |EncodeDoc(d)| <= |s|
            && Decode(EncodeDoc(d)) == Success(d)
            && 5 * DepthOfDoc(d) <= |s|
  {
    ParsedDocIsSane(s);
    DecodeOfEncode(Decode(s).value);
    DepthBoundDoc(Decode(s).value);
  }
}
