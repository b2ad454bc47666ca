/** The binary form of documents: the printer and the parser as functions, and
    the laws that connect them. */
module Codec {
  import opened Bytes
  import opened Documents
  import opened Errors

  // ---- Printer ----------------------------------------------------------------

  function EncodeValue(v: Value): (s: seq<byte>)
    ensures |s| >= 1
    decreases v
  {
    match v
    case Null => [0]
    case Bool(b) => [1, if b then 1 else 0]
    case Int(n) => [2] + LE(ToUnsigned(n), 8)
    case Float(bits) => [3] + LE(bits, 8)
    case Str(text) => [4] + LE(|text|, 4) + text
    case Blob(data) => [5] + LE(|data|, 4) + data
    case Array(items) => [6] + LE(|items|, 4) + EncodeItems(items)
    case Object(d) => [7] + EncodeDoc(d)
  }

  function EncodeItems(items: seq<Value>): (s: seq<byte>)
    ensures |s| >= |items|
    decreases items
  {
    if items == [] then [] else EncodeValue(items[0]) + EncodeItems(items[1..])
  }

  function EncodeField(f: Field): seq<byte>
    decreases f
  {
    LE(|f.key|, 4) + f.key + EncodeValue(f.value)
  }

  function EncodeFields(d: Document): (s: seq<byte>)
    ensures |s| >= |d|
    decreases d, 0
  {
    if d == [] then [] else EncodeField(d[0]) + EncodeFields(d[1..])
  }

  function EncodeDoc(d: Document): (s: seq<byte>)
    ensures |s| >= 4 + |d|
    decreases d, 1
  {
    LE(|d|, 4) + EncodeFields(d)
  }

  /** Every length in the value fits the four bytes the format gives it. */
  predicate Fits(v: Value)
    decreases v
  {
    match v
    case Str(text) => |text| < U32_LIMIT
    case Blob(data) => |data| < U32_LIMIT
    case Array(items) => |items| < U32_LIMIT && forall i :: 0 <= i < |items| ==> Fits(items[i])
    case Object(d) => FitsDoc(d)
    case _ => true
  }

  predicate FitsDoc(d: Document)
    decreases d
  {
    && |d| < U32_LIMIT
    && forall i :: 0 <= i < |d| ==> |d[i].key| < U32_LIMIT && Fits(d[i].value)
  }

  // ---- Parser -----------------------------------------------------------------

  /** A parse of the front of a byte string, and what it leaves. */
  datatype Parsed<+T> = Good(value: T, rest: seq<byte>) | Bad(why: Reason) {
    predicate IsFailure() { Bad? }

    function PropagateFailure<U>(): Parsed<U>
      requires Bad?
    {
      Bad(why)
    }

    function Extract(): (T, seq<byte>)
      requires Good?
    {
      (value, rest)
    }
  }

  function Take(s: seq<byte>, n: nat): Parsed<seq<byte>> {
    if n <= |s| then Good(s[..n], s[n..]) else Bad(UnexpectedEnd)
  }

  function ReadLen(s: seq<byte>): Parsed<nat> {
    var (b, t) :- Take(s, 4);
    Good(FromLE(b), t)
  }

  function ReadU64(s: seq<byte>): Parsed<u64> {
    var (b, t) :- Take(s, 8);
    FromLE64Bound(b);
    Good(FromLE(b), t)
  }

  function ReadText(s: seq<byte>, why: Reason): Parsed<seq<byte>> {
    var (n, t) :- ReadLen(s);
    var (text, u) :- Take(t, n);
    if ValidUtf8(text) then Good(text, u) else Bad(why)
  }

  function ReadBlob(s: seq<byte>): Parsed<seq<byte>> {
    var (n, t) :- ReadLen(s);
    Take(t, n)
  }

  function ReadValue(s: seq<byte>): (r: Parsed<Value>)
    ensures r.Good? ==> |r.rest| < |s|
    decreases |s|, 0
  {
    if s == [] then Bad(UnexpectedEnd)
    else
      var tag, t := s[0], s[1..];
      if tag == 0 then Good(Null, t)
      else if tag == 1 then
        var (b, u) :- Take(t, 1);
        Good(Bool(b[0] != 0), u)
      else if tag == 2 then
        var (n, u) :- ReadU64(t);
        Good(Int(ToSigned(n)), u)
      else if tag == 3 then
        var (n, u) :- ReadU64(t);
        Good(Float(n), u)
      else if tag == 4 then
        var (text, u) :- ReadText(t, BadStringText);
        Good(Str(text), u)
      else if tag == 5 then
        var (data, u) :- ReadBlob(t);
        Good(Blob(data), u)
      else if tag == 6 then
        var (n, u) :- ReadLen(t);
        var (items, w) :- ReadItems(u, n, []);
        Good(Array(items), w)
      else if tag == 7 then
        var (d, u) :- ReadDoc(t);
        Good(Object(d), u)
      else Bad(UnknownTag)
  }

  /** `n` more values onto `done`. */
  function ReadItems(s: seq<byte>, n: nat, done: seq<Value>): (r: Parsed<seq<Value>>)
    ensures r.Good? ==> |r.rest| <= |s|
    decreases |s|, n + 1
  {
    if n == 0 then Good(done, s)
    else
      var (v, t) :- ReadValue(s);
      ReadItems(t, n - 1, done + [v])
  }

  /** `n` more fields set into `done`. */
  function ReadFields(s: seq<byte>, n: nat, done: Document): (r: Parsed<Document>)
    ensures r.Good? ==> |r.rest| <= |s|
    decreases |s|, n + 1
  {
    if n == 0 then Good(done, s)
    else
      var (key, t) :- ReadText(s, BadKeyText);
      var (v, u) :- ReadValue(t);
      ReadFields(u, n - 1, Set(done, key, v))
  }

  function ReadDoc(s: seq<byte>): (r: Parsed<Document>)
    ensures r.Good? ==> |r.rest| < |s|
    decreases |s|, 0
  {
    var (n, t) :- ReadLen(s);
    ReadFields(t, n, [])
  }

  /** A whole body: a document and nothing after it. */
  function Decode(s: seq<byte>): Result<Document> {
    match ReadDoc(s)
    case Bad(why) => Failure(Corrupt(why))
    case Good(d, rest) => if rest == [] then Success(d) else Failure(Corrupt(TrailingBytes))
  }

  // ---- Printing then parsing ----------------------------------------------------

  lemma TakePrefix(a: seq<byte>, rest: seq<byte>)
    ensures Take(a + rest, |a|) == Good(a, rest)
  {}

  lemma ReadLenOfLE(n: nat, rest: seq<byte>)
    requires n < U32_LIMIT
    ensures ReadLen(LE(n, 4) + rest) == Good(n, rest)
  {
    TakePrefix(LE(n, 4), rest);
    LE32RoundTrip(n);
  }

  lemma ReadU64OfLE(n: u64, rest: seq<byte>)
    ensures ReadU64(LE(n, 8) + rest) == Good(n, rest)
  {
    TakePrefix(LE(n, 8), rest);
    LE64RoundTrip(n);
  }

  lemma ReadBlobOfPrefixed(data: seq<byte>, rest: seq<byte>)
    requires |data| < U32_LIMIT
    ensures ReadBlob(LE(|data|, 4) + data + rest) == Good(data, rest)
    ensures forall why :: ValidUtf8(data) ==>
              ReadText(LE(|data|, 4) + data + rest, why) == Good(data, rest)
  {
    assert LE(|data|, 4) + data + rest == LE(|data|, 4) + (data + rest);
    ReadLenOfLE(|data|, data + rest);
    TakePrefix(data, rest);
  }

  lemma RoundTripScalar(v: Value, rest: seq<byte>)
    requires WfValue(v) && Fits(v) && !v.Array? && !v.Object?
    ensures ReadValue(EncodeValue(v) + rest) == Good(v, rest)
  {
    hide LE, FromLE, ReadLen, ReadText, ReadBlob, ReadU64;
    var s := EncodeValue(v) + rest;
    match v {
      case Null =>
        assert s[1..] == rest;
      case Bool(b) =>
        assert s[1..] == [if b then 1 else 0] + rest;
        TakePrefix([if b then 1 else 0], rest);
      case Int(n) =>
        assert s[1..] == LE(ToUnsigned(n), 8) + rest;
        ReadU64OfLE(ToUnsigned(n), rest);
      case Float(bits) =>
        assert s[1..] == LE(bits, 8) + rest;
        ReadU64OfLE(bits, rest);
      case Str(text) =>
        assert s[1..] == LE(|text|, 4) + text + rest;
        ReadBlobOfPrefixed(text, rest);
      case Blob(data) =>
        assert s[1..] == LE(|data|, 4) + data + rest;
        ReadBlobOfPrefixed(data, rest);
    }
  }

  /** Parsing an encoding followed by anything gives back the value and leaves
      exactly what followed. */
  lemma {:induction false} RoundTripValue(v: Value, rest: seq<byte>)
    requires WfValue(v) && Fits(v)
    ensures ReadValue(EncodeValue(v) + rest) == Good(v, rest)
    decreases v
  {
    hide LE, FromLE, ReadLen;
    var s := EncodeValue(v) + rest;
    match v {
      case Array(items) =>
        assert s[1..] == LE(|items|, 4) + (EncodeItems(items) + rest);
        ReadLenOfLE(|items|, EncodeItems(items) + rest);
        RoundTripItems(items, [], rest);
        assert [] + items == items;
      case Object(d) =>
        assert s[1..] == EncodeDoc(d) + rest;
        RoundTripDoc(d, rest);
      case _ =>
        RoundTripScalar(v, rest);
    }
  }

  lemma {:induction false} RoundTripItems(items: seq<Value>, done: seq<Value>, rest: seq<byte>)
    requires forall i :: 0 <= i < |items| ==> WfValue(items[i]) && Fits(items[i])
    ensures ReadItems(EncodeItems(items) + rest, |items|, done) == Good(done + items, rest)
    decreases items
  {
    hide EncodeValue, ReadValue;
    if items == [] {
      assert EncodeItems(items) + rest == rest;
      assert done + items == done;
    } else {
      var tail := EncodeItems(items[1..]) + rest;
      assert EncodeItems(items) + rest == EncodeValue(items[0]) + tail;
      RoundTripValue(items[0], tail);
      RoundTripItems(items[1..], done + [items[0]], rest);
      assert done + [items[0]] + items[1..] == done + items;
    }
  }

  /** A field the printer can write and the parser will accept. */
  ghost predicate Printable(f: Field) {
    ValidUtf8(f.key) && WfValue(f.value) && |f.key| < U32_LIMIT && Fits(f.value)
  }

  /** Fields printed one after the other are set one after the other, repeated keys
      and all. */
  lemma {:induction false} RoundTripFields(pairs: seq<Field>, done: Document, rest: seq<byte>)
    requires forall i :: 0 <= i < |pairs| ==> Printable(pairs[i])
    ensures ReadFields(EncodeFields(pairs) + rest, |pairs|, done) == Good(SetAll(done, pairs), rest)
    decreases pairs, 0
  {
    hide EncodeField, EncodeValue, ReadValue, ReadText, ValidUtf8, WfValue, Fits, Set;
    if pairs == [] {
      assert EncodeFields(pairs) + rest == rest;
    } else {
      hide EncodeFields, ReadFields;
      assert Printable(pairs[0]);
      RoundTripValue(pairs[0].value, EncodeFields(pairs[1..]) + rest);
      FieldStep(pairs, done, rest);
      RoundTripFields(pairs[1..], Set(done, pairs[0].key, pairs[0].value), rest);
    }
  }

  /** One field printed is one field parsed. */
  lemma FieldStep(d: Document, done: Document, rest: seq<byte>)
    requires d != [] && Printable(d[0])
    requires var tail := EncodeFields(d[1..]) + rest;
             ReadValue(EncodeValue(d[0].value) + tail) == Good(d[0].value, tail)
    ensures ReadFields(EncodeFields(d) + rest, |d|, done) ==
            ReadFields(EncodeFields(d[1..]) + rest, |d| - 1, Set(done, d[0].key, d[0].value))
  {
    hide LE, FromLE, EncodeValue, EncodeField, EncodeFields, ReadValue, ReadText, ValidUtf8, WfValue, Fits, Set;
    var f, tail := d[0], EncodeFields(d[1..]) + rest;
    FirstField(d, rest);
    ReadBlobOfPrefixed(f.key, EncodeValue(f.value) + tail);
  }

  lemma FirstField(d: Document, rest: seq<byte>)
    requires d != []
    ensures EncodeFields(d) + rest ==
            LE(|d[0].key|, 4) + d[0].key + (EncodeValue(d[0].value) + (EncodeFields(d[1..]) + rest))
  {
    hide LE, EncodeValue;
  }

  lemma {:induction false} RoundTripDoc(d: Document, rest: seq<byte>)
    requires WfDoc(d) && FitsDoc(d)
    ensures ReadDoc(EncodeDoc(d) + rest) == Good(d, rest)
    decreases d, 1
  {
    hide LE, FromLE;
    assert EncodeDoc(d) + rest == LE(|d|, 4) + (EncodeFields(d) + rest);
    ReadLenOfLE(|d|, EncodeFields(d) + rest);
    assert [] + d == d;
    RoundTripFields(d, [], rest);
    SetAllDistinct([], d);
  }

  /** Encoding is injective and prefix-free. */
  lemma EncodingIsPrefixFree(a: Document, b: Document, x: seq<byte>, y: seq<byte>)
    requires WfDoc(a) && FitsDoc(a) && WfDoc(b) && FitsDoc(b)
    requires EncodeDoc(a) + x == EncodeDoc(b) + y
    ensures a == b && x == y
  {
    RoundTripDoc(a, x);
    RoundTripDoc(b, y);
  }

  /** What was stored is what is read back. */
  lemma DecodeOfEncode(d: Document)
    requires WfDoc(d) && FitsDoc(d)
    ensures Decode(EncodeDoc(d)) == Success(d)
  {
    RoundTripDoc(d, []);
    assert EncodeDoc(d) + [] == EncodeDoc(d);
  }

  // ---- More input never changes a parse -------------------------------------------

  lemma TakeExtends(s: seq<byte>, t: seq<byte>, n: nat)
    requires Take(s, n).Good?
    ensures Take(s + t, n) == Good(Take(s, n).value, Take(s, n).rest + t)
  {
    assert (s + t)[..n] == s[..n] && (s + t)[n..] == s[n..] + t;
  }

  lemma ReadLenExtends(s: seq<byte>, t: seq<byte>)
    requires ReadLen(s).Good?
    ensures ReadLen(s + t) == Good(ReadLen(s).value, ReadLen(s).rest + t)
  {
    TakeExtends(s, t, 4);
  }

  lemma ReadBlobExtends(s: seq<byte>, t: seq<byte>)
    requires ReadBlob(s).Good?
    ensures ReadBlob(s + t) == Good(ReadBlob(s).value, ReadBlob(s).rest + t)
  {
    ReadLenExtends(s, t);
    TakeExtends(ReadLen(s).rest, t, ReadLen(s).value);
  }

  lemma TextIsBlob(s: seq<byte>, why: Reason)
    ensures ReadText(s, why).Good? <==> ReadBlob(s).Good? && ValidUtf8(ReadBlob(s).value)
    ensures ReadText(s, why).Good? ==> ReadText(s, why) == ReadBlob(s)
  {}

  lemma ReadTextExtends(s: seq<byte>, t: seq<byte>, why: Reason)
    requires ReadText(s, why).Good?
    ensures ReadText(s + t, why) == Good(ReadText(s, why).value, ReadText(s, why).rest + t)
  {
    TextIsBlob(s, why);
    TextIsBlob(s + t, why);
    ReadBlobExtends(s, t);
  }

  lemma {:induction false} ReadValueExtends(s: seq<byte>, t: seq<byte>)
    requires ReadValue(s).Good?
    ensures ReadValue(s + t) == Good(ReadValue(s).value, ReadValue(s).rest + t)
    decreases |s|, 0
  {
    hide FromLE, ReadLen, ReadText, ReadBlob;
    var tag, u := s[0], s[1..];
    assert (s + t)[1..] == u + t;
    if tag == 1 {
      TakeExtends(u, t, 1);
    } else if tag == 2 || tag == 3 {
      TakeExtends(u, t, 8);
    } else if tag == 4 {
      ReadTextExtends(u, t, BadStringText);
    } else if tag == 5 {
      ReadBlobExtends(u, t);
    } else if tag == 6 {
      ReadLenExtends(u, t);
      LenShrinks(u);
      ReadItemsExtends(ReadLen(u).rest, ReadLen(u).value, [], t);
    } else if tag == 7 {
      ReadDocExtends(u, t);
    }
  }

  lemma LenShrinks(s: seq<byte>)
    ensures ReadLen(s).Good? ==> |ReadLen(s).rest| == |s| - 4
    ensures forall why :: ReadText(s, why).Good? ==> |ReadText(s, why).rest| <= |s| - 4
  {}

  lemma {:induction false} ReadItemsExtends(s: seq<byte>, n: nat, done: seq<Value>, t: seq<byte>)
    requires ReadItems(s, n, done).Good?
    ensures ReadItems(s + t, n, done) ==
            Good(ReadItems(s, n, done).value, ReadItems(s, n, done).rest + t)
    decreases |s|, n + 1
  {
    hide ReadValue;
    if n > 0 {
      ReadValueExtends(s, t);
      var r := ReadValue(s);
      ReadItemsExtends(r.rest, n - 1, done + [r.value], t);
    }
  }

  lemma {:induction false} ReadFieldsExtends(s: seq<byte>, n: nat, done: Document, t: seq<byte>)
    requires ReadFields(s, n, done).Good?
    ensures ReadFields(s + t, n, done) ==
            Good(ReadFields(s, n, done).value, ReadFields(s, n, done).rest + t)
    decreases |s|, n + 1
  {
    hide ReadValue, ReadText, Set;
    if n > 0 {
      ReadTextExtends(s, t, BadKeyText);
      LenShrinks(s);
      var k := ReadText(s, BadKeyText);
      ReadValueExtends(k.rest, t);
      var r := ReadValue(k.rest);
      ReadFieldsExtends(r.rest, n - 1, Set(done, k.value, r.value), t);
    }
  }

  lemma {:induction false} ReadDocExtends(s: seq<byte>, t: seq<byte>)
    requires ReadDoc(s).Good?
    ensures ReadDoc(s + t) == Good(ReadDoc(s).value, ReadDoc(s).rest + t)
    decreases |s|, 0
  {
    hide ReadLen;
    ReadLenExtends(s, t);
    LenShrinks(s);
    ReadFieldsExtends(ReadLen(s).rest, ReadLen(s).value, [], t);
  }

  // ---- Less input ends a parse early ------------------------------------------------

  lemma ReadTextShort(s: seq<byte>, t: seq<byte>, why: Reason)
    requires ReadText(s, why).Bad? && ReadText(s + t, why).Good?
    ensures ReadText(s, why) == Bad(UnexpectedEnd)
  {
    if ReadBlob(s).Good? {
      ReadBlobExtends(s, t);
      TextIsBlob(s + t, why);
    }
    hide ValidUtf8;
  }

  lemma {:induction false} ReadValueShort(s: seq<byte>, t: seq<byte>)
    requires ReadValue(s).Bad? && ReadValue(s + t).Good?
    ensures ReadValue(s) == Bad(UnexpectedEnd)
    decreases |s|, 0
  {
    hide FromLE, ReadLen, ReadText, ReadBlob;
    if s != [] {
      var tag, u := s[0], s[1..];
      assert (s + t)[1..] == u + t;
      if tag == 4 {
        ReadTextShort(u, t, BadStringText);
      } else if tag == 5 {
        BlobShort(u);
      } else if tag == 6 {
        LenShort(u);
        if ReadLen(u).Good? {
          ReadLenExtends(u, t);
          LenShrinks(u);
          ReadItemsShort(ReadLen(u).rest, ReadLen(u).value, [], t);
        }
      } else if tag == 7 {
        ReadDocShort(u, t);
      }
    }
  }

  lemma LenShort(s: seq<byte>)
    ensures ReadLen(s).Bad? ==> ReadLen(s) == Bad(UnexpectedEnd)
  {}

  lemma BlobShort(s: seq<byte>)
    ensures ReadBlob(s).Bad? ==> ReadBlob(s) == Bad(UnexpectedEnd)
  {}

  lemma {:induction false} ReadItemsShort(s: seq<byte>, n: nat, done: seq<Value>, t: seq<byte>)
    requires ReadItems(s, n, done).Bad? && ReadItems(s + t, n, done).Good?
    ensures ReadItems(s, n, done) == Bad(UnexpectedEnd)
    decreases |s|, n + 1
  {
    hide ReadValue;
    var r := ReadValue(s);
    if r.Bad? {
      ReadValueShort(s, t);
    } else {
      ReadValueExtends(s, t);
      ReadItemsShort(r.rest, n - 1, done + [r.value], t);
    }
  }

  lemma {:induction false} ReadFieldsShort(s: seq<byte>, n: nat, done: Document, t: seq<byte>)
    requires ReadFields(s, n, done).Bad? && ReadFields(s + t, n, done).Good?
    ensures ReadFields(s, n, done) == Bad(UnexpectedEnd)
    decreases |s|, n + 1
  {
    hide ReadValue, ReadText, Set;
    var k := ReadText(s, BadKeyText);
    if k.Bad? {
      ReadTextShort(s, t, BadKeyText);
    } else {
      ReadTextExtends(s, t, BadKeyText);
      LenShrinks(s);
      var r := ReadValue(k.rest);
      if r.Bad? {
        ReadValueShort(k.rest, t);
      } else {
        ReadValueExtends(k.rest, t);
        ReadFieldsShort(r.rest, n - 1, Set(done, k.value, r.value), t);
      }
    }
  }

  /** A parse that more input would complete fails for want of it, and for no other
      reason. */
  lemma {:induction false} ReadDocShort(s: seq<byte>, t: seq<byte>)
    requires ReadDoc(s).Bad? && ReadDoc(s + t).Good?
    ensures ReadDoc(s) == Bad(UnexpectedEnd)
    decreases |s|, 0
  {
    hide ReadLen;
    LenShort(s);
    if ReadLen(s).Good? {
      ReadLenExtends(s, t);
      LenShrinks(s);
      ReadFieldsShort(ReadLen(s).rest, ReadLen(s).value, [], t);
    }
  }

  /** Every strict prefix of a valid encoding is rejected as ending too soon. */
  lemma TruncationIsRejected(d: Document, cut: nat)
    requires WfDoc(d) && FitsDoc(d) && cut < |EncodeDoc(d)|
    ensures Decode(EncodeDoc(d)[..cut]) == Failure(Corrupt(UnexpectedEnd))
  {
    var e := EncodeDoc(d);
    hide EncodeDoc, ReadDoc, WfDoc, FitsDoc;
    var p, q := e[..cut], e[cut..];
    RoundTripDoc(d, []);
    assert p + q == e == e + [];
    assert [] + q == q;
    if ReadDoc(p).Good? {
      ReadDocExtends(p, q);
    } else {
      ReadDocShort(p, q);
    }
  }

  /** And bytes after a valid encoding are rejected as trailing. */
  lemma TrailingIsRejected(d: Document, junk: seq<byte>)
    requires WfDoc(d) && FitsDoc(d) && junk != []
    ensures Decode(EncodeDoc(d) + junk) == Failure(Corrupt(TrailingBytes))
  {
    hide EncodeDoc, ReadDoc, WfDoc, FitsDoc;
    RoundTripDoc(d, junk);
  }

  // ---- What the parser accepts beyond the printer, and what it refuses -----------------

  /** Fields written with repeated keys are accepted; the document is that of setting
      them in turn. */
  lemma DecodeSetsInTurn(pairs: seq<Field>)
    requires |pairs| < U32_LIMIT && forall i :: 0 <= i < |pairs| ==> Printable(pairs[i])
    ensures Decode(LE(|pairs|, 4) + EncodeFields(pairs)) == Success(SetAll([], pairs))
  {
    hide LE, EncodeFields, ReadFields, ReadLen, Printable;
    ReadLenOfLE(|pairs|, EncodeFields(pairs));
    RoundTripFields(pairs, [], []);
    assert EncodeFields(pairs) + [] == EncodeFields(pairs);
  }

  /** The body of a document of one field, up to its value. */
  function OneField(key: seq<byte>, value: seq<byte>): seq<byte> {
    LE(1, 4) + (LE(|key|, 4) + key + value)
  }

  lemma OneFieldParse(key: seq<byte>, value: seq<byte>)
    requires |key| < U32_LIMIT
    ensures !ValidUtf8(key) ==> Decode(OneField(key, value)) == Failure(Corrupt(BadKeyText))
    ensures ValidUtf8(key) && ReadValue(value).Bad? ==>
              Decode(OneField(key, value)) == Failure(Corrupt(ReadValue(value).why))
    ensures ValidUtf8(key) && ReadValue(value).Good? && ReadValue(value).rest == [] ==>
              Decode(OneField(key, value)) == Success([Field(key, ReadValue(value).value)])
  {
    hide LE, FromLE, ReadLen, ReadText, ReadValue, ReadFields, ValidUtf8;
    var body := LE(|key|, 4) + key + value;
    ReadLenOfLE(1, body);
    KeyText(key, value);
    OneFieldRead(body);
    assert ReadDoc(OneField(key, value)) == ReadFields(body, 1, []);
  }

  lemma OneFieldRead(s: seq<byte>)
    ensures ReadFields(s, 1, []) ==
            match ReadText(s, BadKeyText)
            case Bad(why) => Bad(why)
            case Good(key, t) =>
              match ReadValue(t)
              case Bad(why) => Bad(why)
              case Good(v, u) => Good([Field(key, v)], u)
  {
    hide ReadText, ReadValue;
    var k := ReadText(s, BadKeyText);
    if k.Good? && ReadValue(k.rest).Good? {
      var v := ReadValue(k.rest);
      assert Set([], k.value, v.value) == [Field(k.value, v.value)];
      assert ReadFields(v.rest, 0, [Field(k.value, v.value)]) == Good([Field(k.value, v.value)], v.rest);
    }
  }

  lemma KeyText(key: seq<byte>, rest: seq<byte>)
    requires |key| < U32_LIMIT
    ensures forall why :: ReadText(LE(|key|, 4) + key + rest, why) ==
              if ValidUtf8(key) then Good(key, rest) else Bad(why)
  {
    hide LE, ValidUtf8;
    assert LE(|key|, 4) + key + rest == LE(|key|, 4) + (key + rest);
    ReadLenOfLE(|key|, key + rest);
    TakePrefix(key, rest);
  }

  /** A key or a string that is not UTF-8, and a tag above 7, are each refused for
      what they are; any nonzero byte after the tag of a bool is true. */
  lemma DecodeRefuses(key: seq<byte>, text: seq<byte>, tag: byte, rest: seq<byte>)
    requires |key| < U32_LIMIT && |text| < U32_LIMIT
    ensures !ValidUtf8(key) ==> Decode(OneField(key, rest)) == Failure(Corrupt(BadKeyText))
    ensures ValidUtf8(key) && !ValidUtf8(text) ==>
              Decode(OneField(key, [4] + LE(|text|, 4) + text + rest)) == Failure(Corrupt(BadStringText))
    ensures ValidUtf8(key) && tag > 7 ==> Decode(OneField(key, [tag] + rest)) == Failure(Corrupt(UnknownTag))
    ensures ValidUtf8(key) ==> Decode(OneField(key, [1, tag])) == Success([Field(key, Bool(tag != 0))])
  {
    hide LE, OneField, Decode, ValidUtf8, ReadText, ReadValue;
    var text' := [4] + LE(|text|, 4) + text + rest;
    OneFieldParse(key, rest);
    OneFieldParse(key, [tag] + rest);
    OneFieldParse(key, [1, tag]);
    OneFieldParse(key, text');
    ValuesRead(text, tag, rest);
  }

  lemma ValuesRead(text: seq<byte>, tag: byte, rest: seq<byte>)
    requires |text| < U32_LIMIT
    ensures !ValidUtf8(text) ==> ReadValue([4] + LE(|text|, 4) + text + rest) == Bad(BadStringText)
    ensures tag > 7 ==> ReadValue([tag] + rest) == Bad(UnknownTag)
    ensures ReadValue([1, tag]) == Good(Bool(tag != 0), [])
  {
    hide LE, ValidUtf8, ReadText, ReadDoc, ReadItems, ReadBlob, ReadU64, ReadLen;
    KeyText(text, rest);
    assert ([4] + LE(|text|, 4) + text + rest)[1..] == LE(|text|, 4) + text + rest;
    TakePrefix([tag], []);
    assert [1, tag][1..] == [tag] + [];
  }
}
