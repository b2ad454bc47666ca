/** The total order on values that indexes and scans share. */
module ValueOrder {
  import opened Bytes
  import opened Documents

  datatype Ordering = Less | Equal | Greater

  function Flip(o: Ordering): Ordering {
    match o
    case Less => Greater
    case Equal => Equal
    case Greater => Less
  }

  function CmpInt(a: int, b: int): Ordering {
    if a < b then Less else if a == b then Equal else Greater
  }

  function CmpBool(a: bool, b: bool): Ordering {
    if a == b then Equal else if b then Less else Greater
  }

  /** The key by which section 5.10 (totalOrder) of IEEE 754-2008 sorts a 64-bit
      pattern: as a signed integer, with the other bits of a negative one inverted. */
  function FloatKey(bits: u64): i64 {
    if bits < 0x8000_0000_0000_0000 then bits else 0x7FFF_FFFF_FFFF_FFFF - bits
  }

  /** Byte strings in lexicographic order. */
  function CmpBytes(a: seq<byte>, b: seq<byte>): Ordering {
    if a == [] || b == [] then CmpInt(|a|, |b|)
    else if a[0] != b[0] then CmpInt(a[0], b[0])
    else CmpBytes(a[1..], b[1..])
  }

  function Rank(v: Value): nat {
    match v
    case Null => 0
    case Bool(_) => 1
    case Int(_) => 2
    case Float(_) => 3
    case Str(_) => 4
    case Blob(_) => 5
    case Array(_) => 6
    case Object(_) => 7
  }

  function Cmp(a: Value, b: Value): Ordering
    decreases a
  {
    match (a, b)
    case (Null, Null) => Equal
    case (Bool(x), Bool(y)) => CmpBool(x, y)
    case (Int(x), Int(y)) => CmpInt(x, y)
    case (Float(x), Float(y)) => CmpInt(FloatKey(x), FloatKey(y))
    case (Str(x), Str(y)) => CmpBytes(x, y)
    case (Blob(x), Blob(y)) => CmpBytes(x, y)
    case (Array(x), Array(y)) => CmpItems(x, y)
    case (Object(x), Object(y)) => CmpDocs(x, y)
    case _ => CmpInt(Rank(a), Rank(b))
  }

  function CmpItems(a: seq<Value>, b: seq<Value>): Ordering
    decreases a
  {
    if a == [] || b == [] then CmpInt(|a|, |b|)
    else
      var o := Cmp(a[0], b[0]);
      if o != Equal then o else CmpItems(a[1..], b[1..])
  }

  function CmpFields(a: Field, b: Field): Ordering
    decreases a
  {
    var o := CmpBytes(a.key, b.key);
    if o != Equal then o else Cmp(a.value, b.value)
  }

  function CmpDocs(a: Document, b: Document): Ordering
    decreases a
  {
    if a == [] || b == [] then CmpInt(|a|, |b|)
    else
      var o := CmpFields(a[0], b[0]);
      if o != Equal then o else CmpDocs(a[1..], b[1..])
  }

  // ---- Laws -----------------------------------------------------------------------

  lemma {:induction false} BytesAntisymmetric(a: seq<byte>, b: seq<byte>)
    ensures CmpBytes(b, a) == Flip(CmpBytes(a, b))
    ensures CmpBytes(a, b) == Equal <==> a == b
    decreases |a|
  {
    if a != [] && b != [] {
      BytesAntisymmetric(a[1..], b[1..]);
      assert a == [a[0]] + a[1..] && b == [b[0]] + b[1..];
    }
  }

  lemma {:induction false} BytesTransitive(a: seq<byte>, b: seq<byte>, c: seq<byte>)
    requires CmpBytes(a, b) == Less && CmpBytes(b, c) == Less
    ensures CmpBytes(a, c) == Less
    decreases |a|
  {
    if a != [] && b != [] && c != [] && a[0] == b[0] == c[0] {
      BytesTransitive(a[1..], b[1..], c[1..]);
    }
  }

  /** Swapping the operands flips the answer, and `Equal` means identical. */
  lemma {:induction false} CmpAntisymmetric(a: Value, b: Value)
    ensures Cmp(b, a) == Flip(Cmp(a, b))
    ensures Cmp(a, b) == Equal <==> a == b
    decreases a
  {
    match (a, b)
    case (Str(x), Str(y)) => BytesAntisymmetric(x, y);
    case (Blob(x), Blob(y)) => BytesAntisymmetric(x, y);
    case (Array(x), Array(y)) => ItemsAntisymmetric(x, y);
    case (Object(x), Object(y)) => DocsAntisymmetric(x, y);
    case _ =>
  }

  lemma {:induction false} ItemsAntisymmetric(a: seq<Value>, b: seq<Value>)
    ensures CmpItems(b, a) == Flip(CmpItems(a, b))
    ensures CmpItems(a, b) == Equal <==> a == b
    decreases a
  {
    hide Cmp;
    if a != [] && b != [] {
      CmpAntisymmetric(a[0], b[0]);
      ItemsAntisymmetric(a[1..], b[1..]);
      assert a == [a[0]] + a[1..] && b == [b[0]] + b[1..];
    }
  }

  lemma {:induction false} FieldsAntisymmetric(a: Field, b: Field)
    ensures CmpFields(b, a) == Flip(CmpFields(a, b))
    ensures CmpFields(a, b) == Equal <==> a == b
    decreases a
  {
    BytesAntisymmetric(a.key, b.key);
    CmpAntisymmetric(a.value, b.value);
  }

  lemma {:induction false} DocsAntisymmetric(a: Document, b: Document)
    ensures CmpDocs(b, a) == Flip(CmpDocs(a, b))
    ensures CmpDocs(a, b) == Equal <==> a == b
    decreases a
  {
    hide CmpFields;
    if a != [] && b != [] {
      FieldsAntisymmetric(a[0], b[0]);
      DocsAntisymmetric(a[1..], b[1..]);
      assert a == [a[0]] + a[1..] && b == [b[0]] + b[1..];
    }
  }

  lemma {:induction false} CmpTransitive(a: Value, b: Value, c: Value)
    requires Cmp(a, b) == Less && Cmp(b, c) == Less
    ensures Cmp(a, c) == Less
    decreases a
  {
    if Rank(a) == Rank(b) == Rank(c) {
      match a
      case Str(x) => BytesTransitive(x, b.text, c.text);
      case Blob(x) => BytesTransitive(x, b.data, c.data);
      case Array(x) => ItemsTransitive(x, b.items, c.items);
      case Object(x) => DocsTransitive(x, b.doc, c.doc);
      case _ =>
    } else {
      RankDecides(a, b);
      RankDecides(b, c);
      RankDecides(a, c);
    }
  }

  lemma RankDecides(a: Value, b: Value)
    ensures Rank(a) < Rank(b) ==> Cmp(a, b) == Less
    ensures Rank(a) > Rank(b) ==> Cmp(a, b) == Greater
  {}

  lemma {:induction false} ItemsTransitive(a: seq<Value>, b: seq<Value>, c: seq<Value>)
    requires CmpItems(a, b) == Less && CmpItems(b, c) == Less
    ensures CmpItems(a, c) == Less
    decreases a
  {
    hide Cmp;
    if a != [] && b != [] && c != [] {
      CmpAntisymmetric(a[0], b[0]);
      CmpAntisymmetric(b[0], c[0]);
      if a[0] == b[0] == c[0] {
        ItemsTransitive(a[1..], b[1..], c[1..]);
      } else if a[0] != b[0] && b[0] != c[0] {
        CmpTransitive(a[0], b[0], c[0]);
      }
    }
  }

  lemma {:induction false} FieldsTransitive(a: Field, b: Field, c: Field)
    requires CmpFields(a, b) == Less && CmpFields(b, c) == Less
    ensures CmpFields(a, c) == Less
    decreases a
  {
    hide Cmp, CmpBytes;
    BytesAntisymmetric(a.key, b.key);
    BytesAntisymmetric(b.key, c.key);
    if a.key == b.key == c.key {
      CmpTransitive(a.value, b.value, c.value);
    } else if a.key != b.key && b.key != c.key {
      BytesTransitive(a.key, b.key, c.key);
    }
  }

  lemma {:induction false} DocsTransitive(a: Document, b: Document, c: Document)
    requires CmpDocs(a, b) == Less && CmpDocs(b, c) == Less
    ensures CmpDocs(a, c) == Less
    decreases a
  {
    hide CmpFields;
    if a != [] && b != [] && c != [] {
      FieldsAntisymmetric(a[0], b[0]);
      FieldsAntisymmetric(b[0], c[0]);
      if a[0] == b[0] == c[0] {
        DocsTransitive(a[1..], b[1..], c[1..]);
      } else if a[0] != b[0] && b[0] != c[0] {
        FieldsTransitive(a[0], b[0], c[0]);
      }
    }
  }

  // ---- What the order is --------------------------------------------------------------

  /** Two lists are in order because of their first difference, or because one is
      a proper prefix of the other. */
  ghost predicate FirstDifference<T>(a: seq<T>, b: seq<T>, less: (T, T) -> bool) {
    exists k: nat :: DiffersAt(a, b, less, k)
  }

  ghost predicate DiffersAt<T>(a: seq<T>, b: seq<T>, less: (T, T) -> bool, k: nat) {
    && k <= |a| && k <= |b| && a[..k] == b[..k]
    && ((k == |a| && k < |b|) || (k < |a| && k < |b| && less(a[k], b[k])))
  }

  lemma DiffersInTail<T>(a: seq<T>, b: seq<T>, less: (T, T) -> bool, k: nat)
    requires a != [] && b != [] && a[0] == b[0]
    ensures DiffersAt(a, b, less, k + 1) <==> DiffersAt(a[1..], b[1..], less, k)
  {
    if k + 1 <= |a| && k + 1 <= |b| {
      assert a[..k + 1] == [a[0]] + a[1..][..k] && b[..k + 1] == [b[0]] + b[1..][..k];
      assert a[..k + 1][1..] == a[1..][..k] && b[..k + 1][1..] == b[1..][..k];
    }
  }

  lemma DifferenceInTail<T>(a: seq<T>, b: seq<T>, less: (T, T) -> bool)
    requires a != [] && b != [] && a[0] == b[0] && !less(a[0], b[0])
    ensures FirstDifference(a, b, less) <==> FirstDifference(a[1..], b[1..], less)
  {
    assert !DiffersAt(a, b, less, 0);
    hide DiffersAt;
    if k: nat :| DiffersAt(a, b, less, k) {
      DiffersInTail(a, b, less, k - 1);
    }
    if k: nat :| DiffersAt(a[1..], b[1..], less, k) {
      DiffersInTail(a, b, less, k);
    }
  }

  lemma SamePrefixSameHead<T>(a: seq<T>, b: seq<T>, k: nat)
    requires 0 < k <= |a| && k <= |b| && a[..k] == b[..k]
    ensures a[0] == b[0]
  {
    assert a[..k][0] == b[..k][0];
  }

  lemma DifferenceAtHead<T>(a: seq<T>, b: seq<T>, less: (T, T) -> bool)
    requires a == [] || b == [] || a[0] != b[0]
    ensures FirstDifference(a, b, less) <==> if a == [] || b == [] then |a| < |b| else less(a[0], b[0])
  {
    if FirstDifference(a, b, less) {
      var k: nat :| DiffersAt(a, b, less, k);
      if k > 0 {
        SamePrefixSameHead(a, b, k);
        assert false;
      }
    }
    assert a[..0] == b[..0];
    assert DiffersAt(a, b, less, 0) <==> if a == [] || b == [] then |a| < |b| else less(a[0], b[0]);
  }

  /** Byte strings compare by their first different byte. */
  lemma {:induction false} BytesOrder(a: seq<byte>, b: seq<byte>)
    ensures CmpBytes(a, b) == Less <==> FirstDifference(a, b, (x: byte, y: byte) => x < y)
    decreases |a|
  {
    if a != [] && b != [] && a[0] == b[0] {
      BytesOrder(a[1..], b[1..]);
      DifferenceInTail(a, b, (x: byte, y: byte) => x < y);
    } else {
      DifferenceAtHead(a, b, (x: byte, y: byte) => x < y);
    }
  }

  /** Arrays compare by their first different element. */
  lemma {:induction false} ItemsOrder(a: seq<Value>, b: seq<Value>)
    ensures CmpItems(a, b) == Less <==> FirstDifference(a, b, (x: Value, y: Value) => Cmp(x, y) == Less)
    decreases |a|
  {
    hide Cmp;
    if a != [] && b != [] {
      CmpAntisymmetric(a[0], b[0]);
    }
    if a != [] && b != [] && a[0] == b[0] {
      ItemsOrder(a[1..], b[1..]);
      DifferenceInTail(a, b, (x: Value, y: Value) => Cmp(x, y) == Less);
    } else {
      DifferenceAtHead(a, b, (x: Value, y: Value) => Cmp(x, y) == Less);
    }
  }

  /** Documents compare by their first different field: by key, then by value. */
  lemma {:induction false} DocsOrder(a: Document, b: Document)
    ensures CmpDocs(a, b) == Less <==> FirstDifference(a, b, (x: Field, y: Field) => CmpFields(x, y) == Less)
    ensures a != [] && b != [] && a[0].key != b[0].key ==> CmpDocs(a, b) == CmpBytes(a[0].key, b[0].key)
    decreases |a|
  {
    if a != [] && b != [] {
      BytesAntisymmetric(a[0].key, b[0].key);
      FieldsAntisymmetric(a[0], b[0]);
    }
    hide CmpFields;
    if a != [] && b != [] && a[0] == b[0] {
      DocsOrder(a[1..], b[1..]);
      DifferenceInTail(a, b, (x: Field, y: Field) => CmpFields(x, y) == Less);
    } else {
      DifferenceAtHead(a, b, (x: Field, y: Field) => CmpFields(x, y) == Less);
    }
  }

  /** Fields compare by key, and by value when the keys are the same. */
  lemma FieldsOrder(a: Field, b: Field)
    ensures CmpFields(a, b) == Less <==>
            FirstDifference(a.key, b.key, (x: byte, y: byte) => x < y) || (a.key == b.key && Cmp(a.value, b.value) == Less)
  {
    BytesOrder(a.key, b.key);
    BytesAntisymmetric(a.key, b.key);
  }

  /** Numbers compare by size, false comes before true, and floats compare by sign,
      then by pattern, upwards when positive and downwards when negative. */
  lemma ScalarOrder(p: bool, q: bool, m: i64, n: i64, f: u64, g: u64)
    ensures Cmp(Int(m), Int(n)) == Less <==> m < n
    ensures Cmp(Bool(p), Bool(q)) == Less <==> !p && q
    ensures var (nf, ng) := (f >= 0x8000_0000_0000_0000, g >= 0x8000_0000_0000_0000);
            Cmp(Float(f), Float(g)) == Less <==> (nf && !ng) || (!nf && !ng && f < g) || (nf && ng && f > g)
  {}

  /** The documented order of the variants. */
  predicate EarlierVariant(a: Value, b: Value) {
    || (a.Null? && !b.Null?)
    || (a.Bool? && !b.Null? && !b.Bool?)
    || (a.Int? && (b.Float? || b.Str? || b.Blob? || b.Array? || b.Object?))
    || (a.Float? && (b.Str? || b.Blob? || b.Array? || b.Object?))
    || (a.Str? && (b.Blob? || b.Array? || b.Object?))
    || (a.Blob? && (b.Array? || b.Object?))
    || (a.Array? && b.Object?)
  }

  predicate SameVariant(a: Value, b: Value) {
    !EarlierVariant(a, b) && !EarlierVariant(b, a)
  }

  /** Values of different variants compare by variant alone; strings, byte strings,
      arrays and documents by the first difference in their contents. */
  lemma VariantOrder(a: Value, b: Value)
    ensures !SameVariant(a, b) ==> (Cmp(a, b) == Less <==> EarlierVariant(a, b))
    ensures a.Str? && b.Str? ==> (Cmp(a, b) == Less <==> FirstDifference(a.text, b.text, (x: byte, y: byte) => x < y))
    ensures a.Blob? && b.Blob? ==> (Cmp(a, b) == Less <==> FirstDifference(a.data, b.data, (x: byte, y: byte) => x < y))
    ensures a.Array? && b.Array? ==>
              (Cmp(a, b) == Less <==> FirstDifference(a.items, b.items, (x: Value, y: Value) => Cmp(x, y) == Less))
    ensures a.Object? && b.Object? ==>
              (Cmp(a, b) == Less <==> FirstDifference(a.doc, b.doc, (x: Field, y: Field) => CmpFields(x, y) == Less))
  {
    hide FirstDifference;
    match (a, b) {
      case (Str(x), Str(y)) => BytesOrder(x, y);
      case (Blob(x), Blob(y)) => BytesOrder(x, y);
      case (Array(x), Array(y)) => ItemsOrder(x, y);
      case (Object(x), Object(y)) => DocsOrder(x, y);
      case _ =>
    }
  }

  /** Any non-empty finite set of values has a least one. */
  lemma {:induction false} LeastExists(s: set<Value>) returns (least: Value)
    requires s != {}
    ensures least in s && forall v :: v in s && v != least ==> Cmp(least, v) == Less
    decreases |s|
  {
    hide Cmp;
    var x :| x in s;
    if s == {x} {
      least := x;
    } else {
      var m := LeastExists(s - {x});
      CmpAntisymmetric(m, x);
      least := if Cmp(m, x) == Less then m else x;
      forall v | v in s && v != least
        ensures Cmp(least, v) == Less
      {
        if least == x && v != m {
          CmpTransitive(x, m, v);
        }
      }
    }
  }

  // ---- The comparison as it runs ------------------------------------------------------

  method TotalCmpValue(a: Value, b: Value) returns (o: Ordering)
    ensures o == Cmp(a, b)
    decreases a
  {
    match (a, b) {
      case (Null, Null) => o := Equal;
      case (Bool(x), Bool(y)) => o := CmpBool(x, y);
      case (Int(x), Int(y)) => o := CmpInt(x, y);
      case (Float(x), Float(y)) => o := CmpInt(FloatKey(x), FloatKey(y));
      case (Str(x), Str(y)) => o := CmpBytes(x, y);
      case (Blob(x), Blob(y)) => o := CmpBytes(x, y);
      case (Array(x), Array(y)) => o := CmpSlices(x, y);
      case (Object(x), Object(y)) => o := CmpDocuments(x, y);
      case _ => o := CmpInt(Rank(a), Rank(b));
    }
  }

  method CmpSlices(a: seq<Value>, b: seq<Value>) returns (o: Ordering)
    ensures o == CmpItems(a, b)
    decreases a
  {
    hide Cmp;
    var i := 0;
    while i < |a| && i < |b|
      invariant 0 <= i <= |a| && i <= |b|
      invariant CmpItems(a, b) == CmpItems(a[i..], b[i..])
    {
      assert a[i..][1..] == a[i + 1..] && b[i..][1..] == b[i + 1..];
      var ord := TotalCmpValue(a[i], b[i]);
      if ord != Equal {
        return ord;
      }
      i := i + 1;
    }
    o := CmpInt(|a|, |b|);
  }

  method CmpDocuments(a: Document, b: Document) returns (o: Ordering)
    ensures o == CmpDocs(a, b)
    decreases a
  {
    hide Cmp, CmpBytes;
    var i := 0;
    while i < |a| && i < |b|
      invariant 0 <= i <= |a| && i <= |b|
      invariant CmpDocs(a, b) == CmpDocs(a[i..], b[i..])
    {
      assert a[i..][1..] == a[i + 1..] && b[i..][1..] == b[i + 1..];
      var keyOrd := CmpBytes(a[i].key, b[i].key);
      if keyOrd != Equal {
        return keyOrd;
      }
      var valOrd := TotalCmpValue(a[i].value, b[i].value);
      if valOrd != Equal {
        return valOrd;
      }
      i := i + 1;
    }
    o := CmpInt(|a|, |b|);
  }
}
