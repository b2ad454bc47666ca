/** What the UTF-8 validity predicate means: the byte strings that are encodings of
    Unicode text. */
module Utf8 {
  import opened Bytes

  /** A Unicode scalar value: any code point but a surrogate. */
  predicate Scalar(c: nat) {
    c < 0x11_0000 && !(0xD800 <= c < 0xE000)
  }

  /** The bytes of one character (section 3 of RFC 3629). */
  function CharBytes(c: nat): (s: seq<byte>)
    requires Scalar(c)
    ensures 1 <= |s| <= 4
  {
    if c < 0x80 then [c]
    else if c < 0x800 then [0xC0 + c / 0x40, 0x80 + c % 0x40]
    else if c < 0x1_0000 then [0xE0 + c / 0x1000, 0x80 + c / 0x40 % 0x40, 0x80 + c % 0x40]
    else [0xF0 + c / 0x4_0000, 0x80 + c / 0x1000 % 0x40, 0x80 + c / 0x40 % 0x40, 0x80 + c % 0x40]
  }

  ghost predicate Scalars(cs: seq<nat>) {
    forall i :: 0 <= i < |cs| ==> Scalar(cs[i])
  }

  function TextBytes(cs: seq<nat>): seq<byte>
    requires Scalars(cs)
  {
    if cs == [] then [] else CharBytes(cs[0]) + TextBytes(cs[1..])
  }

  ghost predicate IsText(s: seq<byte>) {
    exists cs :: Scalars(cs) && TextBytes(cs) == s
  }

  /** A character's bytes are recognised, whatever follows. */
  lemma WidthOfChar(c: nat, rest: seq<byte>)
    requires Scalar(c)
    ensures Utf8Width(CharBytes(c) + rest) == |CharBytes(c)|
  {
    var b := CharBytes(c);
    var s := b + rest;
    assert forall i :: 0 <= i < |b| ==> s[i] == b[i];
  }

  /** Bytes that are recognised are some character's. */
  lemma CharAt(s: seq<byte>) returns (c: nat)
    requires Utf8Width(s) > 0
    ensures Scalar(c) && s[..Utf8Width(s)] == CharBytes(c)
  {
    var k := Utf8Width(s);
    if k == 1 {
      c := s[0];
    } else if k == 2 {
      c := TwoBytes(s[0] - 0xC0, s[1] - 0x80);
    } else if k == 3 {
      c := ThreeBytes(s[0] - 0xE0, s[1] - 0x80, s[2] - 0x80);
    } else {
      c := FourBytes(s[0] - 0xF0, s[1] - 0x80, s[2] - 0x80, s[3] - 0x80);
    }
  }

  lemma TwoBytes(a: int, b: int) returns (c: nat)
    requires 2 <= a < 0x20 && 0 <= b < 0x40
    ensures Scalar(c) && CharBytes(c) == [0xC0 + a, 0x80 + b]
  {
    c := 0x40 * a + b;
  }

  lemma ThreeBytes(a: int, b: int, d: int) returns (c: nat)
    requires 0 <= a < 0x10 && 0 <= b < 0x40 && 0 <= d < 0x40
    requires a == 0 ==> b >= 0x20
    requires a == 0xD ==> b < 0x20
    ensures Scalar(c) && CharBytes(c) == [0xE0 + a, 0x80 + b, 0x80 + d]
  {
    c := 0x1000 * a + 0x40 * b + d;
    assert c / 0x40 == 0x40 * a + b && c / 0x1000 == a;
  }

  lemma FourBytes(a: int, b: int, d: int, e: int) returns (c: nat)
    requires 0 <= a < 5 && 0 <= b < 0x40 && 0 <= d < 0x40 && 0 <= e < 0x40
    requires a == 0 ==> b >= 0x10
    requires a == 4 ==> b < 0x10
    ensures Scalar(c) && CharBytes(c) == [0xF0 + a, 0x80 + b, 0x80 + d, 0x80 + e]
  {
    c := 0x4_0000 * a + 0x1000 * b + 0x40 * d + e;
    assert c / 0x40 == 0x1000 * a + 0x40 * b + d && c / 0x1000 == 0x40 * a + b && c / 0x4_0000 == a;
  }

  /** The predicate accepts exactly the encodings of sequences of scalar values. */
  lemma {:induction false} ValidIffText(s: seq<byte>)
    ensures ValidUtf8(s) <==> IsText(s)
    decreases |s|
  {
    hide Utf8Width, CharBytes, TextBytes, Scalar, IsText;
    if s == [] {
      EmptyText();
    } else {
      if Utf8Width(s) > 0 {
        ValidIffText(s[Utf8Width(s)..]);
        if ValidUtf8(s) {
          CharThenText(s);
        }
      }
      if IsText(s) {
        TextStartsWithChar(s);
      }
    }
  }

  lemma EmptyText()
    ensures IsText([])
  {
    assert Scalars([]) && TextBytes([]) == [];
  }

  lemma CharThenText(s: seq<byte>)
    requires Utf8Width(s) > 0 && IsText(s[Utf8Width(s)..])
    ensures IsText(s)
  {
    hide Utf8Width, CharBytes, Scalar;
    var k := Utf8Width(s);
    var c := CharAt(s);
    var cs :| Scalars(cs) && TextBytes(cs) == s[k..];
    assert ([c] + cs)[1..] == cs;
    assert s == s[..k] + s[k..];
    assert Scalars([c] + cs) && TextBytes([c] + cs) == s;
  }

  lemma TextStartsWithChar(s: seq<byte>)
    requires s != [] && IsText(s)
    ensures Utf8Width(s) > 0 && IsText(s[Utf8Width(s)..])
  {
    hide Utf8Width, CharBytes, Scalar;
    var cs :| Scalars(cs) && TextBytes(cs) == s;
    var rest := TextBytes(cs[1..]);
    assert Scalar(cs[0]) && Scalars(cs[1..]);
    WidthOfChar(cs[0], rest);
    assert s[|CharBytes(cs[0])|..] == rest;
  }
}
