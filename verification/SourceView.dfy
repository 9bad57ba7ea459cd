/**
  The reversible source view (src/source_bytes.rs): arbitrary bytes as text.
  Valid UTF-8 (section 3 of RFC 3629) stands for itself, with the escape
  character doubled; every other byte becomes the escape character followed by a
  marker.  Text is a sequence of scalar values, offsets count its UTF-8 bytes.
 */
module SourceView {
  import opened Arith
  import opened Wrappers

  type Byte = b: nat | b < 0x100
  type Scalar = c: nat | c < 0x110000 && !(0xD800 <= c < 0xE000)

  const ESCAPE: Scalar := 0xF0000
  const BYTE_BASE: nat := 0xF0100

  /** UTF-8 encoding of one scalar value. */
  function Utf8(c: Scalar): (bs: seq<Byte>)
    ensures 1 <= |bs| <= 4
  {
    if c < 0x80 then [c]
    else if c < 0x800 then [0xC0 + c / 0x40, 0x80 + c % 0x40]
    else if c < 0x10000 then [0xE0 + c / 0x1000, 0x80 + c / 0x40 % 0x40, 0x80 + c % 0x40]
    else [0xF0 + c / 0x40000, 0x80 + c / 0x1000 % 0x40, 0x80 + c / 0x40 % 0x40, 0x80 + c % 0x40]
  }

  predicate IsTail(b: Byte) {
    0x80 <= b <= 0xBF
  }

  /** Well-formed UTF-8 in the sense of section 4 of RFC 3629: the lead byte tells the
      length, tail bytes follow, nothing is overlong or a surrogate. */
  predicate IsUtf8Char(bs: seq<Byte>) {
    || (|bs| == 1 && bs[0] <= 0x7F)
    || (|bs| == 2 && 0xC2 <= bs[0] <= 0xDF && IsTail(bs[1]))
    || (|bs| == 3 && 0xE0 <= bs[0] <= 0xEF && IsTail(bs[1]) && IsTail(bs[2])
        && (bs[0] == 0xE0 ==> bs[1] >= 0xA0) && (bs[0] == 0xED ==> bs[1] <= 0x9F))
    || (|bs| == 4 && 0xF0 <= bs[0] <= 0xF4 && IsTail(bs[1]) && IsTail(bs[2]) && IsTail(bs[3])
        && (bs[0] == 0xF0 ==> bs[1] >= 0x90) && (bs[0] == 0xF4 ==> bs[1] <= 0x8F))
  }

  /** Six more bits. */
  function Glue(high: int, tail: Byte): int {
    high * 0x40 + (tail as int - 0x80)
  }

  /** The payload bits put together, most significant first. */
  function Payload(bs: seq<Byte>): int
    requires IsUtf8Char(bs)
  {
    if |bs| == 1 then bs[0]
    else if |bs| == 2 then Glue(bs[0] as int - 0xC0, bs[1])
    else if |bs| == 3 then Glue(Glue(bs[0] as int - 0xE0, bs[1]), bs[2])
    else Glue(Glue(Glue(bs[0] as int - 0xF0, bs[1]), bs[2]), bs[3])
  }

  /** Three digits in base 64 below a lead digit. */
  lemma {:induction false} Digits64(c: nat) returns (q1: nat, q2: nat, q3: nat)
    ensures q1 == c / 0x40 && q2 == c / 0x1000 && q3 == c / 0x40000
    ensures c == 0x40 * q1 + c % 0x40 && q1 == 0x40 * q2 + c / 0x40 % 0x40 && q2 == 0x40 * q3 + c / 0x1000 % 0x40
  {
    q1, q2, q3 := c / 0x40, c / 0x1000, c / 0x40000;
    DivDiv(c, 0x40, 0x40);
    DivDiv(c, 0x1000, 0x40);
  }

  /** The encoding is well-formed and its payload is the scalar value. */
  lemma {:induction false} Utf8Payload(c: Scalar)
    ensures IsUtf8Char(Utf8(c)) && Payload(Utf8(c)) == c
  {
    var q1, q2, q3 := Digits64(c);
    var bs := Utf8(c);
    if c < 0x80 {
      assert IsUtf8Char(bs);
    } else if c < 0x800 {
      assert IsUtf8Char(bs);
    } else if c < 0x10000 {
      assert IsUtf8Char(bs);
    } else {
      assert IsUtf8Char(bs);
    }
  }

  lemma {:induction false} DivMod64(c: int, q: int, r: int)
    requires c == 0x40 * q + r && 0 <= r < 0x40
    ensures c / 0x40 == q && c % 0x40 == r
  {
  }

  /** Digits in base 64 read back. */
  lemma {:induction false} ReadBack(x0: nat, x1: nat, x2: nat, x3: nat)
    requires x1 < 0x40 && x2 < 0x40 && x3 < 0x40
    ensures var c := ((x0 * 0x40 + x1) * 0x40 + x2) * 0x40 + x3;
      c / 0x40000 == x0 && c / 0x1000 % 0x40 == x1 && c / 0x40 % 0x40 == x2 && c % 0x40 == x3
  {
    var p := x0 * 0x40 + x1;
    var q := p * 0x40 + x2;
    var c := q * 0x40 + x3;
    DivMod64(c, q, x3);
    DivMod64(q, p, x2);
    DivMod64(p, x0, x1);
    DivDiv(c, 0x40, 0x40);
    DivDiv(c, 0x1000, 0x40);
  }

  lemma {:induction false} TwoBytes(a: Byte, b: Byte)
    requires 0xC2 <= a <= 0xDF && IsTail(b)
    ensures var c := Glue(a as int - 0xC0, b);
      0x80 <= c < 0x800 && Utf8(c) == [a, b]
  {
    DivMod64(Glue(a as int - 0xC0, b), a as int - 0xC0, b as int - 0x80);
  }

  lemma {:induction false} ThreeBytes(a: Byte, b: Byte, d: Byte)
    requires 0xE0 <= a <= 0xEF && IsTail(b) && IsTail(d)
    requires (a == 0xE0 ==> b >= 0xA0) && (a == 0xED ==> b <= 0x9F)
    ensures var c := Glue(Glue(a as int - 0xE0, b), d);
      0x800 <= c < 0x10000 && !(0xD800 <= c < 0xE000) && Utf8(c) == [a, b, d]
  {
    var q := Glue(a as int - 0xE0, b);
    var c := Glue(q, d);
    DivMod64(c, q, d as int - 0x80);
    DivMod64(q, a as int - 0xE0, b as int - 0x80);
    DivDiv(c, 0x40, 0x40);
  }

  lemma {:induction false} FourBytes(a: Byte, b: Byte, d: Byte, e: Byte)
    requires 0xF0 <= a <= 0xF4 && IsTail(b) && IsTail(d) && IsTail(e)
    requires (a == 0xF0 ==> b >= 0x90) && (a == 0xF4 ==> b <= 0x8F)
    ensures var c := Glue(Glue(Glue(a as int - 0xF0, b), d), e);
      0x10000 <= c < 0x110000 && Utf8(c) == [a, b, d, e]
  {
    ReadBack(a as int - 0xF0, b as int - 0x80, d as int - 0x80, e as int - 0x80);
  }

  /** Every well-formed sequence is the encoding of its payload. */
  lemma {:induction false} PayloadUtf8(bs: seq<Byte>)
    requires IsUtf8Char(bs)
    ensures 0 <= Payload(bs) < 0x110000 && !(0xD800 <= Payload(bs) < 0xE000)
    ensures Utf8(Payload(bs)) == bs
  {
    hide Glue;
    if |bs| == 1 {
      assert bs == [bs[0]];
    } else if |bs| == 2 {
      hide Utf8;
      TwoBytes(bs[0], bs[1]);
      assert bs == [bs[0], bs[1]];
    } else if |bs| == 3 {
      hide Utf8;
      ThreeBytes(bs[0], bs[1], bs[2]);
      assert bs == [bs[0], bs[1], bs[2]];
    } else {
      hide Utf8;
      FourBytes(bs[0], bs[1], bs[2], bs[3]);
      assert bs == [bs[0], bs[1], bs[2], bs[3]];
    }
  }

  /** The lead byte tells the length, so no encoding starts another one. */
  lemma {:induction false} Utf8PrefixFree(c: Scalar, d: Scalar, x: seq<Byte>, y: seq<Byte>)
    requires Utf8(c) + x == Utf8(d) + y
    ensures c == d && x == y
  {
    Utf8Payload(c);
    Utf8Payload(d);
    var a, b := Utf8(c), Utf8(d);
    assert (a + x)[0] == a[0] && (b + y)[0] == b[0];
    assert |a| == |b|;
    assert a == (a + x)[..|a|] && b == (b + y)[..|b|];
    assert x == (a + x)[|a|..] && y == (b + y)[|b|..];
  }

  /** Different texts have different bytes. */
  lemma {:induction false} EncodeInjective(a: seq<Scalar>, b: seq<Scalar>)
    requires Encode(a) == Encode(b)
    ensures a == b
    decreases |a|
  {
    hide Utf8;
    if a != [] && b != [] {
      Utf8PrefixFree(a[0], b[0], Encode(a[1..]), Encode(b[1..]));
      EncodeInjective(a[1..], b[1..]);
      assert a == [a[0]] + a[1..] && b == [b[0]] + b[1..];
    }
  }

  function Width(c: Scalar): (w: nat)
    ensures 1 <= w <= 4
  {
    |Utf8(c)|
  }

  function Encode(text: seq<Scalar>): seq<Byte> {
    if text == [] then [] else Utf8(text[0]) + Encode(text[1..])
  }

  function ByteLength(text: seq<Scalar>): nat {
    if text == [] then 0 else Width(text[0]) + ByteLength(text[1..])
  }

  predicate IsMarker(c: Scalar) {
    BYTE_BASE <= c <= BYTE_BASE + 0xFF
  }

  function ByteMarker(b: Byte): (c: Scalar)
    ensures IsMarker(c) && MarkerByte(c) == b
  {
    BYTE_BASE + b
  }

  function MarkerByte(c: Scalar): Byte
    requires IsMarker(c)
  {
    c - BYTE_BASE
  }

  /** The view starts with a two-character escape. */
  predicate StartsPair(view: seq<Scalar>) {
    |view| >= 2 && view[0] == ESCAPE && (view[1] == ESCAPE || IsMarker(view[1]))
  }

  /** The bytes a two-character escape stands for. */
  function PairBytes(c: Scalar): seq<Byte>
    requires c == ESCAPE || IsMarker(c)
  {
    if c == ESCAPE then Utf8(ESCAPE) else [MarkerByte(c)]
  }

  /** The bytes any view stands for; a lone escape character stands for itself. */
  function Decode(view: seq<Scalar>): seq<Byte> {
    if view == [] then []
    else if StartsPair(view) then PairBytes(view[1]) + Decode(view[2..])
    else Utf8(view[0]) + Decode(view[1..])
  }

  /** The two-character escapes in figures: U+F0000 before U+F0100 + b is byte b, and
      before itself the four bytes of U+F0000. */
  lemma {:induction false} EscapesMean(b: Byte, rest: seq<Scalar>)
    ensures Decode([0xF0000, 0xF0100 + b] + rest) == [b] + Decode(rest)
    ensures Decode([0xF0000, 0xF0000] + rest) == [0xF3, 0xB0, 0x80, 0x80] + Decode(rest)
  {
    DecodePair(0xF0100 + b, rest);
    DecodePair(0xF0000, rest);
    assert PairBytes(0xF0000) == Utf8(0xF0000) == [0xF3, 0xB0, 0x80, 0x80];
    assert PairBytes(0xF0100 + b) == [b];
  }

  lemma {:induction false} DecodePair(c: Scalar, rest: seq<Scalar>)
    requires c == ESCAPE || IsMarker(c)
    ensures Decode([ESCAPE, c] + rest) == PairBytes(c) + Decode(rest)
  {
    hide Utf8, PairBytes;
    assert ([ESCAPE, c] + rest)[2..] == rest;
  }

  // ---- Building and reading views ----

  /** What canonical views are made of. */
  datatype Unit = Char(c: Scalar) | Raw(b: Byte)

  function UnitText(u: Unit): seq<Scalar> {
    match u
    case Char(c) => if c == ESCAPE then [ESCAPE, ESCAPE] else [c]
    case Raw(b) => [ESCAPE, ByteMarker(b)]
  }

  function UnitBytes(u: Unit): seq<Byte> {
    match u
    case Char(c) => Utf8(c)
    case Raw(b) => [b]
  }

  function Spell(us: seq<Unit>): seq<Scalar> {
    if us == [] then [] else UnitText(us[0]) + Spell(us[1..])
  }

  function Bytes(us: seq<Unit>): seq<Byte> {
    if us == [] then [] else UnitBytes(us[0]) + Bytes(us[1..])
  }

  lemma {:induction false} DecodeSpell(us: seq<Unit>)
    ensures Decode(Spell(us)) == Bytes(us)
    decreases |us|
  {
    if us != [] {
      DecodeSpell(us[1..]);
      var u, rest := us[0], Spell(us[1..]);
      var v := UnitText(u) + rest;
      if |UnitText(u)| == 2 {
        assert v[2..] == rest;
      } else {
        assert v[1..] == rest;
      }
    }
  }

  lemma {:induction false} SpellAppend(us: seq<Unit>, u: Unit)
    ensures Spell(us + [u]) == Spell(us) + UnitText(u)
    ensures Bytes(us + [u]) == Bytes(us) + UnitBytes(u)
    decreases |us|
  {
    hide Utf8, UnitText, UnitBytes;
    if us == [] {
      assert us + [u] == [u] && [u][1..] == [];
      assert Spell([]) == [] && Bytes([]) == [];
      assert UnitText(u) + [] == UnitText(u) && UnitBytes(u) + [] == UnitBytes(u);
    } else {
      SpellAppend(us[1..], u);
      assert (us + [u])[1..] == us[1..] + [u];
    }
  }

  lemma {:induction false} EncodeAppend(text: seq<Scalar>, c: Scalar)
    ensures Encode(text + [c]) == Encode(text) + Utf8(c)
    decreases |text|
  {
    if text == [] {
      assert text + [c] == [c] && [c][1..] == [];
      assert Encode([]) == [];
      assert Utf8(c) + [] == Utf8(c);
    } else {
      EncodeAppend(text[1..], c);
      assert (text + [c])[1..] == text[1..] + [c];
    }
  }

  ghost function Chars(text: seq<Scalar>): (us: seq<Unit>)
    ensures |us| == |text| && forall i :: 0 <= i < |us| ==> us[i] == Char(text[i])
  {
    seq(|text|, i requires 0 <= i < |text| => Char(text[i]))
  }

  lemma {:induction false} CharsBytes(us: seq<Unit>, text: seq<Scalar>)
    ensures Bytes(us + Chars(text)) == Bytes(us) + Encode(text)
    decreases |text|
  {
    hide Spell, Bytes, Encode, Utf8;
    if text == [] {
      assert us + Chars(text) == us && Bytes(us) + [] == Bytes(us);
      assert Encode([]) == [] by { EncodeNothing(); }
    } else {
      var n := |text| - 1;
      CharsBytes(us, text[..n]);
      assert us + Chars(text) == us + Chars(text[..n]) + [Char(text[n])];
      SpellAppend(us + Chars(text[..n]), Char(text[n]));
      EncodeAppend(text[..n], text[n]);
      assert text == text[..n] + [text[n]];
      ConcatAssociates(Bytes(us), Encode(text[..n]), Utf8(text[n]));
    }
  }

  lemma {:induction false} EncodeNothing()
    ensures Encode([]) == []
  {
  }

  /** Appends text with its escape characters doubled to a view that spells `us`. */
  method PushEscaped(before: seq<Scalar>, text: seq<Scalar>, ghost us: seq<Unit>) returns (view: seq<Scalar>)
    requires before == Spell(us)
    ensures view == Spell(us + Chars(text))
  {
    hide Spell;
    view := before;
    assert us + Chars(text[..0]) == us;
    for i := 0 to |text|
      invariant view == Spell(us + Chars(text[..i]))
    {
      var c := text[i];
      SpellAppend(us + Chars(text[..i]), Char(c));
      assert us + Chars(text[..i + 1]) == us + Chars(text[..i]) + [Char(c)];
      if c == ESCAPE {
        view := view + [ESCAPE];
      }
      view := view + [c];
    }
    assert text[..|text|] == text;
  }

  ghost function Raws(bytes: seq<Byte>): (us: seq<Unit>)
    ensures |us| == |bytes| && forall i :: 0 <= i < |us| ==> us[i] == Raw(bytes[i])
  {
    seq(|bytes|, i requires 0 <= i < |bytes| => Raw(bytes[i]))
  }

  lemma {:induction false} RawsBytes(us: seq<Unit>, bytes: seq<Byte>)
    ensures Bytes(us + Raws(bytes)) == Bytes(us) + bytes
    decreases |bytes|
  {
    hide Spell, Bytes;
    if bytes == [] {
      assert us + Raws(bytes) == us && Bytes(us) + bytes == Bytes(us);
    } else {
      var n := |bytes| - 1;
      RawsBytes(us, bytes[..n]);
      assert us + Raws(bytes) == us + Raws(bytes[..n]) + [Raw(bytes[n])];
      SpellAppend(us + Raws(bytes[..n]), Raw(bytes[n]));
      assert bytes == bytes[..n] + [bytes[n]];
      ConcatAssociates(Bytes(us), bytes[..n], [bytes[n]]);
    }
  }

  /** Appends bytes, each as an escape character with a marker. */
  method PushRaw(before: seq<Scalar>, bytes: seq<Byte>, ghost us: seq<Unit>) returns (view: seq<Scalar>)
    requires before == Spell(us)
    ensures view == Spell(us + Raws(bytes))
  {
    hide Spell;
    view := before;
    assert us + Raws(bytes[..0]) == us;
    for i := 0 to |bytes|
      invariant view == Spell(us + Raws(bytes[..i]))
    {
      SpellAppend(us + Raws(bytes[..i]), Raw(bytes[i]));
      assert us + Raws(bytes[..i + 1]) == us + Raws(bytes[..i]) + [Raw(bytes[i])];
      view := view + [ESCAPE] + [ByteMarker(bytes[i])];
    }
    assert bytes[..|bytes|] == bytes;
  }

  /** Text escaped on its own decodes to its UTF-8 bytes; only escape characters
      are spelled differently. */
  method EscapeUtf8(text: seq<Scalar>) returns (view: seq<Scalar>)
    ensures view == Spell(Chars(text))
    ensures Decode(view) == Encode(text)
  {
    EmptyUnits();
    view := PushEscaped([], text, []);
    assert [] + Chars(text) == Chars(text);
    DecodeSpell(Chars(text));
    CharsBytes([], text);
    assert [] + Encode(text) == Encode(text);
  }

  // ---- From bytes, with any legal UTF-8 validator ----

  /** What validation reports: the longest prefix it accepts, decoded, and how
      many bytes to reject, if known. */
  datatype Utf8Result = Valid(text: seq<Scalar>) | Broken(text: seq<Scalar>, errorLength: Option<nat>)

  ghost predicate Legal(r: Utf8Result, bytes: seq<Byte>) {
    match r
    case Valid(text) => Encode(text) == bytes
    case Broken(text, errorLength) =>
      && Encode(text) <= bytes && |Encode(text)| < |bytes|
      && (errorLength.Some? ==> 0 < errorLength.value && |Encode(text)| + errorLength.value <= |bytes|)
  }

  /** Where a legal report about bytes[offset..] leaves off. */
  lemma {:induction false} LegalCut(r: Utf8Result, bytes: seq<Byte>, offset: nat)
    requires offset < |bytes| && Legal(r, bytes[offset..])
    ensures var valid := |Encode(r.text)|;
      && offset + valid <= |bytes| && bytes[..offset] + Encode(r.text) == bytes[..offset + valid]
      && (r.Valid? ==> offset + valid == |bytes|)
      && (r.Broken? ==> offset + valid < |bytes|)
      && (r.Broken? && r.errorLength.Some? ==>
            0 < r.errorLength.value && offset + valid + r.errorLength.value <= |bytes|)
  {
    hide Encode;
    var valid := |Encode(r.text)|;
    assert bytes[offset..][..valid] == bytes[offset..offset + valid];
    assert bytes[..offset] + bytes[offset..offset + valid] == bytes[..offset + valid];
  }

  lemma {:induction false} SliceAppend(bytes: seq<Byte>, a: nat, b: nat)
    requires a <= b <= |bytes|
    ensures bytes[..a] + bytes[a..b] == bytes[..b]
  {
  }

  /** Every byte sequence becomes a view that decodes to it, however the
      validator cuts the invalid parts. */
  method ToSourceView(bytes: seq<Byte>, validate: seq<Byte> -> Utf8Result) returns (view: seq<Scalar>)
    requires forall bs :: Legal(validate(bs), bs)
    ensures Decode(view) == bytes
    ensures bytes != [] && validate(bytes).Valid? ==> view == Spell(Chars(validate(bytes).text))
  {
    hide Spell, Bytes, Encode, Utf8, Legal, Chars, Raws;
    view := [];
    ghost var us: seq<Unit> := [];
    var offset := 0;
    EmptyUnits();
    while offset < |bytes|
      invariant 0 <= offset <= |bytes| && view == Spell(us) && Bytes(us) == bytes[..offset]
      invariant offset > 0 ==> validate(bytes).Broken?
      invariant offset == 0 ==> us == []
      decreases |bytes| - offset
    {
      var r := validate(bytes[offset..]);
      assert Legal(r, bytes[offset..]);
      LegalCut(r, bytes, offset);
      assert offset == 0 ==> bytes[offset..] == bytes;
      view := PushEscaped(view, r.text, us);
      CharsBytes(us, r.text);
      assert us == [] ==> us + Chars(r.text) == Chars(r.text);
      us := us + Chars(r.text);
      offset := offset + |Encode(r.text)|;
      if r.Valid? {
        break;
      }
      var invalidLength := if r.errorLength.Some? then r.errorLength.value else |bytes| - offset;
      var bad := bytes[offset..offset + invalidLength];
      view := PushRaw(view, bad, us);
      RawsBytes(us, bad);
      SliceAppend(bytes, offset, offset + invalidLength);
      us := us + Raws(bad);
      offset := offset + invalidLength;
    }
    DecodeSpell(us);
    assert bytes[..|bytes|] == bytes;
  }

  lemma {:induction false} EmptyUnits()
    ensures Spell([]) == [] && Bytes([]) == []
  {
  }

  method FromSourceView(view: seq<Scalar>) returns (bytes: seq<Byte>)
    ensures bytes == Decode(view)
  {
    hide Utf8, PairBytes, Decode;
    bytes := [];
    var i := 0;
    DecodeEnds(view);
    while i < |view|
      invariant 0 <= i <= |view| && bytes + Decode(view[i..]) == Decode(view)
    {
      var c := view[i];
      DecodeStep(bytes, view, i);
      if c == ESCAPE && i + 1 < |view| && (view[i + 1] == ESCAPE || IsMarker(view[i + 1])) {
        bytes := bytes + PairBytes(view[i + 1]);
        i := i + 2;
      } else {
        bytes := bytes + Utf8(c);
        i := i + 1;
      }
    }
  }

  lemma {:induction false} DecodeEnds(view: seq<Scalar>)
    ensures [] + Decode(view[0..]) == Decode(view)
    ensures forall bs: seq<Byte> :: bs + Decode(view[|view|..]) == bs
  {
    assert view[0..] == view;
  }

  lemma {:induction false} DecodeStep(bytes: seq<Byte>, view: seq<Scalar>, i: nat)
    requires i < |view|
    ensures StartsPair(view[i..]) ==>
      i + 1 < |view| && bytes + Decode(view[i..]) == (bytes + PairBytes(view[i + 1])) + Decode(view[i + 2..])
    ensures !StartsPair(view[i..]) ==> bytes + Decode(view[i..]) == (bytes + Utf8(view[i])) + Decode(view[i + 1..])
  {
    hide Utf8, PairBytes;
    var rest := view[i..];
    if StartsPair(rest) {
      assert rest[2..] == view[i + 2..];
      ConcatAssociates(bytes, PairBytes(rest[1]), Decode(view[i + 2..]));
    } else {
      assert rest[1..] == view[i + 1..];
      ConcatAssociates(bytes, Utf8(rest[0]), Decode(view[i + 1..]));
    }
  }

  lemma {:induction false} ConcatAssociates(a: seq<Byte>, b: seq<Byte>, c: seq<Byte>)
    ensures a + (b + c) == (a + b) + c
  {
  }

  // ---- Offsets ----

  /** Source bytes before encoded offset `off`: nothing of a two-character escape
      counts until all of it is passed, plain characters count byte by byte. */
  function SourceOffset(view: seq<Scalar>, off: nat): nat {
    if view == [] || off == 0 then 0
    else if StartsPair(view) then
      var w := Width(ESCAPE) + Width(view[1]);
      if off < w then 0 else |PairBytes(view[1])| + SourceOffset(view[2..], off - w)
    else
      var w := Width(view[0]);
      if off < w then off else w + SourceOffset(view[1..], off - w)
  }

  method SourceByteOffset(view: seq<Scalar>, encodedOffset: nat) returns (sourceOffset: nat)
    ensures sourceOffset
         == SourceOffset(view, if encodedOffset < ByteLength(view) then encodedOffset else ByteLength(view))
  {
    hide Utf8, PairBytes, Width, SourceOffset, ByteLength, IsMarker;
    var target := if encodedOffset < ByteLength(view) then encodedOffset else ByteLength(view);
    sourceOffset := 0;
    var start, i := 0, 0;
    assert view[0..] == view;
    while i < |view| && start < target
      invariant 0 <= i <= |view| && 0 <= start <= target
      invariant sourceOffset + SourceOffset(view[i..], target - start) == SourceOffset(view, target)
    {
      var rest := view[i..];
      OffsetStep(view, i, target - start);
      if StartsPair(rest) {
        var pairEnd := start + Width(ESCAPE) + Width(rest[1]);
        if target < pairEnd {
          return;
        }
        sourceOffset := sourceOffset + |PairBytes(rest[1])|;
        i, start := i + 2, pairEnd;
      } else {
        var end := start + Width(view[i]);
        if target < end {
          sourceOffset := sourceOffset + target - start;
          return;
        }
        sourceOffset := sourceOffset + Width(view[i]);
        i, start := i + 1, end;
      }
    }
    OffsetStops(view[i..], target - start);
  }

  /** One unit of the offset map. */
  lemma {:induction false} OffsetStep(view: seq<Scalar>, i: nat, x: nat)
    requires i < |view| && x > 0
    ensures StartsPair(view[i..]) ==>
      && i + 2 <= |view|
      && var w := Width(ESCAPE) + Width(view[i..][1]);
      SourceOffset(view[i..], x) == if x < w then 0 else |PairBytes(view[i..][1])| + SourceOffset(view[i + 2..], x - w)
    ensures !StartsPair(view[i..]) ==>
      var w := Width(view[i]);
      SourceOffset(view[i..], x) == if x < w then x else w + SourceOffset(view[i + 1..], x - w)
  {
    hide Utf8, PairBytes, Width, IsMarker;
    var rest := view[i..];
    assert rest[1..] == view[i + 1..];
    if StartsPair(rest) {
      assert rest[2..] == view[i + 2..];
    }
  }

  lemma {:induction false} OffsetStops(view: seq<Scalar>, x: nat)
    requires view == [] || x == 0
    ensures SourceOffset(view, x) == 0
  {
  }

  /** The last offset counts all decoded bytes, of any view. */
  lemma {:induction false} SourceLength(view: seq<Scalar>)
    ensures SourceOffset(view, ByteLength(view)) == |Decode(view)|
    decreases |view|
  {
    hide PairBytes;
    if view != [] {
      if StartsPair(view) {
        SourceLength(view[2..]);
        assert view[1..][1..] == view[2..];
        assert ByteLength(view) == Width(view[0]) + (Width(view[1]) + ByteLength(view[2..]));
      } else {
        SourceLength(view[1..]);
      }
    }
  }

  lemma {:induction false} SourceOffsetMonotone(view: seq<Scalar>, a: nat, b: nat)
    requires a <= b
    ensures SourceOffset(view, a) <= SourceOffset(view, b)
    decreases |view|
  {
    hide Utf8, PairBytes, Width, IsMarker, SourceOffset;
    OffsetStops([], a);
    OffsetStops(view, 0);
    if view != [] && a > 0 {
      assert view[0..] == view;
      OffsetStep(view, 0, a);
      OffsetStep(view, 0, b);
      if StartsPair(view) {
        var w := Width(ESCAPE) + Width(view[1]);
        if a >= w {
          SourceOffsetMonotone(view[2..], a - w, b - w);
        }
      } else {
        var w := Width(view[0]);
        if a >= w {
          SourceOffsetMonotone(view[1..], a - w, b - w);
        }
      }
    }
  }

  /** After a character that is not the escape character a unit has ended, so
      counting can restart there. */
  lemma {:induction false} Resynchronizes(view: seq<Scalar>, j: nat, x: nat)
    requires j <= |view| && (j == 0 || view[j - 1] != ESCAPE)
    ensures SourceOffset(view, ByteLength(view[..j]) + x)
         == SourceOffset(view, ByteLength(view[..j])) + SourceOffset(view[j..], x)
    decreases |view|
  {
    hide Utf8, PairBytes, Width, SourceOffset, ByteLength;
    if j == 0 {
      assert view[0..] == view;
      EmptyPrefix(view);
    } else if StartsPair(view) {
      assert j >= 2;
      PrefixTail(view, j);
      PrefixTail(view[1..], j - 1);
      assert view[1..][1..] == view[2..];
      var y := ByteLength(view[2..][..j - 2]);
      OffsetSkipsPair(view, y);
      OffsetSkipsPair(view, y + x);
      Resynchronizes(view[2..], j - 2, x);
      assert view[2..][j - 2..] == view[j..];
    } else {
      PrefixTail(view, j);
      var y := ByteLength(view[1..][..j - 1]);
      OffsetSkipsChar(view, y);
      OffsetSkipsChar(view, y + x);
      Resynchronizes(view[1..], j - 1, x);
      assert view[1..][j - 1..] == view[j..];
    }
  }

  /** What the offset map counts: up to the end of any unit it is the number of
      bytes decoded so far. */
  lemma {:induction false} OffsetCountsDecoded(view: seq<Scalar>, j: nat)
    requires j <= |view| && (j == 0 || view[j - 1] != ESCAPE)
    ensures SourceOffset(view, ByteLength(view[..j])) == |Decode(view[..j])|
    decreases |view|
  {
    hide Utf8, PairBytes, Width, SourceOffset, ByteLength, IsMarker;
    if j == 0 {
      EmptyPrefix(view);
    } else if StartsPair(view) {
      assert j >= 2;
      PrefixTail(view, j);
      PrefixTail(view[1..], j - 1);
      assert view[1..][1..] == view[2..];
      OffsetSkipsPair(view, ByteLength(view[2..][..j - 2]));
      OffsetCountsDecoded(view[2..], j - 2);
      assert view[..j][2..] == view[2..][..j - 2];
      assert view[..j][0] == view[0] && view[..j][1] == view[1];
    } else {
      PrefixTail(view, j);
      OffsetSkipsChar(view, ByteLength(view[1..][..j - 1]));
      OffsetCountsDecoded(view[1..], j - 1);
      assert view[..j][1..] == view[1..][..j - 1];
      assert view[..j][0] == view[0] && (j > 1 ==> view[..j][1] == view[1]);
      assert Width(view[0]) == |Utf8(view[0])| by { WidthIs(view[0]); }
    }
  }

  lemma {:induction false} WidthIs(c: Scalar)
    ensures Width(c) == |Utf8(c)|
  {
  }

  lemma {:induction false} EmptyPrefix(view: seq<Scalar>)
    ensures ByteLength(view[..0]) == 0 && SourceOffset(view, 0) == 0
  {
  }

  lemma {:induction false} OffsetSkipsPair(view: seq<Scalar>, y: nat)
    requires StartsPair(view)
    ensures SourceOffset(view, Width(ESCAPE) + Width(view[1]) + y) == |PairBytes(view[1])| + SourceOffset(view[2..], y)
  {
    hide Utf8, PairBytes, Width;
  }

  lemma {:induction false} OffsetSkipsChar(view: seq<Scalar>, y: nat)
    requires view != [] && !StartsPair(view)
    ensures SourceOffset(view, Width(view[0]) + y) == Width(view[0]) + SourceOffset(view[1..], y)
  {
    hide Utf8, Width;
  }

  lemma {:induction false} PrefixTail(view: seq<Scalar>, j: nat)
    requires 0 < j <= |view|
    ensures ByteLength(view[..j]) == Width(view[0]) + ByteLength(view[1..][..j - 1])
  {
    assert view[..j][1..] == view[1..][..j - 1];
  }

  lemma {:induction false} ByteLengthSplit(view: seq<Scalar>, j: nat)
    requires j <= |view|
    ensures ByteLength(view) == ByteLength(view[..j]) + ByteLength(view[j..])
    decreases j
  {
    if j == 0 {
      assert view[0..] == view;
    } else {
      ByteLengthSplit(view[1..], j - 1);
      assert view[..j][1..] == view[1..][..j - 1] && view[1..][j - 1..] == view[j..];
    }
  }

  /** The source bytes between two encoded offsets, read from a local restart
      point; `k` is the character index of the start offset. */
  method SourceByteRangeLen(view: seq<Scalar>, start: nat, end: nat, k: nat) returns (length: nat)
    requires k <= |view| && ByteLength(view[..k]) == if start < ByteLength(view) then start else ByteLength(view)
    ensures var total := ByteLength(view);
            var s := if start < total then start else total;
            var e := if end < s then s else if end < total then end else total;
      && SourceOffset(view, s) <= SourceOffset(view, e)
      && length == SourceOffset(view, e) - SourceOffset(view, s)
  {
    hide SourceOffset, ByteLength;
    var total := ByteLength(view);
    var s := if start < total then start else total;
    var e := if end < s then s else if end < total then end else total;
    var j, scanStart := k, s;
    while j > 0 && view[j - 1] == ESCAPE
      invariant 0 <= j <= k && scanStart == ByteLength(view[..j]) <= s
    {
      PrefixGrows(view, j - 1);
      j, scanStart := j - 1, scanStart - Width(ESCAPE);
    }
    ByteLengthSplit(view, j);
    Resynchronizes(view, j, e - scanStart);
    Resynchronizes(view, j, s - scanStart);
    SourceOffsetMonotone(view, s, e);
    var upper := SourceByteOffset(view[j..], e - scanStart);
    var lower := SourceByteOffset(view[j..], s - scanStart);
    length := if upper < lower then 0 else upper - lower;
  }

  lemma {:induction false} PrefixGrows(view: seq<Scalar>, j: nat)
    requires j < |view|
    ensures ByteLength(view[..j + 1]) == ByteLength(view[..j]) + Width(view[j])
  {
    ByteLengthSplit(view[..j + 1], j);
    assert view[..j + 1][..j] == view[..j] && view[..j + 1][j..] == [view[j]];
    assert [view[j]][1..] == [];
    assert ByteLength([]) == 0;
  }
}
