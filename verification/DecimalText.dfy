/**
  Reading a decimal field (runtime/src/decimal_input.rs, ExactDecimal::parse).
  The reference is the grammar: a `Field` is a parse tree, `Spell` prints it and
  `DenotedMagnitude` gives the number it stands for.
 */
module DecimalText {
  import opened Wrappers
  import opened MachineInts
  import opened Powers
  import opened Digits
  import opened ExactDecimals

  // ---- Grammar ----

  datatype Exponent = Exponent(marker: char, sign: string, digits: seq<nat>)

  /** sign? digits [. digits] [e sign? digits] */
  datatype Field = Field(sign: string, whole: seq<nat>, point: bool, fraction: seq<nat>, exponent: Option<Exponent>)

  predicate IsSign(s: string) {
    s == "" || s == "+" || s == "-"
  }

  predicate IsMarker(c: char) {
    c == 'e' || c == 'E'
  }

  predicate IsDigitChar(c: char) {
    '0' <= c <= '9'
  }

  function DigitOf(c: char): nat
    requires IsDigitChar(c)
  {
    c as int - '0' as int
  }

  function DigitChar(d: nat): (c: char)
    requires d < 10
    ensures IsDigitChar(c) && DigitOf(c) == d
  {
    ('0' as int + d) as char
  }

  ghost predicate WellFormed(g: Field) {
    && IsSign(g.sign)
    && AreDigits(g.whole) && AreDigits(g.fraction)
    && |g.whole| + |g.fraction| > 0
    && (!g.point ==> g.fraction == [])
    && (g.exponent.Some? ==>
          && IsMarker(g.exponent.value.marker)
          && IsSign(g.exponent.value.sign)
          && AreDigits(g.exponent.value.digits)
          && |g.exponent.value.digits| > 0)
  }

  function Text(ds: seq<nat>): (s: string)
    requires AreDigits(ds)
    ensures |s| == |ds| && forall i :: 0 <= i < |s| ==> s[i] == DigitChar(ds[i])
  {
    seq(|ds|, i requires 0 <= i < |ds| => DigitChar(ds[i]))
  }

  function MantissaText(whole: seq<nat>, point: bool, fraction: seq<nat>): string
    requires AreDigits(whole) && AreDigits(fraction)
  {
    if point then Text(whole) + "." + Text(fraction) else Text(whole)
  }

  function ExponentText(x: Option<Exponent>): string
    requires x.Some? ==> AreDigits(x.value.digits)
  {
    if x.None? then "" else [x.value.marker] + (x.value.sign + Text(x.value.digits))
  }

  ghost function Spell(g: Field): string
    requires WellFormed(g)
  {
    g.sign + (MantissaText(g.whole, g.point, g.fraction) + ExponentText(g.exponent))
  }

  function ExponentValue(x: Exponent): int {
    if x.sign == "-" then -(DigitsValue(x.digits) as int) else DigitsValue(x.digits)
  }

  /** The power of ten applied to the digit string: implied decimals only
      without a point, the scale factor only without an exponent. */
  ghost function DenotedExponent(g: Field, implied: nat, scale: int): int {
    (if g.exponent.Some? then ExponentValue(g.exponent.value) else -scale)
    - (if g.point then |g.fraction| else implied)
  }

  ghost function DenotedMagnitude(g: Field, implied: nat, scale: int): real {
    Scale(10, DigitsValue(g.whole + g.fraction) as real, DenotedExponent(g, implied, scale))
  }

  /** The sign a field denotes, also for zero. */
  predicate DenotesNegative(g: Field) {
    g.sign == "-"
  }

  // ---- Trimming and signs ----

  /** The Unicode White_Space characters. */
  predicate IsWhite(c: char) {
    var v := c as int;
    || 9 <= v <= 13 || v == 0x20 || v == 0x85 || v == 0xA0 || v == 0x1680
    || 0x2000 <= v <= 0x200A || v == 0x2028 || v == 0x2029 || v == 0x202F || v == 0x205F || v == 0x3000
  }

  function Trim(s: string): (t: string)
    ensures |t| <= |s|
  {
    if s != "" && IsWhite(s[0]) then Trim(s[1..])
    else if s != "" && IsWhite(s[|s| - 1]) then Trim(s[..|s| - 1])
    else s
  }

  predicate AllWhite(s: string) {
    forall i :: 0 <= i < |s| ==> IsWhite(s[i])
  }

  /** Among the ASCII characters only blank, tab, line feed, vertical tab, form feed
      and carriage return are white. */
  lemma {:induction false} AsciiWhite(c: char)
    requires c as int < 0x80
    ensures IsWhite(c) <==> c in " \t\n\U{0B}\U{0C}\r"
  {
  }

  /** White space around a text that does not begin or end with any is removed. */
  lemma {:induction false} TrimPadded(a: string, core: string, b: string)
    requires AllWhite(a) && AllWhite(b)
    requires core != "" && !IsWhite(core[0]) && !IsWhite(core[|core| - 1])
    ensures Trim(a + core + b) == core
    decreases |a| + |b|
  {
    hide IsWhite;
    var s := a + core + b;
    if a != "" {
      assert s[0] == a[0] && s[1..] == a[1..] + core + b;
      TrimPadded(a[1..], core, b);
    } else if b != "" {
      var n := |b| - 1;
      assert s[0] == core[0] && s[|s| - 1] == b[n] && s[..|s| - 1] == a + core + b[..n];
      TrimPadded(a, core, b[..n]);
    } else {
      assert s == core;
    }
  }

  /** Only white space is removed. */
  lemma {:induction false} TrimRemoves(s: string) returns (a: string, b: string)
    ensures AllWhite(a) && AllWhite(b) && s == a + Trim(s) + b
    decreases |s|
  {
    hide IsWhite;
    a, b := "", "";
    if s != "" && IsWhite(s[0]) {
      var a', b' := TrimRemoves(s[1..]);
      a, b := [s[0]] + a', b';
      assert s == [s[0]] + s[1..];
    } else if s != "" && IsWhite(s[|s| - 1]) {
      var n := |s| - 1;
      var a', b' := TrimRemoves(s[..n]);
      a, b := a', b' + [s[n]];
      assert s == s[..n] + [s[n]];
    } else {
      assert s == "" + s + "";
    }
  }

  // ---- Characters of fields ----

  /** What fields are written with. */
  predicate IsFieldChar(c: char) {
    IsDigitChar(c) || IsMarker(c) || c == '+' || c == '-' || c == '.'
  }

  predicate IsFieldText(s: string) {
    forall i :: 0 <= i < |s| ==> IsFieldChar(s[i])
  }

  lemma {:induction false} FieldTextConcat(a: string, b: string)
    requires IsFieldText(a) && IsFieldText(b)
    ensures IsFieldText(a + b)
  {
    hide IsFieldChar;
  }

  lemma {:induction false} PiecesAreFieldText(ds: seq<nat>, sign: string, marker: char)
    requires AreDigits(ds) && IsSign(sign) && IsMarker(marker)
    ensures IsFieldText(Text(ds)) && IsFieldText(sign) && IsFieldText([marker]) && IsFieldText(".") && IsFieldText("")
  {
  }

  lemma {:induction false} SpellIsFieldText(g: Field)
    requires WellFormed(g)
    ensures IsFieldText(Spell(g)) && Spell(g) != ""
  {
    hide IsFieldText, Text, IsFieldChar;
    PiecesAreFieldText(g.whole, g.sign, 'e');
    PiecesAreFieldText(g.fraction, g.sign, 'e');
    FieldTextConcat(Text(g.whole), ".");
    FieldTextConcat(Text(g.whole) + ".", Text(g.fraction));
    if g.exponent.Some? {
      var x := g.exponent.value;
      PiecesAreFieldText(x.digits, x.sign, x.marker);
      FieldTextConcat(x.sign, Text(x.digits));
      FieldTextConcat([x.marker], x.sign + Text(x.digits));
    }
    FieldTextConcat(MantissaText(g.whole, g.point, g.fraction), ExponentText(g.exponent));
    FieldTextConcat(g.sign, MantissaText(g.whole, g.point, g.fraction) + ExponentText(g.exponent));
  }

  /** The input is a field with white space around it. */
  ghost predicate Surrounded(input: string, a: string, g: Field, b: string) {
    WellFormed(g) && AllWhite(a) && AllWhite(b) && input == a + Spell(g) + b
  }

  /** White space around a field leaves the field. */
  lemma {:induction false} TrimField(input: string, a: string, g: Field, b: string)
    requires Surrounded(input, a, g, b)
    ensures Trim(input) == Spell(g)
  {
    hide Spell, AllWhite, Trim;
    SpellIsFieldText(g);
    var s := Spell(g);
    assert IsFieldChar(s[0]) && IsFieldChar(s[|s| - 1]);
    TrimPadded(a, s, b);
  }

  // ---- Special spellings ----

  predicate IsSpecialLetter(c: char) {
    ('a' <= c <= 'z' || 'A' <= c <= 'Z') && !IsMarker(c)
  }

  /** A letter other than the exponent's: infinities and NaNs, which the runtime
      leaves to the host parser. */
  predicate HasSpecialSpelling(s: string) {
    exists i :: 0 <= i < |s| && IsSpecialLetter(s[i])
  }

  /** An ASCII letter, by its code. */
  predicate IsLetter(c: char) {
    var code := c as int;
    65 <= code <= 90 || 97 <= code <= 122
  }

  lemma {:induction false} SpecialExactly(s: string)
    ensures HasSpecialSpelling(s) <==> exists i :: 0 <= i < |s| && IsLetter(s[i]) && s[i] != 'e' && s[i] != 'E'
  {
    if HasSpecialSpelling(s) {
      var i :| 0 <= i < |s| && IsSpecialLetter(s[i]);
      assert IsLetter(s[i]);
    }
    if i :| 0 <= i < |s| && IsLetter(s[i]) && s[i] != 'e' && s[i] != 'E' {
      assert IsSpecialLetter(s[i]);
    }
  }

  lemma {:induction false} TrimKeepsLetters(s: string)
    requires HasSpecialSpelling(s)
    ensures HasSpecialSpelling(Trim(s))
    decreases |s|
  {
    var i :| 0 <= i < |s| && IsSpecialLetter(s[i]);
    if IsWhite(s[0]) {
      assert s[1..][i - 1] == s[i];
      TrimKeepsLetters(s[1..]);
    } else if IsWhite(s[|s| - 1]) {
      assert s[..|s| - 1][i] == s[i];
      TrimKeepsLetters(s[..|s| - 1]);
    }
  }

  /** No numeric field takes the special path. */
  lemma {:induction false} FieldsAreNotSpecial(g: Field)
    requires WellFormed(g)
    ensures !HasSpecialSpelling(Spell(g))
  {
    hide Spell;
    SpellIsFieldText(g);
  }

  /** Removes one leading sign; the flag tells whether it was a minus. */
  function StripSign(s: string): (r: (bool, string))
    ensures |r.1| <= |s|
  {
    if s != "" && s[0] == '-' then (true, s[1..])
    else if s != "" && s[0] == '+' then (false, s[1..])
    else (false, s)
  }

  lemma {:induction false} StripSignSpelled(sign: string, rest: string)
    requires IsSign(sign) && (rest != "" ==> rest[0] != '-' && rest[0] != '+')
    ensures StripSign(sign + rest) == (sign == "-", rest)
  {
    if sign != "" {
      assert (sign + rest)[1..] == rest;
    } else {
      assert sign + rest == rest;
    }
  }

  function SignText(negative: bool, s: string, rest: string): (sign: string)
    requires StripSign(s) == (negative, rest)
    ensures IsSign(sign) && s == sign + rest && (sign == "-" <==> negative)
  {
    if negative then "-" else if |rest| < |s| then "+" else ""
  }

  lemma {:induction false} MantissaChars(whole: seq<nat>, point: bool, fraction: seq<nat>)
    requires AreDigits(whole) && AreDigits(fraction)
    ensures var m := MantissaText(whole, point, fraction);
      && (forall i :: 0 <= i < |m| && !(point && i == |whole|) ==> IsDigitChar(m[i]))
      && (point ==> |m| == |whole| + 1 + |fraction| && m[|whole|] == '.')
      && (!point ==> |m| == |whole|)
  {
  }

  /** What the stages of the parser see of a spelled field. */
  lemma {:induction false} SpelledParts(g: Field)
    requires WellFormed(g)
    ensures var m := MantissaText(g.whole, g.point, g.fraction);
            var u := m + ExponentText(g.exponent);
      && |m| > 0
      && StripSign(Spell(g)) == (DenotesNegative(g), u)
      && (forall i :: 0 <= i < |u| && IsMarker(u[i]) ==> g.exponent.Some? && i == |m|)
      && (g.exponent.Some? ==> IsMarker(u[|m|]) && u[..|m|] == m)
      && (g.exponent.Some? ==> u[|m| + 1..] == g.exponent.value.sign + Text(g.exponent.value.digits))
      && (g.exponent.None? ==> u == m)
  {
    var m := MantissaText(g.whole, g.point, g.fraction);
    MantissaChars(g.whole, g.point, g.fraction);
    hide MantissaText, Text;
    StripSignSpelled(g.sign, m + ExponentText(g.exponent));
    if g.exponent.Some? {
      MarkerPosition(m, g.exponent.value);
    } else {
      assert m + "" == m;
    }
  }

  lemma {:induction false} MarkerPosition(m: string, e: Exponent)
    requires forall i :: 0 <= i < |m| ==> !IsMarker(m[i])
    requires IsMarker(e.marker) && IsSign(e.sign) && AreDigits(e.digits)
    ensures var u := m + ([e.marker] + (e.sign + Text(e.digits)));
      && |u| > |m| && u[|m|] == e.marker && u[..|m|] == m && u[|m| + 1..] == e.sign + Text(e.digits)
      && forall i :: 0 <= i < |u| && IsMarker(u[i]) ==> i == |m|
  {
    var tail := e.sign + Text(e.digits);
    var u := m + ([e.marker] + tail);
    assert forall i :: 0 <= i < |tail| ==> !IsMarker(tail[i]);
    assert u[|m| + 1..] == tail;
    assert forall i :: |m| < i < |u| ==> u[i] == tail[i - |m| - 1];
  }

  // ---- Stages ----

  /** Finds the exponent marker; more than one is malformed. */
  method FindMarker(unsigned: string) returns (ok: bool, marker: Option<nat>)
    ensures !ok ==> exists i, j :: 0 <= i < j < |unsigned| && IsMarker(unsigned[i]) && IsMarker(unsigned[j])
    ensures ok && marker.None? ==> forall i :: 0 <= i < |unsigned| ==> !IsMarker(unsigned[i])
    ensures ok && marker.Some? ==>
      && marker.value < |unsigned| && IsMarker(unsigned[marker.value])
      && forall i :: 0 <= i < |unsigned| && i != marker.value ==> !IsMarker(unsigned[i])
  {
    marker := None;
    for index := 0 to |unsigned|
      invariant marker.None? ==> forall i :: 0 <= i < index ==> !IsMarker(unsigned[i])
      invariant marker.Some? ==>
        && marker.value < index && IsMarker(unsigned[marker.value])
        && forall i :: 0 <= i < index && i != marker.value ==> !IsMarker(unsigned[i])
    {
      if IsMarker(unsigned[index]) {
        if marker.Some? {
          return false, marker;
        }
        marker := Some(index);
      }
    }
    ok := true;
  }

  datatype Mantissa = Mantissa(digits: seq<nat>, sawDecimal: bool, fractionalDigits: nat)

  /** Collects the mantissa's digits and counts those after the point. */
  method ReadMantissa(mantissa: string) returns (r: Option<Mantissa>)
    ensures r.Some? ==>
      && var p := r.value;
      && AreDigits(p.digits) && 0 < |p.digits| <= |mantissa| && p.fractionalDigits <= |p.digits|
      && (!p.sawDecimal ==> p.fractionalDigits == 0)
      && var k := |p.digits| - p.fractionalDigits;
      && mantissa == MantissaText(p.digits[..k], p.sawDecimal, p.digits[k..])
    ensures r.None? ==> forall whole, point, fraction ::
        AreDigits(whole) && AreDigits(fraction) && |whole| + |fraction| > 0 && (!point ==> fraction == [])
        ==> mantissa != MantissaText(whole, point, fraction)
  {
    hide MantissaText;
    var digits: seq<nat> := [];
    var sawDecimal := false;
    var fractionalDigits := 0;
    ghost var k := 0;
    EmptyMantissa();
    var index := 0;
    while index < |mantissa|
      invariant 0 <= index <= |mantissa| && AreDigits(digits)
      invariant !sawDecimal ==> k == |digits| == index && fractionalDigits == 0
      invariant sawDecimal ==> k <= |digits| == index - 1 && fractionalDigits == |digits| - k && mantissa[k] == '.'
      invariant mantissa[..index] == MantissaText(digits[..k], sawDecimal, digits[k..])
    {
      var c := mantissa[index];
      assert mantissa[..index + 1] == mantissa[..index] + [c];
      if IsDigitChar(c) {
        ExtendMantissa(digits, k, sawDecimal, DigitOf(c));
        digits := digits + [DigitOf(c)];
        if sawDecimal {
          fractionalDigits := fractionalDigits + 1;
        } else {
          k := k + 1;
        }
      } else if c == '.' && !sawDecimal {
        assert digits[..k] == digits && digits[k..] == [];
        PointMantissa(digits);
        sawDecimal := true;
      } else {
        StrayChar(mantissa, index, if sawDecimal then k else index);
        return None;
      }
      index := index + 1;
    }
    assert mantissa[..index] == mantissa;
    if |digits| == 0 {
      assert digits[..k] == [] && digits[k..] == [];
      DigitlessMantissa(mantissa, sawDecimal);
      return None;
    }
    r := Some(Mantissa(digits, sawDecimal, fractionalDigits));
  }

  lemma {:induction false} EmptyMantissa()
    ensures MantissaText([], false, []) == ""
  {
  }

  lemma {:induction false} PointMantissa(digits: seq<nat>)
    requires AreDigits(digits)
    ensures MantissaText(digits, true, []) == MantissaText(digits, false, []) + ['.']
  {
  }

  /** A character that is no digit, and not the first point, spoils a mantissa. */
  lemma {:induction false} StrayChar(mantissa: string, index: nat, point': nat)
    requires point' <= index < |mantissa| && !IsDigitChar(mantissa[index])
    requires mantissa[index] != '.' || (point' < index && mantissa[point'] == '.')
    ensures forall whole, point, fraction :: AreDigits(whole) && AreDigits(fraction) ==>
      mantissa != MantissaText(whole, point, fraction)
  {
    hide MantissaText;
    forall whole, point, fraction | AreDigits(whole) && AreDigits(fraction)
      ensures mantissa != MantissaText(whole, point, fraction)
    {
      MantissaChars(whole, point, fraction);
    }
  }

  lemma {:induction false} DigitlessMantissa(mantissa: string, sawDecimal: bool)
    requires mantissa == MantissaText([], sawDecimal, [])
    ensures forall whole, point, fraction ::
        AreDigits(whole) && AreDigits(fraction) && |whole| + |fraction| > 0 && (!point ==> fraction == [])
        ==> mantissa != MantissaText(whole, point, fraction)
  {
    assert |mantissa| == if sawDecimal then 1 else 0;
    assert sawDecimal ==> mantissa[0] == '.';
    hide MantissaText;
    forall whole, point, fraction | AreDigits(whole) && AreDigits(fraction) && |whole| + |fraction| > 0
                                    && (!point ==> fraction == [])
      ensures mantissa != MantissaText(whole, point, fraction)
    {
      MantissaChars(whole, point, fraction);
    }
  }

  lemma {:induction false} ExtendMantissa(digits: seq<nat>, k: nat, point: bool, d: nat)
    requires AreDigits(digits) && k <= |digits| && d < 10 && (!point ==> k == |digits|)
    ensures var k' := if point then k else k + 1;
            var ds := digits + [d];
      MantissaText(ds[..k'], point, ds[k'..]) == MantissaText(digits[..k], point, digits[k..]) + [DigitChar(d)]
  {
    var ds := digits + [d];
    if point {
      assert ds[..k] == digits[..k] && ds[k..] == digits[k..] + [d];
      assert Text(digits[k..] + [d]) == Text(digits[k..]) + [DigitChar(d)];
    } else {
      assert digits[..k] == digits && ds[..k + 1] == ds;
      assert Text(ds) == Text(digits) + [DigitChar(d)];
    }
  }

  /** The exponent clamped to i64, however many digits it has. */
  method ParseSaturatingExponent(input: string) returns (r: Option<int>, ghost sign: string, ghost ds: seq<nat>)
    ensures r.Some? ==>
      && IsSign(sign) && AreDigits(ds) && |ds| > 0 && input == sign + Text(ds)
      && r.value == (if sign == "-" then -Min(DigitsValue(ds), I64_MAX) else Min(DigitsValue(ds), I64_MAX))
    ensures r.None? ==> forall s, xs :: IsSign(s) && AreDigits(xs) && |xs| > 0 ==> input != s + Text(xs)
  {
    hide DigitsValue, Text, StripSign, SignText;
    var (negative, digits) := StripSign(input);
    sign := SignText(negative, input, digits);
    ds := [];
    var magnitude := 0;
    var index := 0;
    if |digits| == 0 {
      NoExponentDigits(input, digits);
      return None, sign, ds;
    }
    NoDigits();
    while index < |digits|
      invariant 0 <= index <= |digits|
      invariant AreDigits(ds) && |ds| == index && digits[..index] == Text(ds)
      invariant magnitude == Min(DigitsValue(ds), I64_MAX)
    {
      var c := digits[index];
      if !IsDigitChar(c) {
        NotAllDigits(input, digits, index);
        return None, sign, ds;
      }
      ValueAppend(ds, DigitOf(c));
      magnitude := Saturate(Saturate(magnitude * 10) + DigitOf(c));
      assert digits[..index + 1] == digits[..index] + [c];
      TextAppend(ds, c);
      ds := ds + [DigitOf(c)];
      index := index + 1;
    }
    assert digits[..index] == digits;
    r := Some(if negative then Saturate(-magnitude) else magnitude);
  }

  lemma {:induction false} NoDigits()
    ensures Text([]) == "" && DigitsValue([]) == 0
  {
  }

  lemma {:induction false} TextAppend(ds: seq<nat>, c: char)
    requires AreDigits(ds) && IsDigitChar(c)
    ensures AreDigits(ds + [DigitOf(c)]) && Text(ds + [DigitOf(c)]) == Text(ds) + [c]
  {
  }

  function Min(x: int, y: int): int {
    if x < y then x else y
  }

  lemma {:induction false} NoExponentDigits(input: string, rest: string)
    requires StripSign(input).1 == rest == ""
    ensures forall s, xs :: IsSign(s) && AreDigits(xs) && |xs| > 0 ==> input != s + Text(xs)
  {
    forall s, xs | IsSign(s) && AreDigits(xs) && |xs| > 0
      ensures input != s + Text(xs)
    {
      StripSignSpelled(s, Text(xs));
    }
  }

  lemma {:induction false} NotAllDigits(input: string, rest: string, i: nat)
    requires StripSign(input).1 == rest && i < |rest| && !IsDigitChar(rest[i])
    ensures forall s, xs :: IsSign(s) && AreDigits(xs) && |xs| > 0 ==> input != s + Text(xs)
  {
    forall s, xs | IsSign(s) && AreDigits(xs) && |xs| > 0
      ensures input != s + Text(xs)
    {
      StripSignSpelled(s, Text(xs));
    }
  }

  // ---- The whole field ----

  /** Splits a trimmed field into sign, mantissa and exponent.  It succeeds
      exactly on the spellings of well-formed fields. */
  method ReadField(text: string) returns (r: Option<(bool, Mantissa, Option<int>)>, ghost g: Field)
    ensures r.Some? ==>
      && var (negative, p, x) := r.value;
      && WellFormed(g) && text == Spell(g)
      && negative == DenotesNegative(g)
      && p.digits == g.whole + g.fraction && p.sawDecimal == g.point && p.fractionalDigits == |g.fraction|
      && AreDigits(p.digits) && |p.digits| <= |text|
      && x.Some? == g.exponent.Some?
      && (x.Some? ==> x.value == ClampedExponent(g.exponent.value))
    ensures r.None? ==> forall h :: WellFormed(h) ==> text != Spell(h)
  {
    hide MantissaText, Spell, StripSign, DigitsValue;
    g := Field("", [], false, [], None);
    var (negative, unsigned) := StripSign(text);
    var ok, marker := FindMarker(unsigned);
    if !ok {
      TwoMarkers(text, unsigned);
      return None, g;
    }
    var mantissa := if marker.Some? then unsigned[..marker.value] else unsigned;
    var explicitExponent: Option<int> := None;
    ghost var tree: Option<Exponent> := None;
    if marker.Some? {
      ghost var sign, ds;
      explicitExponent, sign, ds := ParseSaturatingExponent(unsigned[marker.value + 1..]);
      if explicitExponent.None? {
        BadExponent(text, unsigned, marker.value);
        return None, g;
      }
      tree := Some(Exponent(unsigned[marker.value], sign, ds));
    }
    var p := ReadMantissa(mantissa);
    if p.None? {
      BadMantissa(text, unsigned, marker);
      return None, g;
    }
    ghost var k := |p.value.digits| - p.value.fractionalDigits;
    g := Field(SignText(negative, text, unsigned), p.value.digits[..k], p.value.sawDecimal, p.value.digits[k..], tree);
    Reassembled(text, unsigned, mantissa, g);
    r := Some((negative, p.value, explicitExponent));
  }

  function ClampedExponent(x: Exponent): int {
    if x.sign == "-" then -Min(DigitsValue(x.digits), I64_MAX) else Min(DigitsValue(x.digits), I64_MAX)
  }

  lemma {:induction false} Reassembled(text: string, unsigned: string, mantissa: string, g: Field)
    requires WellFormed(g) && text == g.sign + unsigned
    requires mantissa == MantissaText(g.whole, g.point, g.fraction)
    requires g.exponent.None? ==> mantissa == unsigned
    requires g.exponent.Some? ==>
      && |mantissa| < |unsigned| && mantissa == unsigned[..|mantissa|]
      && unsigned[|mantissa|] == g.exponent.value.marker
      && unsigned[|mantissa| + 1..] == g.exponent.value.sign + Text(g.exponent.value.digits)
    ensures text == Spell(g)
  {
    if g.exponent.Some? {
      assert unsigned == mantissa + ([unsigned[|mantissa|]] + unsigned[|mantissa| + 1..]);
    } else {
      assert mantissa + "" == mantissa;
    }
  }

  lemma {:induction false} TwoMarkers(text: string, unsigned: string)
    requires StripSign(text).1 == unsigned
    requires exists i, j :: 0 <= i < j < |unsigned| && IsMarker(unsigned[i]) && IsMarker(unsigned[j])
    ensures forall h :: WellFormed(h) ==> text != Spell(h)
  {
    hide MantissaText, Spell, StripSign, Text;
    forall h | WellFormed(h)
      ensures text != Spell(h)
    {
      SpelledParts(h);
    }
  }

  lemma {:induction false} BadExponent(text: string, unsigned: string, i: nat)
    requires StripSign(text).1 == unsigned && i < |unsigned| && IsMarker(unsigned[i])
    requires forall s, xs :: IsSign(s) && AreDigits(xs) && |xs| > 0 ==> unsigned[i + 1..] != s + Text(xs)
    ensures forall h :: WellFormed(h) ==> text != Spell(h)
  {
    hide MantissaText, Spell, StripSign, Text;
    forall h | WellFormed(h)
      ensures text != Spell(h)
    {
      SpelledParts(h);
    }
  }

  lemma {:induction false} BadMantissa(text: string, unsigned: string, marker: Option<nat>)
    requires StripSign(text).1 == unsigned
    requires marker.None? ==> forall i :: 0 <= i < |unsigned| ==> !IsMarker(unsigned[i])
    requires marker.Some? ==> marker.value < |unsigned| && IsMarker(unsigned[marker.value])
    requires forall whole, point, fraction ::
        AreDigits(whole) && AreDigits(fraction) && |whole| + |fraction| > 0 && (!point ==> fraction == [])
        ==> (if marker.Some? then unsigned[..marker.value] else unsigned) != MantissaText(whole, point, fraction)
    ensures forall h :: WellFormed(h) ==> text != Spell(h)
  {
    hide MantissaText, Spell, StripSign, Text;
    forall h | WellFormed(h)
      ensures text != Spell(h)
    {
      SpelledParts(h);
    }
  }

  /** Parses a field into an exact decimal. */
  method Parse(input: string, impliedDecimals: nat, scaleFactor: int)
    returns (r: Option<ExactDecimal>, ghost g: Field, ghost stripped: nat)
    requires -0x8000_0000 <= scaleFactor < 0x8000_0000
    ensures r.None? ==> forall h :: WellFormed(h) ==> Trim(input) != Spell(h)
    ensures r.Some? ==>
      && WellFormed(g) && Trim(input) == Spell(g)
      && r.value.Normal() && r.value.negative == DenotesNegative(g)
      && |g.whole + g.fraction| <= |input|
      && NormalizedFrom(DigitsValue(g.whole + g.fraction), |g.whole + g.fraction|,
                        FieldExponent(g, impliedDecimals, scaleFactor), r.value, stripped)
  {
    hide Spell, Trim, WellFormed, DigitsValue, NatScale;
    stripped := 0;
    var parts;
    parts, g := ReadField(Trim(input));
    if parts.None? {
      return None, g, stripped;
    }
    var (negative, p, explicitExponent) := parts.value;
    var exponent := if explicitExponent.Some? then explicitExponent.value else 0;
    var decimalShift := Min(if p.sawDecimal then p.fractionalDigits else impliedDecimals, I64_MAX);
    exponent := Saturate(exponent - decimalShift);
    if explicitExponent.None? {
      exponent := Saturate(exponent - scaleFactor);
    }
    var d;
    d, stripped := Normalized(negative, p.digits, exponent);
    r := Some(d);
  }

  /** The i64 exponent before normalization: every step saturates. */
  ghost function FieldExponent(g: Field, implied: nat, scale: int): int {
    var e := if g.exponent.Some? then ClampedExponent(g.exponent.value) else 0;
    var shifted := Saturate(e - Min(if g.point then |g.fraction| else implied, I64_MAX));
    if g.exponent.None? then Saturate(shifted - scale) else shifted
  }

  /** `d` is the number before * 10^e with `stripped` trailing zeros moved into
      a saturating exponent; `before` has n digits. */
  ghost predicate NormalizedFrom(before: nat, n: nat, e: int, d: ExactDecimal, stripped: nat) {
    && (before == 0 <==> d.IsZero())
    && (before > 0 ==>
          && |d.digits| + stripped <= n
          && before == NatScale(10, DigitsValue(d.digits), stripped)
          && d.exponent == Saturate(e + stripped))
  }

  // ---- A text spells at most one field ----

  lemma {:induction false} TextInjective(a: seq<nat>, b: seq<nat>)
    requires AreDigits(a) && AreDigits(b) && Text(a) == Text(b)
    ensures a == b
  {
    forall i | 0 <= i < |a|
      ensures a[i] == b[i]
    {
      assert DigitOf(Text(a)[i]) == a[i] && DigitOf(Text(b)[i]) == b[i];
    }
  }

  lemma {:induction false} MantissaInjective(w: seq<nat>, p: bool, x: seq<nat>, w': seq<nat>, p': bool, x': seq<nat>)
    requires AreDigits(w) && AreDigits(x) && AreDigits(w') && AreDigits(x')
    requires (!p ==> x == []) && (!p' ==> x' == [])
    requires MantissaText(w, p, x) == MantissaText(w', p', x')
    ensures w == w' && p == p' && x == x'
  {
    var m := MantissaText(w, p, x);
    MantissaChars(w, p, x);
    MantissaChars(w', p', x');
    assert p == p';
    assert p ==> |w| == |w'|;
    assert Text(w) == m[..|w|] == Text(w');
    TextInjective(w, w');
    if p {
      assert Text(x) == m[|w| + 1..] == Text(x');
      TextInjective(x, x');
    }
  }

  lemma {:induction false} SignedDigitsInjective(s: string, a: seq<nat>, t: string, b: seq<nat>)
    requires IsSign(s) && IsSign(t) && AreDigits(a) && AreDigits(b) && s + Text(a) == t + Text(b)
    ensures s == t && a == b
  {
    StripSignSpelled(s, Text(a));
    StripSignSpelled(t, Text(b));
    TextInjective(a, b);
  }

  lemma {:induction false} SpellInjective(g: Field, h: Field)
    requires WellFormed(g) && WellFormed(h) && Spell(g) == Spell(h)
    ensures g == h
  {
    hide MantissaText, Text, StripSign;
    SpelledParts(g);
    SpelledParts(h);
    var m, n := MantissaText(g.whole, g.point, g.fraction), MantissaText(h.whole, h.point, h.fraction);
    var u := m + ExponentText(g.exponent);
    assert u == n + ExponentText(h.exponent);
    assert g.exponent.Some? ==> IsMarker(u[|m|]);
    assert h.exponent.Some? ==> IsMarker(u[|n|]);
    assert m == n;
    MantissaInjective(g.whole, g.point, g.fraction, h.whole, h.point, h.fraction);
    assert |g.sign| == |h.sign|;
    if g.exponent.Some? {
      var x, y := g.exponent.value, h.exponent.value;
      assert u[|m|] == x.marker == y.marker;
      SignedDigitsInjective(x.sign, x.digits, y.sign, y.digits);
    }
  }
}
