/** `helpers/parsing.py`: the table of field labels, the reading of a
    numeral written with `.` for thousands and `,` for decimals, and
    `extract_values`, which finds all ten fields of a balance sheet in a
    document's text or reports that it could not. */
module Parsing {
  import opened Wrappers
  import opened Text
  import opened Decimals
  import opened Patterns

  // ---------------------------------------------------------------------
  // The field table
  // ---------------------------------------------------------------------

  /** One entry of the field table: the key of the field and the labels
      that may introduce its amount, in the order they are tried. */
  datatype FieldSpec = FieldSpec(key: string, labels: seq<Label>)

  /** The word `l[ií]quidos`. */
  const Liquidos: Word := Literal("l") + [['i', '\U{ED}']] + Literal("quidos")

  /** `Inversiones.*?C\/P` */
  const InversionesCp: Label := Lazy([Literal("Inversiones"), Literal("C/P")])

  /** `Inversiones.*?grupo.*?C\/P` */
  const InversionesGrupoCp: Label := Lazy([Literal("Inversiones"), Literal("grupo"), Literal("C/P")])

  /** `Riesgo` */
  const RiesgoLabel: Label := Spaced([Literal("Riesgo")])

  /** The ten fields in the order the table declares them, which is the
      order in which `extract_values` looks for them. */
  const FieldLabels: seq<FieldSpec> := [
    FieldSpec("activo_corriente", [Spaced([Literal("Activo"), Literal("Corriente")])]),
    FieldSpec("pasivo_corriente", [Spaced([Literal("Pasivo"), Literal("Corriente")])]),
    FieldSpec("pasivo_no_corriente", [Spaced([Literal("Pasivo"), Literal("No"), Literal("Corriente")])]),
    FieldSpec("efectivo_liquido", [Spaced([Literal("Efectivo"), Literal("y"), Literal("otros"), Liquidos])]),
    FieldSpec("patrimonio_neto", [Spaced([Literal("Patrimonio"), Literal("Neto")])]),
    FieldSpec("fondos_propios", [Spaced([Literal("Fondos"), Literal("Propios")])]),
    FieldSpec("resultado_antes_imp", [Spaced([Literal("Resultado"), Literal("antes"), Literal("de"), Literal("impuestos")])]),
    FieldSpec("existencias", [Spaced([Literal("Existencias")])]),
    FieldSpec("inversiones_cp", [InversionesCp, InversionesGrupoCp]),
    FieldSpec("riesgo", [RiesgoLabel])
  ]

  function Keys(fields: seq<FieldSpec>): (r: set<string>)
    ensures forall k :: 0 <= k < |fields| ==> fields[k].key in r
    ensures forall key :: key in r ==> exists k :: 0 <= k < |fields| && fields[k].key == key
  {
    set k | 0 <= k < |fields| :: fields[k].key
  }

  /** The ten keys of the table. */
  const FieldKeys: set<string> := Keys(FieldLabels)

  /** No two entries of the table share a key, so filling a dictionary
      from it never overwrites an earlier field. */
  lemma KeysDistinct()
    ensures |FieldLabels| == 10
    ensures forall i, j :: 0 <= i < j < |FieldLabels| ==> FieldLabels[i].key != FieldLabels[j].key
  {
  }

  /** Non-current assets have no entry of their own. */
  lemma NoActivoNoCorriente()
    ensures "activo_no_corriente" !in FieldKeys
  {
    forall k | 0 <= k < |FieldLabels| ensures FieldLabels[k].key != "activo_no_corriente" {
      assert FieldLabels[k].key[0] != 'a' || |FieldLabels[k].key| != 19;
    }
  }

  /** Every word of a `\s+`-separated label of the table starts with ASCII
      letters. */
  predicate WordsStartWithLetters(lab: Label)
  {
    lab.Spaced? ==> forall i :: 0 <= i < |lab.words| ==> LetterStart(lab.words[i])
  }

  lemma LiteralLetterStart(s: string)
    requires s != [] && IsAsciiLetter(s[0])
    ensures LetterStart(Literal(s))
  {
  }

  /** No word of the table starts with a class that matches whitespace, so
      the greedy `\s+` between words loses no match (SpacedComplete). */
  lemma TableWordsStartWithLetters()
    ensures forall k, j :: 0 <= k < |FieldLabels| && 0 <= j < |FieldLabels[k].labels| ==>
              WordsStartWithLetters(FieldLabels[k].labels[j])
  {
    LiteralLetterStart("Activo");
    LiteralLetterStart("Corriente");
    LiteralLetterStart("Pasivo");
    LiteralLetterStart("No");
    LiteralLetterStart("Efectivo");
    LiteralLetterStart("y");
    LiteralLetterStart("otros");
    assert LetterStart(Liquidos) by {
      assert Liquidos[0] == ['l'];
    }
    LiteralLetterStart("Patrimonio");
    LiteralLetterStart("Neto");
    LiteralLetterStart("Fondos");
    LiteralLetterStart("Propios");
    LiteralLetterStart("Resultado");
    LiteralLetterStart("antes");
    LiteralLetterStart("de");
    LiteralLetterStart("impuestos");
    LiteralLetterStart("Existencias");
    LiteralLetterStart("Riesgo");
  }

  /** For every `\s+`-separated label of the table, any way of matching its
      later words from `p` ends where `SpacedRest` ends. */
  lemma TableSpacedComplete(text: string, k: nat, j: nat, p: nat, e: nat)
    requires k < |FieldLabels| && j < |FieldLabels[k].labels| && FieldLabels[k].labels[j].Spaced?
    requires p <= |text| && |FieldLabels[k].labels[j].words| > 0
    requires SpacedSplit(text, FieldLabels[k].labels[j].words[1..], p, e)
    ensures SpacedRest(text, FieldLabels[k].labels[j].words[1..], p) == Some(e)
  {
    var ws := FieldLabels[k].labels[j].words;
    TableWordsStartWithLetters();
    assert WordsStartWithLetters(FieldLabels[k].labels[j]);
    assert forall i :: 0 <= i < |ws[1..]| ==> ws[1..][i] == ws[i + 1];
    SpacedComplete(text, ws[1..], p, e);
  }

  // ---------------------------------------------------------------------
  // `_to_decimal`
  // ---------------------------------------------------------------------

  /** Every `.` deleted, then every `,` turned into `.`. */
  function Normalise(s: string): string
  {
    Replace(Delete(s, '.'), ',', '.')
  }

  /** `_to_decimal(num)`: `Decimal(num.strip().replace(".", "").replace(",", "."))`,
      with `None` where `Decimal` raises. */
  function ToDecimal(num: string): Option<Dec>
  {
    ParseLiteral(Normalise(Strip(num)))
  }

  /** How an amount written the Spanish way reads, independently of the
      string operations: the dots are thousands separators and carry no
      value, a single comma separates the whole part from the fraction,
      the digits before it make the integer part and those after it the
      fraction, and there must be a digit somewhere. With two commas the
      numeral means nothing. */
  function SpanishAmount(t: string): Option<Dec>
  {
    var k := IndexOf(t, ',');
    var whole := Digits(t[..k]);
    var fraction := Digits(t[k..]);
    if Count(t, ',') > 1 || whole + fraction == [] then None
    else
      assert AllDigits(whole + fraction);
      Some(Dec(IntOf(whole + fraction), |fraction|))
  }

  /** The characters a normalised token is made of. */
  predicate IsLiteralText(s: string)
  {
    forall k :: 0 <= k < |s| ==> IsDigit(s[k]) || s[k] == '.'
  }

  lemma {:induction false} NormaliseAppend(a: string, b: string)
    ensures Normalise(a + b) == Normalise(a) + Normalise(b)
  {
    DeleteAppend(a, b, '.');
    ReplaceAppend(Delete(a, '.'), Delete(b, '.'), ',', '.');
  }

  lemma NormaliseChar(c: char)
    ensures Normalise([c]) == if c == '.' then [] else if c == ',' then ['.'] else [c]
  {
    assert [c][1..] == [];
    var d := Delete([c], '.');
    assert d == (if c == '.' then [] else [c]) + Delete([], '.');
    assert Replace(d, ',', '.') == if d == [] then [] else [if c == ',' then '.' else c] + Replace(d[1..], ',', '.');
  }

  /** Normalising a token leaves digits and dots; without a comma it leaves
      exactly the token's digits. */
  lemma {:induction false} NormaliseToken(s: string)
    requires IsToken(s)
    ensures IsLiteralText(Normalise(s))
    ensures ',' !in s ==> Normalise(s) == Digits(s)
  {
    if s != [] {
      assert s == [s[0]] + s[1..];
      assert IsToken(s[1..]) by {
        assert forall k :: 0 <= k < |s| - 1 ==> s[1..][k] == s[k + 1];
      }
      NormaliseToken(s[1..]);
      NormaliseAppend([s[0]], s[1..]);
      DigitsAppend([s[0]], s[1..]);
      NormaliseChar(s[0]);
    }
  }

  /** Surrounding whitespace is no concern for digits and dots. */
  lemma LiteralTextUnstripped(s: string)
    requires IsLiteralText(s)
    ensures Strip(s) == s
  {
    StripUnchanged(s);
  }

  /** `Decimal` reads digits, a point and digits as the number they spell. */
  lemma ParseLiteralPoint(whole: string, rest: string)
    requires AllDigits(whole) && IsLiteralText(rest)
    ensures AllDigits(rest) && |whole| + |rest| > 0 ==>
              AllDigits(whole + rest) && ParseLiteral(whole + ['.'] + rest) == Some(Dec(IntOf(whole + rest), |rest|))
    ensures !AllDigits(rest) ==> ParseLiteral(whole + ['.'] + rest) == None
  {
    var s := whole + ['.'] + rest;
    forall k | 0 <= k < |s| ensures IsDigit(s[k]) || s[k] == '.' {
      if k < |whole| {
        assert s[k] == whole[k];
      } else if k > |whole| {
        assert s[k] == rest[k - |whole| - 1];
      }
    }
    LiteralTextUnstripped(s);
    assert '.' !in whole by {
      assert forall k :: 0 <= k < |whole| ==> IsDigit(whole[k]);
    }
    IndexOfAfter(whole, '.', rest);
    assert s[..|whole|] == whole;
    assert s[|whole| + 1..] == rest;
    assert ParseLiteral(s) == ParseUnsigned(s);
  }

  /** `Decimal` reads a string of digits as the whole number it spells. */
  lemma ParseLiteralDigits(s: string)
    requires AllDigits(s)
    ensures ParseLiteral(s) == if s == [] then None else Some(Dec(IntOf(s), 0))
  {
    assert IsLiteralText(s);
    LiteralTextUnstripped(s);
    var i := IndexOf(s, '.');
    assert '.' !in s by {
      assert forall k :: 0 <= k < |s| ==> IsDigit(s[k]);
    }
    assert i == |s|;
    assert s[..i] == s;
    assert s + [] == s;
  }

  /** A token has no whitespace to strip. */
  lemma TokenUnstripped(t: string)
    requires IsToken(t)
    ensures Strip(t) == t
  {
    StripUnchanged(t);
  }

  /** Normalising keeps the digits before the first comma and turns that
      comma into the decimal point. */
  lemma NormaliseAtComma(a: string, b: string)
    requires IsToken(a) && ',' !in a
    ensures Normalise(a + [','] + b) == Digits(a) + ['.'] + Normalise(b)
  {
    NormaliseToken(a);
    NormaliseAppend(a + [','], b);
    NormaliseAppend(a, [',']);
    NormaliseChar(',');
  }

  /** What follows the first comma normalises to digits only when it has
      no second comma. */
  lemma NormaliseRest(b: string)
    requires IsToken(b)
    ensures IsLiteralText(Normalise(b))
    ensures AllDigits(Normalise(b)) <==> ',' !in b
    ensures ',' !in b ==> Normalise(b) == Digits(b)
  {
    NormaliseToken(b);
    if ',' in b {
      var j := IndexOf(b, ',');
      var b1, b2 := b[..j], b[j + 1..];
      assert b == b1 + [','] + b2;
      assert IsToken(b1) by {
        assert forall i :: 0 <= i < |b1| ==> b1[i] == b[i];
      }
      NormaliseAtComma(b1, b2);
      assert Normalise(b)[|Digits(b1)|] == '.';
    }
  }

  /** `_to_decimal` on a token without a comma reads its digits as a whole
      number. */
  lemma ToDecimalNoComma(t: string)
    requires IsToken(t) && ',' !in t
    ensures ToDecimal(t) == if Digits(t) == [] then None else Some(Dec(IntOf(Digits(t)), 0))
  {
    TokenUnstripped(t);
    NormaliseToken(t);
    ParseLiteralDigits(Digits(t));
  }

  /** `_to_decimal` on a token with a comma after `a`: the digits of `a`
      and those after the comma, read with the comma as the point. */
  lemma ToDecimalComma(a: string, b: string)
    requires IsToken(a) && IsToken(b) && ',' !in a
    ensures IsToken(a + [','] + b)
    ensures ',' in b ==> ToDecimal(a + [','] + b) == None
    ensures ',' !in b ==>
      ToDecimal(a + [','] + b)
      == (if Digits(a) + Digits(b) == [] then None
          else assert AllDigits(Digits(a) + Digits(b)); Some(Dec(IntOf(Digits(a) + Digits(b)), |Digits(b)|)))
  {
    TokenWithComma(a, b);
    if ',' in b {
      ToDecimalSecondComma(a, b);
    } else {
      ToDecimalOneComma(a, b);
    }
  }

  lemma ToDecimalSecondComma(a: string, b: string)
    requires IsToken(a) && IsToken(b) && ',' !in a && ',' in b
    ensures ToDecimal(a + [','] + b) == None
  {
    TokenWithComma(a, b);
    ToDecimalAtComma(a, b);
    NormaliseRest(b);
    ParseLiteralPoint(Digits(a), Normalise(b));
  }

  lemma ToDecimalOneComma(a: string, b: string)
    requires IsToken(a) && IsToken(b) && ',' !in a && ',' !in b
    ensures ToDecimal(a + [','] + b)
      == (if Digits(a) + Digits(b) == [] then None
          else assert AllDigits(Digits(a) + Digits(b)); Some(Dec(IntOf(Digits(a) + Digits(b)), |Digits(b)|)))
  {
    TokenWithComma(a, b);
    ToDecimalAtComma(a, b);
    NormaliseRest(b);
    ParseLiteralPoint(Digits(a), Digits(b));
  }

  lemma TokenWithComma(a: string, b: string)
    requires IsToken(a) && IsToken(b)
    ensures IsToken(a + [','] + b)
  {
    var t := a + [','] + b;
    forall i | 0 <= i < |t| ensures IsNumeralChar(t[i]) {
      if i < |a| {
        assert t[i] == a[i];
      } else if i > |a| {
        assert t[i] == b[i - |a| - 1];
      }
    }
  }

  /** With a comma after `a`, `_to_decimal` reads the digits of `a`, a
      point, and what follows the comma normalised. */
  lemma ToDecimalAtComma(a: string, b: string)
    requires IsToken(a + [','] + b) && IsToken(a) && ',' !in a
    ensures ToDecimal(a + [','] + b) == ParseLiteral(Digits(a) + ['.'] + Normalise(b))
  {
    TokenUnstripped(a + [','] + b);
    NormaliseAtComma(a, b);
  }

  /** `_to_decimal` on a captured token reads it as a Spanish amount. */
  lemma ToDecimalToken(t: string)
    requires IsToken(t)
    ensures ToDecimal(t) == SpanishAmount(t)
  {
    var k := IndexOf(t, ',');
    if k == |t| {
      ToDecimalTokenNoComma(t);
    } else {
      var a, b := t[..k], t[k + 1..];
      assert t == a + [','] + b;
      assert IsToken(a) && IsToken(b) by {
        assert forall j :: 0 <= j < |a| ==> a[j] == t[j];
        assert forall j :: 0 <= j < |b| ==> b[j] == t[k + 1 + j];
      }
      SpanishAmountAtComma(a, b);
      ToDecimalComma(a, b);
    }
  }

  lemma ToDecimalTokenNoComma(t: string)
    requires IsToken(t) && IndexOf(t, ',') == |t|
    ensures ToDecimal(t) == SpanishAmount(t)
  {
    SpanishAmountNoComma(t);
    ToDecimalNoComma(t);
  }

  /** The reference reading of an amount without a comma: its digits, as
      a whole number. */
  lemma SpanishAmountNoComma(t: string)
    requires IndexOf(t, ',') == |t|
    ensures ',' !in t
    ensures SpanishAmount(t) == if Digits(t) == [] then None else Some(Dec(IntOf(Digits(t)), 0))
  {
    var k := |t|;
    assert t[..k] == t && t[k..] == [];
    assert Digits([]) == [];
    assert Digits(t) + [] == Digits(t);
    CountZeroIff(t, ',');
  }


  /** The reference reading of an amount with a comma after `a`. */
  lemma SpanishAmountAtComma(a: string, b: string)
    requires ',' !in a
    ensures SpanishAmount(a + [','] + b)
      == if ',' in b || Digits(a) + Digits(b) == [] then None
         else assert AllDigits(Digits(a) + Digits(b)); Some(Dec(IntOf(Digits(a) + Digits(b)), |Digits(b)|))
  {
    var t := a + [','] + b;
    var k := IndexOf(t, ',');
    IndexOfAfter(a, ',', b);
    assert t[..k] == a;
    assert t[k..] == [','] + b;
    DigitsAfterComma(b);
    CountAtComma(a, b);
  }

  /** The comma of `a + [','] + b` adds one to the count of commas in `b`. */
  lemma CountAtComma(a: string, b: string)
    requires ',' !in a
    ensures Count(a + [','] + b, ',') > 1 <==> ',' in b
  {
    CountAppend(a + [','], b, ',');
    CountAppend(a, [','], ',');
    CountZeroIff(a, ',');
    CountZeroIff(b, ',');
  }

  lemma DigitsAfterComma(b: string)
    ensures Digits([','] + b) == Digits(b)
  {
    DigitsAppend([','], b);
    assert Digits([',']) == [];
    assert [] + Digits(b) == Digits(b);
  }



  /** Whether a Spanish amount means anything: a digit somewhere and at
      most one comma. */
  lemma SpanishAmountIff(t: string)
    ensures SpanishAmount(t).Some? <==> Count(t, ',') <= 1 && Digits(t) != []
  {
    var k := IndexOf(t, ',');
    assert t == t[..k] + t[k..];
    DigitsAppend(t[..k], t[k..]);
  }

  /** A token converts exactly when it has a digit and at most one comma:
      a token without a digit (`"."`, `","`) or with two commas
      (`"1,234,56"`) makes `_to_decimal` raise. */
  lemma ToDecimalTokenIff(t: string)
    requires IsToken(t)
    ensures ToDecimal(t).Some? <==> Count(t, ',') <= 1 && Digits(t) != []
  {
    ToDecimalToken(t);
    SpanishAmountIff(t);
  }

  // ---------------------------------------------------------------------
  // Writing an amount the Spanish way
  // ---------------------------------------------------------------------

  function DigitChar(n: nat): (c: char)
    requires n < 10
    ensures IsDigit(c) && DigitValue(c) == n
  {
    ('0' as int + n) as char
  }

  /** The shortest decimal spelling of `n`. */
  function DigitString(n: nat): (s: string)
    ensures s != [] && AllDigits(s) && IntOf(s) == n
  {
    if n < 10 then [DigitChar(n)]
    else
      var s := DigitString(n / 10) + [DigitChar(n % 10)];
      assert s[..|s| - 1] == DigitString(n / 10);
      s
  }

  function Zeros(k: nat): (s: string)
    ensures |s| == k && AllDigits(s) && IntOf(s) == 0
  {
    if k == 0 then []
    else
      var s := Zeros(k - 1) + ['0'];
      assert s[..|s| - 1] == Zeros(k - 1);
      s
  }

  /** `s` with zeros in front up to `k` digits; the number is the same. */
  function Pad(s: string, k: nat): (r: string)
    requires AllDigits(s)
    ensures |r| >= k && |r| >= |s| && AllDigits(r) && IntOf(r) == IntOf(s)
  {
    if |s| >= k then s
    else
      IntOfAppend(Zeros(k - |s|), s);
      Zeros(k - |s|) + s
  }

  /** Digits with a `.` before every group of three counted from the right. */
  function Group(s: string): (r: string)
    requires AllDigits(s)
    ensures IsToken(r) && ',' !in r && Digits(r) == s
    decreases |s|
  {
    if |s| <= 3 then
      DigitsOf(s);
      s
    else
      var a, b := s[..|s| - 3], s[|s| - 3..];
      var g := Group(a);
      DotJoin(g, b);
      assert a + b == s;
      g + ['.'] + b
  }

  /** Joining a grouped token and more digits with a `.` keeps a token
      without a comma, whose digits are the two runs of digits. */
  lemma DotJoin(g: string, b: string)
    requires IsToken(g) && ',' !in g && AllDigits(b)
    ensures IsToken(g + ['.'] + b) && ',' !in g + ['.'] + b && Digits(g + ['.'] + b) == Digits(g) + b
  {
    DotJoinToken(g, b);
    DotJoinDigits(g, b);
  }

  lemma DotJoinToken(g: string, b: string)
    requires IsToken(g) && ',' !in g && AllDigits(b)
    ensures IsToken(g + ['.'] + b) && ',' !in g + ['.'] + b
  {
    var r := g + ['.'] + b;
    forall k | 0 <= k < |r| ensures IsNumeralChar(r[k]) && r[k] != ',' {
      if k < |g| {
        assert r[k] == g[k];
      } else if k > |g| {
        assert r[k] == b[k - |g| - 1];
      }
    }
  }

  lemma DotJoinDigits(g: string, b: string)
    requires AllDigits(b)
    ensures Digits(g + ['.'] + b) == Digits(g) + b
  {
    DigitsAppend(g, ['.']);
    assert Digits(['.']) == [] by {
      assert ['.'][1..] == [];
    }
    assert Digits(g) + [] == Digits(g);
    DigitsAppend(g + ['.'], b);
    DigitsOf(b);
  }


  /** A decimal as it is printed in a Spanish balance sheet: thousands
      groups separated by `.`, and a `,` before the fraction digits when
      there are any (`Dec(123456789, 2)` is `"1.234.567,89"`). */
  function Format(d: Dec): string
  {
    var s := Pad(DigitString(d.coef), d.scale + 1);
    var whole := s[..|s| - d.scale];
    if d.scale > 0 then Group(whole) + [','] + s[|s| - d.scale..] else Group(whole)
  }

  /** Normalising a printed amount gives back the decimal that was printed,
      coefficient and exponent alike. */
  lemma FormatRoundTrip(d: Dec)
    ensures IsToken(Format(d)) && ToDecimal(Format(d)) == Some(d)
  {
    var s := Pad(DigitString(d.coef), d.scale + 1);
    var k := |s| - d.scale;
    var whole, fraction := s[..k], s[k..];
    SplitDigits(s, k);
    var g := Group(whole);
    if d.scale > 0 {
      assert Format(d) == g + [','] + fraction;
      DigitsAreToken(fraction);
      TokenWithComma(g, fraction);
      FormatWithFraction(g, whole, fraction);
    } else {
      assert whole == s && Format(d) == g;
      ToDecimalNoComma(g);
    }
  }

  lemma SplitDigits(s: string, k: nat)
    requires AllDigits(s) && k <= |s|
    ensures AllDigits(s[..k]) && AllDigits(s[k..]) && s[..k] + s[k..] == s
  {
    assert forall i :: 0 <= i < k ==> s[..k][i] == s[i];
    assert forall i :: 0 <= i < |s| - k ==> s[k..][i] == s[k + i];
  }

  lemma DigitsAreToken(s: string)
    requires AllDigits(s)
    ensures IsToken(s) && ',' !in s
  {
    assert forall i :: 0 <= i < |s| ==> IsDigit(s[i]);
  }


  /** A grouped whole part, a comma and fraction digits read back as the
      digits of both with the fraction's length as the scale. */
  lemma FormatWithFraction(g: string, whole: string, fraction: string)
    requires AllDigits(whole) && AllDigits(fraction) && |fraction| > 0
    requires IsToken(g) && ',' !in g && Digits(g) == whole
    ensures AllDigits(whole + fraction)
    ensures ToDecimal(g + [','] + fraction) == Some(Dec(IntOf(whole + fraction), |fraction|))
  {
    DigitsOf(fraction);
    DigitsAreToken(fraction);
    ToDecimalOneComma(g, fraction);
  }

  /** The example of the source's own comment: `"1.234.567,89"` reads as
      1234567.89, with two fraction digits. */
  lemma ToDecimalExample(t: string)
    requires t == "1.234.567,89"
    ensures ToDecimal(t) == Some(Dec(123456789, 2))
    ensures Value(ToDecimal(t).value) == 1234567.89
  {
    var a, b := "1.234.567", "89";
    ExampleSplit(t);
    ExampleWholeDigits();
    DigitsOf(b);
    ExampleDigits();
    ToDecimalComma(a, b);
    ExampleValue();
  }

  lemma ExampleSplit(t: string)
    requires t == "1.234.567,89"
    ensures t == "1.234.567" + [','] + "89"
    ensures IsToken("1.234.567") && IsToken("89") && ',' !in "1.234.567" && ',' !in "89"
  {
  }

  lemma ExampleValue()
    ensures Value(Dec(123456789, 2)) == 1234567.89
  {
    assert Pow10(2) == 100;
  }

  lemma ExampleWholeDigits()
    ensures Digits("1.234.567") == "1234567"
  {
    var p, q, r := "1.", "234.", "567";
    ExampleGroupDigits();
    assert "1.234.567" == p + (q + r);
    DigitsAppend(q, r);
    DigitsAppend(p, q + r);
    assert "1" + ("234" + "567") == "1234567";
  }

  lemma ExampleGroupDigits()
    ensures Digits("1.") == "1" && Digits("234.") == "234" && Digits("567") == "567"
  {
    DigitsOf("1");
    DigitsOf("234");
    DigitsOf("567");
    DigitsAppend("1", ".");
    DigitsAppend("234", ".");
    assert "1" + "." == "1." && "234" + "." == "234.";
    assert Digits(".") == [];
  }

  lemma ExampleDigits()
    ensures IntOf("1234567" + "89") == 123456789
  {
    assert "1234567" + "89" == "123456789";
    ExampleLeadingDigits();
    assert "12345678"[..7] == "1234567";
    assert IntOf("12345678") == 12345678;
    assert "123456789"[..8] == "12345678";
  }

  lemma ExampleLeadingDigits()
    ensures IntOf("1234567") == 1234567
  {
    ExampleFirstDigits();
    assert "12345"[..4] == "1234";
    assert IntOf("12345") == 12345;
    assert "123456"[..5] == "12345";
    assert IntOf("123456") == 123456;
    assert "1234567"[..6] == "123456";
  }

  lemma ExampleFirstDigits()
    ensures IntOf("1234") == 1234
  {
    assert IntOf("1") == 1;
    assert "12"[..1] == "1";
    assert IntOf("12") == 12;
    assert "123"[..2] == "12";
    assert IntOf("123") == 123;
    assert "1234"[..3] == "123";
  }

  // ---------------------------------------------------------------------
  // `extract_values`
  // ---------------------------------------------------------------------

  /** The inner loop over a field's labels: the group of the first label,
      in list order, whose pattern is found anywhere in the text. */
  function FindToken(text: string, labels: seq<Label>): Option<string>
    decreases |labels|
  {
    if labels == [] then None
    else
      match Search(text, labels[0])
      case Some(h) => Some(h.token)
      case None => FindToken(text, labels[1..])
  }

  /** `FindToken` fails exactly when no label is found, and otherwise
      gives the group of a found label before which none is found. */
  lemma {:induction false} FindTokenFirst(text: string, labels: seq<Label>)
    ensures FindToken(text, labels).None? <==> forall k :: 0 <= k < |labels| ==> Search(text, labels[k]).None?
    ensures FindToken(text, labels).Some? ==>
              exists k :: 0 <= k < |labels| && Search(text, labels[k]).Some?
                && FindToken(text, labels).value == Search(text, labels[k]).value.token
                && forall j :: 0 <= j < k ==> Search(text, labels[j]).None?
  {
    if labels != [] && Search(text, labels[0]).None? {
      FindTokenFirst(text, labels[1..]);
      assert forall k :: 1 <= k < |labels| ==> labels[k] == labels[1..][k - 1];
      if FindToken(text, labels).Some? {
        var k :| 0 <= k < |labels[1..]| && Search(text, labels[1..][k]).Some?
                  && FindToken(text, labels).value == Search(text, labels[1..][k]).value.token
                  && forall j :: 0 <= j < k ==> Search(text, labels[1..][j]).None?;
        assert Search(text, labels[k + 1]).Some?;
      }
    }
  }

  /** Label priority: a label that is found decides the field as soon as
      every label before it is not found, whatever the labels after it
      would find, and wherever in the text they would find it. */
  lemma FirstLabelWins(text: string, labels: seq<Label>, k: nat)
    requires k < |labels| && Search(text, labels[k]).Some?
    requires forall j :: 0 <= j < k ==> Search(text, labels[j]).None?
    ensures FindToken(text, labels) == Some(Search(text, labels[k]).value.token)
  {
    FindTokenFirst(text, labels);
    var r := FindToken(text, labels);
    var i :| 0 <= i < |labels| && Search(text, labels[i]).Some?
               && r.value == Search(text, labels[i]).value.token
               && forall j :: 0 <= j < i ==> Search(text, labels[j]).None?;
  }

  /** The second label of `inversiones_cp` never decides the field: any
      line it matches, the first label matches too, so it is only tried
      when it cannot succeed. */
  lemma SecondInversionesLabelRedundant(text: string)
    ensures FindToken(text, [InversionesCp, InversionesGrupoCp]) == FindToken(text, [InversionesCp])
  {
    GrupoCpImpliesCp(text);
    FindTokenFirst(text, [InversionesCp, InversionesGrupoCp]);
    FindTokenFirst(text, [InversionesCp]);
    if Search(text, InversionesCp).Some? {
      FirstLabelWins(text, [InversionesCp, InversionesGrupoCp], 0);
      FirstLabelWins(text, [InversionesCp], 0);
    }
  }

  /** Every text in which `Inversiones.*?grupo.*?C\/P` is found with an
      amount after it has `Inversiones.*?C\/P` found too. */
  lemma GrupoCpImpliesCp(text: string)
    ensures Search(text, InversionesGrupoCp).Some? ==> Search(text, InversionesCp).Some?
  {
    if Search(text, InversionesGrupoCp).Some? {
      var first, w, rest := Literal("Inversiones"), Literal("grupo"), [Literal("C/P")];
      assert InversionesGrupoCp == Lazy([first, w] + rest);
      assert InversionesCp == Lazy([first] + rest);
      assert NewlineFree(w);
      SearchDropPart(text, first, w, rest);
    }
  }

  /** A label with no amount after it is passed over, not an error: in
      `"Riesgo N/A Riesgo 7"` the search goes on from the first `Riesgo`,
      after which no numeral follows, to the second. */
  lemma RiesgoWithoutAmountSkipped(text: string)
    requires text == "Riesgo N/A Riesgo 7"
    ensures Search(text, RiesgoLabel) == Some(Hit(11, "7"))
  {
    forall j | 0 <= j < 11 ensures MatchAt(text, RiesgoLabel, j).None? {
      if j == 0 {
        RiesgoFirstWithoutAmount(text);
      } else {
        RiesgoNotAt(text, j);
      }
    }
    RiesgoSecondWithAmount(text);
  }

  /** A negative amount after a colon is not found at all: in
      `"Riesgo: -5"` the colon is the separator and the group cannot start
      on the `-`, so the field is missing. */
  lemma NegativeAfterColonMissing(text: string)
    requires text == "Riesgo: -5"
    ensures Search(text, RiesgoLabel).None?
  {
    forall j | 0 <= j <= |text| ensures MatchAt(text, RiesgoLabel, j).None? {
      if j == 0 {
        NegativeFirstBlocked(text);
      } else {
        NegativeNotAt(text, j);
      }
    }
  }

  /** The example the table gives for `inversiones_cp`,
      `"Inversiones grupo C/P = 123.456,78"`, is found by neither of its
      labels: `=` is not a separator, so no group can start after `C/P`, and
      there is no later `C/P` for the lazy gaps to reach. The field, and with
      it the whole extraction, is missing. */
  lemma CommentExampleNotFound(text: string)
    requires text == "Inversiones grupo C/P = 123.456,78"
    ensures Search(text, InversionesCp).None?
    ensures Search(text, InversionesGrupoCp).None?
    ensures FindToken(text, FieldLabels[8].labels).None?
  {
    CommentCpAt0(text);
    CommentGrupoAt0(text);
    forall j | 0 < j <= |text|
      ensures MatchAt(text, InversionesCp, j).None? && MatchAt(text, InversionesGrupoCp, j).None?
    {
      CommentNotAt(text, j);
    }
    assert FieldLabels[8].labels == [InversionesCp, InversionesGrupoCp];
    FindTokenFirst(text, FieldLabels[8].labels);
  }

  /** The only `C/P` of the example is followed by `" = "`, where the tail
      finds no group. */
  lemma CommentNoCp(text: string)
    requires text == "Inversiones grupo C/P = 123.456,78"
    ensures forall h :: 11 <= h <= |text| ==> !Fits(text, Literal("C/P"), [], h)
  {
    var w := Literal("C/P");
    forall h | 11 <= h <= |text| ensures !Fits(text, w, [], h) {
      if h == 18 {
        CommentNoGroupAfterCp(text);
      } else if h + 3 <= |text| {
        assert !ClassHas(w[0], text[h]);
      }
    }
  }

  /** After the `C/P` of the example comes `" = "`, on which no group starts. */
  lemma CommentNoGroupAfterCp(text: string)
    requires text == "Inversiones grupo C/P = 123.456,78"
    ensures Tail(text, 21).None?
  {
    assert SkipSpace(text, 21) == 22 && SkipSpace(text, 22) == 22;
    assert NumeralStart(text, 21) == 22;
    assert NumeralEnd(text, 22) == 22;
  }

  lemma CommentCpAt0(text: string)
    requires text == "Inversiones grupo C/P = 123.456,78"
    ensures MatchAt(text, InversionesCp, 0).None?
  {
    CommentNoCp(text);
    assert InversionesCp.parts[1..] == [Literal("C/P")];
    assert [Literal("C/P")][1..] == [];
    assert LeastGap(text, Literal("C/P"), [], 11).None?;
  }

  lemma CommentGrupoAt0(text: string)
    requires text == "Inversiones grupo C/P = 123.456,78"
    ensures MatchAt(text, InversionesGrupoCp, 0).None?
  {
    CommentNoCp(text);
    var cp, grupo := Literal("C/P"), Literal("grupo");
    assert [cp][1..] == [];
    assert forall q :: 11 <= q <= |text| ==> LazyRest(text, [cp], q).None?;
    assert InversionesGrupoCp.parts[1..] == [grupo, cp];
    assert [grupo, cp][1..] == [cp];
    forall h | 11 <= h <= |text| ensures !Fits(text, grupo, [cp], h) {
      if WordAt(text, grupo, h) {
        assert h + 5 >= 11;
      }
    }
    assert LeastGap(text, grupo, [cp], 11).None?;
  }

  /** `Inversiones` occurs only at the start of the example. */
  lemma CommentNotAt(text: string, j: nat)
    requires text == "Inversiones grupo C/P = 123.456,78" && 0 < j <= |text|
    ensures MatchAt(text, InversionesCp, j).None?
    ensures MatchAt(text, InversionesGrupoCp, j).None?
  {
    var w := Literal("Inversiones");
    assert InversionesCp.parts[0] == w && InversionesGrupoCp.parts[0] == w;
    if j + 11 <= |text| {
      if j == 6 {
        assert !ClassHas(w[1], text[7]);
      } else {
        assert !ClassHas(w[0], text[j]);
      }
    }
  }

  lemma NegativeFirstBlocked(text: string)
    requires text == "Riesgo: -5"
    ensures MatchAt(text, RiesgoLabel, 0).None?
  {
    assert RiesgoLabel.words[1..] == [];
    assert text[6..6] == [] && text[7..8] == [' '];
    SignAfterSeparatorBlocks(text, 6, 6, 8);
  }

  lemma NegativeNotAt(text: string, j: nat)
    requires text == "Riesgo: -5" && 0 < j <= |text|
    ensures MatchAt(text, RiesgoLabel, j).None?
  {
    var w := Literal("Riesgo");
    if j + 6 <= |text| {
      assert !ClassHas(w[0], text[j]);
    }
  }

  lemma RiesgoFirstWithoutAmount(text: string)
    requires text == "Riesgo N/A Riesgo 7"
    ensures MatchAt(text, RiesgoLabel, 0).None?
  {
    assert RiesgoLabel.words[1..] == [];
    assert SkipSpace(text, 6) == 7;
    assert NumeralEnd(text, 7) == 7;
  }

  lemma RiesgoNotAt(text: string, j: nat)
    requires text == "Riesgo N/A Riesgo 7" && 0 < j < 11
    ensures MatchAt(text, RiesgoLabel, j).None?
  {
    var w := Literal("Riesgo");
    assert !ClassHas(w[0], text[j]);
  }

  lemma RiesgoSecondWithAmount(text: string)
    requires text == "Riesgo N/A Riesgo 7"
    ensures MatchAt(text, RiesgoLabel, 11) == Some("7")
  {
    var w := Literal("Riesgo");
    assert |text| == 19;
    forall k | 0 <= k < 6 ensures ClassHas(w[k], text[11 + k]) {
      assert w[k][0] == text[11 + k];
    }
    assert WordAt(text, w, 11);
    assert RiesgoLabel.words[1..] == [];
    assert text[17] == ' ' && text[18] == '7';
    assert SkipSpace(text, 18) == 18;
    assert SkipSpace(text, 17) == 18;
    assert NumeralStart(text, 17) == 18;
    assert text[18..19] == "7";
  }

  /** A field's amount: the token its labels find, converted; `None` when
      no label is found or the token does not convert. */
  function FieldValue(text: string, field: FieldSpec): Option<Dec>
  {
    match FindToken(text, field.labels)
    case None => None
    case Some(t) => ToDecimal(t)
  }

  /** Every field's amount in `text`. */
  function FieldValues(text: string): FieldSpec -> Option<Dec>
  {
    field => FieldValue(text, field)
  }

  /** The dictionary filled by the outer loop over `fields`, where `value`
      gives each field's amount, or `None` as soon as one of them fails. */
  function Collect(value: FieldSpec -> Option<Dec>, fields: seq<FieldSpec>): Option<map<string, Dec>>
    decreases |fields|
  {
    if fields == [] then Some(map[])
    else
      var init, last := fields[..|fields| - 1], fields[|fields| - 1];
      match Collect(value, init)
      case None => None
      case Some(m) =>
        match value(last)
        case None => None
        case Some(v) => Some(m[last.key := v])
  }

  /** The dictionary exists exactly when every field's amount does, and
      then has exactly the fields' keys. */
  lemma {:induction false} CollectMeaning(value: FieldSpec -> Option<Dec>, fields: seq<FieldSpec>)
    ensures Collect(value, fields).Some? <==> forall k :: 0 <= k < |fields| ==> value(fields[k]).Some?
    ensures Collect(value, fields).Some? ==> Collect(value, fields).value.Keys == Keys(fields)
    decreases |fields|
  {
    if fields != [] {
      var init, last := fields[..|fields| - 1], fields[|fields| - 1];
      CollectMeaning(value, init);
      assert forall k :: 0 <= k < |init| ==> init[k] == fields[k];
      assert Keys(fields) == Keys(init) + {last.key};
    }
  }

  function Extract(text: string): map<string, Dec>
  {
    match Collect(FieldValues(text), FieldLabels)
    case Some(m) => m
    case None => map[]
  }

  /** The dictionary is never partial: it has all ten keys when every
      field is found and converts, and none otherwise. */
  lemma ExtractAllOrNothing(text: string)
    ensures Extract(text) == map[] || Extract(text).Keys == FieldKeys
    ensures Extract(text) != map[] <==> forall k :: 0 <= k < |FieldLabels| ==> FieldValue(text, FieldLabels[k]).Some?
  {
    var value := FieldValues(text);
    CollectMeaning(value, FieldLabels);
    assert forall k :: 0 <= k < |FieldLabels| ==> value(FieldLabels[k]) == FieldValue(text, FieldLabels[k]);
    assert FieldLabels[0].key in FieldKeys;
  }

  /** In a dictionary filled from entries with distinct keys, each key
      holds its own field's amount. */
  lemma {:induction false} CollectValues(value: FieldSpec -> Option<Dec>, fields: seq<FieldSpec>)
    requires forall i, j :: 0 <= i < j < |fields| ==> fields[i].key != fields[j].key
    requires Collect(value, fields).Some?
    ensures forall k :: 0 <= k < |fields| ==>
              fields[k].key in Collect(value, fields).value
              && value(fields[k]) == Some(Collect(value, fields).value[fields[k].key])
    decreases |fields|
  {
    if fields != [] {
      var init, last := fields[..|fields| - 1], fields[|fields| - 1];
      assert forall k :: 0 <= k < |init| ==> init[k] == fields[k];
      CollectValues(value, init);
    }
  }

  /** Each key of a non-empty result holds the amount of its field. */
  lemma ExtractValue(text: string, k: nat)
    requires k < |FieldLabels| && Extract(text) != map[]
    ensures FieldLabels[k].key in Extract(text)
    ensures FieldValue(text, FieldLabels[k]) == Some(Extract(text)[FieldLabels[k].key])
  {
    var value := FieldValues(text);
    CollectMeaning(value, FieldLabels);
    KeysDistinct();
    CollectValues(value, FieldLabels);
    assert value(FieldLabels[k]) == FieldValue(text, FieldLabels[k]);
  }

  /** A field none of whose labels is found empties the result, whatever
      the other fields hold. */
  lemma MissingFieldEmpties(text: string, k: nat)
    requires k < |FieldLabels| && FindToken(text, FieldLabels[k].labels).None?
    ensures Extract(text) == map[]
  {
    ExtractAllOrNothing(text);
  }

  /** So does a token that `_to_decimal` rejects: one without a digit or
      with more than one comma. */
  lemma BadTokenEmpties(text: string, k: nat, t: string)
    requires k < |FieldLabels| && FindToken(text, FieldLabels[k].labels) == Some(t)
    requires Count(t, ',') > 1 || Digits(t) == []
    ensures Extract(text) == map[]
  {
    var labels := FieldLabels[k].labels;
    FindTokenFirst(text, labels);
    var i :| 0 <= i < |labels| && Search(text, labels[i]).Some? && t == Search(text, labels[i]).value.token;
    assert IsToken(t);
    ToDecimalTokenIff(t);
    ExtractAllOrNothing(text);
  }

  /** Non-current assets are never in the result: `raw.get` of them always
      falls back to its default. */
  lemma ExtractNoActivoNoCorriente(text: string)
    ensures "activo_no_corriente" !in Extract(text)
  {
    ExtractAllOrNothing(text);
    NoActivoNoCorriente();
  }

  lemma CollectPrefixFails(value: FieldSpec -> Option<Dec>, fields: seq<FieldSpec>, i: nat)
    requires i <= |fields| && Collect(value, fields[..i]).None?
    ensures Collect(value, fields).None?
  {
    CollectMeaning(value, fields[..i]);
    CollectMeaning(value, fields);
    var k :| 0 <= k < i && value(fields[..i][k]).None?;
    assert fields[..i][k] == fields[k];
  }

  /** One more field that converts extends the dictionary by its key. */
  lemma CollectStep(value: FieldSpec -> Option<Dec>, fields: seq<FieldSpec>, i: nat, m: map<string, Dec>, v: Dec)
    requires i < |fields| && Collect(value, fields[..i]) == Some(m) && value(fields[i]) == Some(v)
    ensures Collect(value, fields[..i + 1]) == Some(m[fields[i].key := v])
  {
    assert fields[..i + 1][..i] == fields[..i];
  }

  /** The inner loop of `extract_values`: the labels in list order, until
      one of them is found. */
  method FindFirst(text: string, labels: seq<Label>) returns (found: Option<string>)
    ensures found == FindToken(text, labels)
  {
    found := None;
    var j := 0;
    while j < |labels|
      invariant j <= |labels|
      invariant FindToken(text, labels) == FindToken(text, labels[j..])
    {
      var m := Search(text, labels[j]);
      if m.Some? {
        found := Some(m.value.token);
        assert labels[j..][0] == labels[j];
        return;
      }
      assert labels[j..][1..] == labels[j + 1..];
      j := j + 1;
    }
  }

  /** The loops of `extract_values` over a field table: fields in table
      order, each field's labels in list order until one is found, with an
      early empty result when a field is missing or its token does not
      convert. */
  method ExtractFields(fields: seq<FieldSpec>, text: string) returns (out: map<string, Dec>)
    ensures out == match Collect(FieldValues(text), fields) case Some(m) => m case None => map[]
  {
    out := map[];
    for i := 0 to |fields|
      invariant Collect(FieldValues(text), fields[..i]) == Some(out)
    {
      var field := fields[i];
      var found := FindFirst(text, field.labels);
      if found.None? {
        CollectPrefixFails(FieldValues(text), fields, i + 1);
        return map[];
      }
      var value := ToDecimal(found.value);
      assert FieldValues(text)(fields[i]) == value;
      if value.None? {
        CollectPrefixFails(FieldValues(text), fields, i + 1);
        return map[];
      }
      CollectStep(FieldValues(text), fields, i, out, value.value);
      out := out[field.key := value.value];
    }
    assert fields[..|fields|] == fields;
  }

  /** `extract_values(text)` over the field table. */
  method ExtractValues(text: string) returns (out: map<string, Dec>)
    ensures out == Extract(text)
  {
    out := ExtractFields(FieldLabels, text);
  }

}
