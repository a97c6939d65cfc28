/**
 * Precision and currency of numeric attributes: a float field with a scale
 * gets an XML Schema type `TDec_16dd` naming 16 digits of precision and
 * `dd` of scale, and `_extract_number_attrs` reads that name back into
 * Odoo's `digits`, or marks monetary amounts with a currency field. Also the
 * model a generated class inherits from.
 */
module Numbers {
  import opened Wrappers
  import opened Text
  import opened Fields

  /** The `TDec_` type name for a scale of `d` digits, the scale padded to two digits. */
  function TDecTypeName(d: nat): (t: string)
    ensures StartsWith(t, "TDec_16")
    ensures d < 100 ==> |t| == 9 && t == "TDec_16" + [DigitChar(d / 10), DigitChar(d % 10)]
  {
    if d < 10 then "TDec_160" + DecimalString(d)
    else
      assert d < 100 ==> DecimalString(d) == DecimalString(d / 10) + [DigitChar(d % 10)];
      "TDec_16" + DecimalString(d)
  }

  /** The decimal string of a two-digit number has two digits. */
  lemma DecimalStringTwoDigits(d: nat)
    requires 10 <= d < 100
    ensures |DecimalString(d)| == 2
  {
    assert DecimalString(d) == DecimalString(d / 10) + [DigitChar(d % 10)];
  }

  /** The precision slice `[5:7]` of a `TDec_16` name is `16`. */
  lemma TDecPrecisionSlice(d: nat)
    requires d < 100
    ensures PyInt(PySlice(TDecTypeName(d), 5, 7)) == Some(16)
  {
    var p := PySlice(TDecTypeName(d), 5, 7);
    assert p == "16";
    PyIntTwoDigits(p);
  }

  /** The scale slice `[7:9]` of the name of a scale below 100 reads as that scale. */
  lemma TDecScaleSlice(d: nat)
    requires d < 100
    ensures PyInt(PySlice(TDecTypeName(d), 7, 9)) == Some(d)
  {
    var t := TDecTypeName(d);
    if d < 10 {
      var q := ['0', DigitChar(d)];
      assert t == "TDec_160" + [DigitChar(d)];
      assert PySlice(t, 7, 9) == q;
      PyIntTwoDigits(q);
    } else {
      DecimalStringTwoDigits(d);
      assert PySlice(t, 7, 9) == DecimalString(d);
      PyIntDecimalString(d);
    }
  }

  /**
   * The round trip between the two methods: for a scale below 100 the name
   * is nine characters long, and its slices `[5:7]` and `[7:9]` read as 16
   * and as the scale.
   */
  lemma TDecRoundTrip(d: nat)
    requires d < 100
    ensures var t := TDecTypeName(d);
      && |t| == 9 && StartsWith(t, "TDec_")
      && PyInt(PySlice(t, 5, 7)) == Some(16)
      && PyInt(PySlice(t, 7, 9)) == Some(d)
  {
    TDecPrecisionSlice(d);
    TDecScaleSlice(d);
    assert StartsWith(TDecTypeName(d), "TDec_16");
  }

  /** A scale of 100 or more does not survive: 100 reads back as 10. */
  lemma TDecWideScaleTruncated()
    ensures PyInt(PySlice(TDecTypeName(100), 7, 9)) == Some(10)
  {
    var t := TDecTypeName(100);
    assert DecimalString(100) == DecimalString(10) + ['0'];
    assert DecimalString(10) == "10";
    var q := PySlice(t, 7, 9);
    assert q == "10";
    PyIntTwoDigits(q);
  }

  /**
   * The `xsd_type` keyword the simple-type branch of
   * `_extract_field_attributes` gives a field (`""` when it sets none): the
   * field's own `xsd_type` column, replaced by a `TDec_` name for a float
   * field with a scale.
   */
  function FieldXsdType(f: Field, datatypeCode: string): (t: string)
    ensures datatypeCode == "float" && f.decimal.Some? ==> t == TDecTypeName(f.decimal.value)
    ensures datatypeCode != "float" || f.decimal.None? ==> t == f.xsdType
    ensures datatypeCode == "float" && f.decimal.Some? && f.decimal.value < 100 ==>
      PyInt(PySlice(t, 5, 7)) == Some(16) && PyInt(PySlice(t, 7, 9)) == f.decimal
  {
    if datatypeCode == "float" && f.decimal.Some? then
      var d := f.decimal.value;
      if d < 100 then TDecRoundTrip(d); TDecTypeName(d) else TDecTypeName(d)
    else f.xsdType
  }

  /** Amount fields: codes starting with `VL_`, `VAL_` or `VALOR`. */
  predicate IsCurrencyName(name: string) {
    StartsWith(name, "VL_") || StartsWith(name, "VAL_") || StartsWith(name, "VALOR")
  }

  /** The datatype codes `_extract_number_attrs` acts on. */
  predicate IsNumeric(pythonType: string) {
    pythonType == "float" || pythonType == "decimal" || pythonType == "integer"
  }

  /** What one call of `_extract_number_attrs` does to the keyword arguments. */
  datatype NumberEffect =
    | Unchanged
    | SetDigits(precision: int, scale: int)
    | SetCurrency
    | ValueError

  /**
   * The decision of `_extract_number_attrs`, in the order the source
   * evaluates it: the scale `[7:9]` is read first, the precision `[5:7]`
   * only when `digits` is set, and a slice that is not an integer stops the
   * call with a `ValueError` before anything is written.
   */
  function NumberAttrsEffect(pythonType: string, name: string, xsdType: string): NumberEffect
  {
    if !IsNumeric(pythonType) then Unchanged
    else if StartsWith(xsdType, "TDec_") then
      match PyInt(PySlice(xsdType, 7, 9))
      case None => ValueError
      case Some(scale) =>
        if scale != 2 || !IsCurrencyName(name) then
          match PyInt(PySlice(xsdType, 5, 7))
          case None => ValueError
          case Some(precision) => SetDigits(precision, scale)
        else SetCurrency
    else if IsCurrencyName(name) then SetCurrency
    else Unchanged
  }

  /**
   * The rules of `_extract_number_attrs`: only numeric attributes are
   * touched; `currency_field` is set exactly for a numeric amount field with
   * no `TDec_` type or one of scale 2; `digits` exactly for any other numeric
   * attribute whose `TDec_` slices read as integers, with those integers; and
   * without a `TDec_` type nothing can go wrong.
   */
  lemma NumberAttrsRules(pythonType: string, name: string, xsdType: string)
    ensures var e := NumberAttrsEffect(pythonType, name, xsdType);
      var scale, precision := PyInt(PySlice(xsdType, 7, 9)), PyInt(PySlice(xsdType, 5, 7));
      && (!IsNumeric(pythonType) ==> e == Unchanged)
      && (!StartsWith(xsdType, "TDec_") ==> !e.ValueError? && !e.SetDigits?)
      && (e == SetCurrency <==> (IsNumeric(pythonType) && IsCurrencyName(name) &&
           (!StartsWith(xsdType, "TDec_") || scale == Some(2))))
      && (e.SetDigits? <==> (IsNumeric(pythonType) && StartsWith(xsdType, "TDec_") &&
           scale.Some? && precision.Some? && !(scale.value == 2 && IsCurrencyName(name))))
      && (e.SetDigits? ==> Some(e.precision) == precision && Some(e.scale) == scale)
      && (e.ValueError? <==> (IsNumeric(pythonType) && StartsWith(xsdType, "TDec_") &&
           (scale.None? || (precision.None? && !(scale.value == 2 && IsCurrencyName(name))))))
  {
  }

  /** The keyword values the number rules read and write. */
  datatype KwValue = StrValue(text: string) | Digits(precision: int, scale: int)

  /** `kwargs.get("xsd_type", "")` */
  function XsdTypeIn(entries: map<string, KwValue>): string {
    if "xsd_type" in entries && entries["xsd_type"].StrValue? then entries["xsd_type"].text else ""
  }

  /** The keyword arguments after an effect. */
  function ApplyEffect(entries: map<string, KwValue>, e: NumberEffect): (r: map<string, KwValue>)
    ensures forall k :: k != "digits" && k != "currency_field" ==>
      (k in r <==> k in entries) && (k in entries ==> r[k] == entries[k])
    ensures e.SetDigits? ==> "digits" in r && r["digits"] == Digits(e.precision, e.scale)
    ensures e.SetCurrency? ==> "currency_field" in r && r["currency_field"] == StrValue("brl_currency_id")
    ensures !e.SetDigits? && !e.SetCurrency? ==> r == entries
  {
    match e
    case SetDigits(p, s) => entries["digits" := Digits(p, s)]
    case SetCurrency => entries["currency_field" := StrValue("brl_currency_id")]
    case _ => entries
  }

  /** A call never leaves both keys where neither was before. */
  lemma NeverBoth(pythonType: string, name: string, entries: map<string, KwValue>)
    requires "digits" !in entries && "currency_field" !in entries
    ensures var r := ApplyEffect(entries, NumberAttrsEffect(pythonType, name, XsdTypeIn(entries)));
      !("digits" in r && "currency_field" in r)
  {
  }

  /** The keyword arguments of one attribute, which the number rules update in place. */
  class FieldKwargs {
    var entries: map<string, KwValue>

    constructor (initial: map<string, KwValue>)
      ensures entries == initial
    {
      entries := initial;
    }

    /**
     * `_extract_number_attrs`; `raised` reports the `ValueError` of `int()`
     * on a malformed `TDec_` name, in which case nothing is written.
     */
    method ExtractNumberAttrs(pythonType: string, name: string) returns (raised: bool)
      modifies this
      ensures var e := NumberAttrsEffect(pythonType, name, XsdTypeIn(old(entries)));
        raised == e.ValueError? && entries == ApplyEffect(old(entries), e)
    {
      raised := false;
      ghost var e := NumberAttrsEffect(pythonType, name, XsdTypeIn(entries));
      if IsNumeric(pythonType) {
        var xsdType := XsdTypeIn(entries);
        if StartsWith(xsdType, "TDec_") {
          var scale := PyInt(PySlice(xsdType, 7, 9));
          if scale.None? {
            raised := true;
            return;
          }
          if scale.value != 2 || !IsCurrencyName(name) {
            var precision := PyInt(PySlice(xsdType, 5, 7));
            if precision.None? {
              raised := true;
              return;
            }
            assert e == SetDigits(precision.value, scale.value);
            entries := entries["digits" := Digits(precision.value, scale.value)];
          } else {
            assert e == SetCurrency;
            entries := entries["currency_field" := StrValue("brl_currency_id")];
          }
        } else if IsCurrencyName(name) {
          assert e == SetCurrency;
          entries := entries["currency_field" := StrValue("brl_currency_id")];
        }
      }
    }
  }

  /**
   * The keyword arguments the simple-type branch of
   * `_extract_field_attributes` hands on to the number rules: the `xsd_type`
   * only, when there is one.
   */
  function SimpleTypeKwargs(f: Field, datatypeCode: string): (m: map<string, KwValue>)
    ensures XsdTypeIn(m) == FieldXsdType(f, datatypeCode)
    ensures "digits" !in m && "currency_field" !in m
  {
    var t := FieldXsdType(f, datatypeCode);
    if t == "" then map[] else map["xsd_type" := StrValue(t)]
  }

  /**
   * The precision round trip for a float field with a scale below 100:
   * the generated attribute gets `digits == (16, scale)`, unless it is an
   * amount field of scale 2, which gets the currency field instead.
   */
  lemma FloatFieldPrecision(f: Field)
    requires InferKind(f) == Float && f.decimal.Some? && f.decimal.value < 100
    ensures var d := f.decimal.value;
      var code := DatatypeCode(InferKind(f));
      NumberAttrsEffect(code, f.code, XsdTypeIn(SimpleTypeKwargs(f, code))) ==
        if d == 2 && IsCurrencyName(f.code) then SetCurrency else SetDigits(16, d)
  {
    TDecRoundTrip(f.decimal.value);
  }

  /**
   * `odoo_inherit_model`: the declaration register's class inherits the
   * declaration model, every other class the module's mixin. For the class
   * `Registro<code>` of a four-character code that is the case exactly for
   * `0000`.
   */
  function InheritModel(className: string, mod: string): (m: string)
    ensures Contains(className, "0000") ==> m == "l10n_br_sped.declaration"
    ensures !Contains(className, "0000") ==> m == "l10n_br_sped.mixin." + mod
    ensures |className| == 12 && className[..8] == "Registro" ==>
      (m == "l10n_br_sped.declaration" <==> className[8..] == "0000")
  {
    var mixin := "l10n_br_sped.mixin." + mod;
    assert mixin[13] != "l10n_br_sped.declaration"[13];
    var m := if Contains(className, "0000") then "l10n_br_sped.declaration" else mixin;
    if |className| == 12 && className[..8] == "Registro" then
      assert className == "Registro" + className[8..];
      RegisterNameContains(className[8..]);
      m
    else m
  }

  /** The name of a register class contains `0000` only for the code `0000`. */
  lemma RegisterNameContains(code: string)
    requires |code| == 4
    ensures Contains("Registro" + code, "0000") <==> code == "0000"
  {
    var name := "Registro" + code;
    if code == "0000" {
      assert StartsWith(name[8..], "0000");
    } else {
      forall i | 0 <= i <= |name| ensures !StartsWith(name[i..], "0000") {
        if i < 8 {
          assert name[i] == "Registro"[i];
        } else if i == 8 {
          assert name[i..] == code;
        }
      }
    }
  }
}
