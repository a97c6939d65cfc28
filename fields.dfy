/**
 * The fields of a register as `main` turns them into attributes: duplicate
 * field codes within a register are made unique by appending the field's
 * line index, then each field except the fixed `REG` field gets an XML
 * Schema type chosen from its code prefix and its `type`/`decimal` columns,
 * and a `min_occurs` taken from its `required` column.
 */
module Fields {
  import opened Wrappers
  import opened Text

  /**
   * One row of the field table. `fieldType` and `xsdType` are `""` when the
   * column is missing or empty; `decimal` is the number in the `decimal`
   * column when that column holds one; `required` is the column's truth value.
   */
  datatype Field = Field(
    register: string,
    code: string,
    index: string,
    fieldType: string,
    decimal: Option<nat>,
    required: bool,
    xsdType: string)

  /** The fields of register `reg`, in table order. */
  function RegisterFields(reg: string, fs: seq<Field>): (r: seq<Field>)
    ensures |r| <= |fs|
  {
    if fs == [] then []
    else
      var rest := RegisterFields(reg, fs[1..]);
      if fs[0].register == reg then [fs[0]] + rest else rest
  }

  /**
   * The filter works field by field: filtering a concatenation concatenates
   * the filtered parts, and a single field is kept iff it names the register.
   * Together these fix the result: the register's fields, each as often as
   * it occurs, in table order.
   */
  lemma {:induction false} RegisterFieldsAppend(reg: string, a: seq<Field>, b: seq<Field>)
    ensures RegisterFields(reg, a + b) == RegisterFields(reg, a) + RegisterFields(reg, b)
  {
    if a != [] {
      var t := a[1..];
      assert (a + b)[1..] == t + b && (a + b)[0] == a[0];
      RegisterFieldsAppend(reg, t, b);
    } else {
      assert a + b == b;
    }
  }

  lemma RegisterFieldsSingle(reg: string, f: Field)
    ensures RegisterFields(reg, [f]) == if f.register == reg then [f] else []
  {
    assert [f][1..] == [];
  }

  /** The register's fields are exactly the fields that name it. */
  lemma {:induction false} RegisterFieldsMembers(reg: string, fs: seq<Field>)
    ensures forall f :: f in RegisterFields(reg, fs) <==> f in fs && f.register == reg
  {
    if fs != [] {
      RegisterFieldsMembers(reg, fs[1..]);
      assert fs == [fs[0]] + fs[1..];
    }
  }

  /** The field with its line index appended to its code. */
  function Renamed(f: Field): (g: Field)
    ensures g.code != f.code && g.(code := f.code) == f
  {
    f.(code := f.code + "_INDEX_" + f.index)
  }

  /** The set of codes of a list of fields. */
  function Codes(fs: seq<Field>): set<string> {
    set k | 0 <= k < |fs| :: fs[k].code
  }

  /** One step of the de-duplication: rename `f` when its code is already taken. */
  function DedupStep(taken: seq<Field>, f: Field): Field {
    if f.code in Codes(taken) then Renamed(f) else f
  }

  /** The de-duplicated list, each field checked against the output so far. */
  function Dedup(fs: seq<Field>): (r: seq<Field>)
    ensures |r| == |fs|
  {
    if fs == [] then []
    else
      var prev := Dedup(fs[..|fs| - 1]);
      prev + [DedupStep(prev, fs[|fs| - 1])]
  }

  lemma CodesAppend(fs: seq<Field>, f: Field)
    ensures Codes(fs + [f]) == Codes(fs) + {f.code}
  {
    var s := fs + [f];
    assert forall k :: 0 <= k < |fs| ==> s[k] == fs[k];
    assert s[|fs|] == f;
  }

  /**
   * The loop of `main` that makes a register's field codes unique: it returns
   * the renamed fields and the set of codes it has seen.
   */
  method DedupFieldCodes(fields: seq<Field>) returns (out: seq<Field>, unique: set<string>)
    ensures out == Dedup(fields)
    ensures unique == Codes(out)
  {
    unique := {};
    out := [];
    for i := 0 to |fields|
      invariant out == Dedup(fields[..i])
      invariant unique == Codes(out)
    {
      var field := fields[i];
      if field.code !in unique {
        unique := unique + {field.code};
      } else {
        field := Renamed(field);
        unique := unique + {field.code};
      }
      CodesAppend(out, field);
      assert fields[..i + 1][..i] == fields[..i];
      out := out + [field];
    }
    assert fields[..|fields|] == fields;
  }

  /** The output so far only depends on the input so far. */
  lemma {:induction false} DedupPrefix(fs: seq<Field>, k: nat)
    requires k <= |fs|
    ensures Dedup(fs)[..k] == Dedup(fs[..k])
    decreases |fs|
  {
    if k < |fs| {
      var init := fs[..|fs| - 1];
      DedupPrefix(init, k);
      assert init[..k] == fs[..k];
    } else {
      assert fs[..k] == fs;
    }
  }

  /** Field `k` of the output is field `k` of the input, renamed iff its code is taken before it. */
  lemma DedupAt(fs: seq<Field>, k: nat)
    requires k < |fs|
    ensures Dedup(fs)[k] == DedupStep(Dedup(fs)[..k], fs[k])
  {
    DedupPrefix(fs, k + 1);
    DedupPrefix(fs, k);
    var pre := fs[..k + 1];
    assert pre[..|pre| - 1] == fs[..k];
    assert Dedup(fs)[..k + 1][k] == Dedup(fs)[k];
  }

  /**
   * The output has the input's length and order: each output field is its
   * input field, with at most the code changed to the renamed code.
   */
  lemma DedupShape(fs: seq<Field>, k: nat)
    requires k < |fs|
    ensures Dedup(fs)[k] == fs[k] || Dedup(fs)[k] == Renamed(fs[k])
    ensures Dedup(fs)[k].(code := fs[k].code) == fs[k]
  {
    DedupAt(fs, k);
  }

  /** Field `i`'s original code is among the output codes up to and including position `i`. */
  lemma OriginalCodeSeen(fs: seq<Field>, i: nat, k: nat)
    requires i < k <= |fs|
    ensures fs[i].code in Codes(Dedup(fs)[..k])
  {
    var out := Dedup(fs);
    var seen := out[..k];
    DedupAt(fs, i);
    if fs[i].code in Codes(out[..i]) {
      var j :| 0 <= j < i && out[..i][j].code == fs[i].code;
      assert seen[j] == out[j] == out[..i][j];
      assert seen[j].code in Codes(seen);
    } else {
      assert seen[i] == out[i] == fs[i];
      assert seen[i].code in Codes(seen);
    }
  }

  /** A field whose code occurred earlier in the register is renamed. */
  lemma LaterDuplicateRenamed(fs: seq<Field>, i: nat, k: nat)
    requires i < k < |fs| && fs[i].code == fs[k].code
    ensures Dedup(fs)[k] == Renamed(fs[k])
  {
    OriginalCodeSeen(fs, i, k);
    DedupAt(fs, k);
  }

  /**
   * No renamed code coincides with another field's code or with another
   * field's renamed code. This holds when no code contains `_INDEX_` and
   * the line indexes are distinct digit strings.
   */
  predicate NoRenameClash(fs: seq<Field>) {
    forall i, j :: 0 <= i < |fs| && 0 <= j < |fs| && i != j ==>
      Renamed(fs[i]).code != fs[j].code && Renamed(fs[i]).code != Renamed(fs[j]).code
  }

  /** Without clashes, the first occurrence of a code is kept as it is. */
  lemma FirstOccurrenceKept(fs: seq<Field>, k: nat)
    requires k < |fs| && NoRenameClash(fs)
    requires forall i :: 0 <= i < k ==> fs[i].code != fs[k].code
    ensures Dedup(fs)[k] == fs[k]
  {
    var out := Dedup(fs);
    forall j | 0 <= j < k ensures out[..k][j].code != fs[k].code {
      DedupShape(fs, j);
      assert out[..k][j] == out[j];
    }
    DedupAt(fs, k);
  }

  /** Without clashes, a field is renamed exactly when its code occurred earlier. */
  lemma DedupRenamesDuplicates(fs: seq<Field>, k: nat)
    requires k < |fs| && NoRenameClash(fs)
    ensures Dedup(fs)[k] != fs[k] <==> exists i :: 0 <= i < k && fs[i].code == fs[k].code
  {
    if exists i :: 0 <= i < k && fs[i].code == fs[k].code {
      var i :| 0 <= i < k && fs[i].code == fs[k].code;
      LaterDuplicateRenamed(fs, i, k);
    } else {
      FirstOccurrenceKept(fs, k);
    }
  }

  /** Without clashes, the output codes are pairwise distinct. */
  lemma DedupCodesDistinct(fs: seq<Field>, i: nat, k: nat)
    requires i < k < |fs| && NoRenameClash(fs)
    ensures Dedup(fs)[i].code != Dedup(fs)[k].code
  {
    var out := Dedup(fs);
    DedupAt(fs, k);
    DedupShape(fs, i);
    if out[k] == fs[k] {
      assert out[..k][i] == out[i];
    }
  }

  /**
   * With a clash the codes need not become unique: a field coded `A` with
   * line index 3 after an `A` and an `A_INDEX_3` is renamed to a code the
   * register already has.
   */
  lemma DedupCanCollide()
    ensures var fs := [
        Field("C100", "A", "1", "", None, false, ""),
        Field("C100", "A_INDEX_3", "2", "", None, false, ""),
        Field("C100", "A", "3", "", None, false, "")];
      Dedup(fs)[1].code == Dedup(fs)[2].code
  {
    var fs := [
        Field("C100", "A", "1", "", None, false, ""),
        Field("C100", "A_INDEX_3", "2", "", None, false, ""),
        Field("C100", "A", "3", "", None, false, "")];
    var out := Dedup(fs);
    LaterDuplicateRenamed(fs, 0, 2);
    DedupAt(fs, 0);
    assert out[..0] == [];
    assert out[0] == fs[0];
    assert out[..1] == [fs[0]];
    assert Codes(out[..1]) == {"A"};
    DedupAt(fs, 1);
  }

  /** The XML Schema types the generator gives simple fields. */
  datatype XsdKind = Date | Integer | Float | Str

  /** A missing `type` counts as `char`; a present one is kept. */
  function DefaultedType(f: Field): (t: string)
    ensures t != ""
    ensures t == "char" <==> (f.fieldType == "" || f.fieldType == "char")
    ensures f.fieldType != "" ==> t == f.fieldType
  {
    if f.fieldType == "" then "char" else f.fieldType
  }

  /** Codes naming a date: `DT_…`, `DAT_…` or `DATA…`. */
  predicate HasDatePrefix(code: string) {
    StartsWith(code, "DT_") || StartsWith(code, "DAT_") || StartsWith(code, "DATA")
  }

  /**
   * The type chain of `main`: a date prefix wins, then `int` (or a `float`
   * with a scale of zero) is an integer, any other `float` a float, and
   * everything else, a missing type included, a string.
   */
  function InferKind(f: Field): (k: XsdKind)
    ensures k == Date <==> HasDatePrefix(f.code)
    ensures k == Integer <==> (!HasDatePrefix(f.code) &&
      (f.fieldType == "int" || (f.fieldType == "float" && f.decimal == Some(0))))
    ensures k == Float <==> (!HasDatePrefix(f.code) &&
      f.fieldType == "float" && f.decimal != Some(0))
    ensures k == Str <==> (!HasDatePrefix(f.code) &&
      f.fieldType != "int" && f.fieldType != "float")
  {
    var t := DefaultedType(f);
    if HasDatePrefix(f.code) then Date
    else if t == "int" || (t == "float" && f.decimal.Some? && f.decimal.value == 0) then Integer
    else if t == "float" then Float
    else Str
  }

  /** The datatype code xsdata reports for each of these XML Schema types. */
  function DatatypeCode(k: XsdKind): (c: string)
    ensures c in {"date", "integer", "float", "string"}
    ensures c == "date" <==> k == Date
    ensures c == "integer" <==> k == Integer
    ensures c == "float" <==> k == Float
    ensures c == "string" <==> k == Str
  {
    match k
    case Date => "date"
    case Integer => "integer"
    case Float => "float"
    case Str => "string"
  }

  /** A simple attribute: its name, XML Schema type, `min_occurs` and line index. */
  datatype FieldAttr = FieldAttr(name: string, kind: XsdKind, minOccurs: nat, index: string)

  /** The attribute of a field; the fixed `REG` field gets none. */
  function InferAttr(f: Field): (a: Option<FieldAttr>)
    ensures a.None? <==> f.code == "REG"
    ensures a.Some? ==> a.value.name == f.code && a.value.index == f.index
    ensures a.Some? ==> (a.value.minOccurs == 1 <==> f.required)
    ensures a.Some? ==> a.value.minOccurs <= 1
  {
    if f.code == "REG" then None
    else Some(FieldAttr(f.code, InferKind(f), if f.required then 1 else 0, f.index))
  }

  /** The attributes of a register's de-duplicated fields, in order. */
  function FieldAttrs(fs: seq<Field>): seq<FieldAttr> {
    if fs == [] then []
    else
      var prev := FieldAttrs(fs[..|fs| - 1]);
      match InferAttr(fs[|fs| - 1])
      case None => prev
      case Some(a) => prev + [a]
  }

  /** Each attribute comes from a field other than `REG`, and each such field gives one. */
  lemma {:induction false} FieldAttrsFrom(fs: seq<Field>)
    ensures |FieldAttrs(fs)| <= |fs|
    ensures forall a :: a in FieldAttrs(fs) <==>
      exists k :: 0 <= k < |fs| && InferAttr(fs[k]) == Some(a)
  {
    if fs != [] {
      var init := fs[..|fs| - 1];
      FieldAttrsFrom(init);
      forall a | a in FieldAttrs(fs) ensures exists k :: 0 <= k < |fs| && InferAttr(fs[k]) == Some(a) {
        if InferAttr(fs[|fs| - 1]) != Some(a) {
          var k :| 0 <= k < |init| && InferAttr(init[k]) == Some(a);
          assert InferAttr(fs[k]) == Some(a);
        }
      }
      forall a | exists k :: 0 <= k < |fs| && InferAttr(fs[k]) == Some(a) ensures a in FieldAttrs(fs) {
        var k :| 0 <= k < |fs| && InferAttr(fs[k]) == Some(a);
        if k < |fs| - 1 {
          assert InferAttr(init[k]) == Some(a);
        }
      }
    }
  }

  /** Fields with distinct codes give attributes with distinct names. */
  lemma {:induction false} FieldAttrNamesDistinct(fs: seq<Field>)
    requires forall i, k :: 0 <= i < k < |fs| ==> fs[i].code != fs[k].code
    ensures forall i, k :: 0 <= i < k < |FieldAttrs(fs)| ==>
      FieldAttrs(fs)[i].name != FieldAttrs(fs)[k].name
  {
    if fs != [] {
      var init := fs[..|fs| - 1];
      var last := fs[|fs| - 1];
      var prev := FieldAttrs(init);
      FieldAttrNamesDistinct(init);
      FieldAttrsFrom(init);
      forall a | a in prev ensures a.name != last.code {
        var k :| 0 <= k < |init| && InferAttr(init[k]) == Some(a);
        assert init[k] == fs[k];
      }
      if InferAttr(last).Some? {
        var r := FieldAttrs(fs);
        forall i, k | 0 <= i < k < |r| ensures r[i].name != r[k].name {
          assert r[i] == prev[i];
          if k < |prev| {
            assert r[k] == prev[k];
          } else {
            assert prev[i] in prev;
          }
        }
      }
    }
  }

  /** The loop of `main` that turns a register's fields into attributes. */
  method BuildAttrs(fields: seq<Field>) returns (attrs: seq<FieldAttr>)
    ensures attrs == FieldAttrs(fields)
  {
    attrs := [];
    for i := 0 to |fields|
      invariant attrs == FieldAttrs(fields[..i])
    {
      assert fields[..i + 1][..i] == fields[..i];
      var field := fields[i];
      if field.code == "REG" {
        continue;
      }
      attrs := attrs + [InferAttr(field).value];
    }
    assert fields[..|fields|] == fields;
  }
}
