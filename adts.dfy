/** Structs, unions, enums, their fields and enum variants
    (`impl HirDisplay for Adt`, `Struct`, `Enum`, `Union`, `Field`,
    `Variant`). */
module Adts {
  import opened Hir
  import opened Text
  import opened Formatter
  import opened GenericParamList
  import opened WhereClause

  /** A named field of a struct or union as a declaration: visibility,
      `name: T`, with the field's resolved type. */
  function FieldText(r: Renderer, fd: FieldData): string
  {
    fd.visibility + fd.name + ": " + r.resolvedTy(fd.ty)
  }

  /** A field of an enum variant's record: `name: T`, never a visibility,
      with the type as written. */
  function VariantFieldText(r: Renderer, fd: FieldData): string
  {
    fd.name + ": " + r.ty(fd.ty)
  }

  function FieldTexts(r: Renderer, fields: seq<FieldData>): (ts: seq<string>)
    ensures |ts| == |fields|
    ensures forall k :: 0 <= k < |fields| ==> ts[k] == FieldText(r, fields[k])
  {
    if |fields| == 0 then [] else FieldTexts(r, fields[..|fields| - 1]) + [FieldText(r, fields[|fields| - 1])]
  }

  function VariantFieldTexts(r: Renderer, fields: seq<FieldData>): (ts: seq<string>)
    ensures |ts| == |fields|
    ensures forall k :: 0 <= k < |fields| ==> ts[k] == VariantFieldText(r, fields[k])
  {
    if |fields| == 0 then []
    else VariantFieldTexts(r, fields[..|fields| - 1]) + [VariantFieldText(r, fields[|fields| - 1])]
  }

  /** The field types alone, as a tuple variant shows them (a tuple struct
      shows them with `Resolved()`). */
  function FieldTypes(r: Renderer, fields: seq<FieldData>): (ts: seq<string>)
    ensures |ts| == |fields|
    ensures forall k :: 0 <= k < |fields| ==> ts[k] == r.ty(fields[k].ty)
  {
    if |fields| == 0 then [] else FieldTypes(r, fields[..|fields| - 1]) + [r.ty(fields[|fields| - 1].ty)]
  }

  /** One indented, comma-terminated line per item. */
  function Lines(items: seq<string>): string
  {
    if |items| == 0 then "" else Lines(items[..|items| - 1]) + ("    " + items[|items| - 1] + ",\n")
  }

  /** The braced body of a union or an enum: nothing at all when empty. */
  function Block(items: seq<string>): string
  {
    if items == [] then "" else " {\n" + Lines(items) + "}"
  }

  /** The fields of a record variant after ` {`: a space and the fields
      joined by ", ", or nothing. */
  function RecordFieldList(texts: seq<string>): string
  {
    if texts == [] then "" else " " + Join(texts, ", ")
  }

  function VariantText(r: Renderer, v: Variant): string
  {
    v.name +
    match v.data
    case UnitVariant => ""
    case TupleVariant(fields) => "(" + Join(FieldTypes(r, fields), ", ") + ")"
    case RecordVariant(fields) => " {" + RecordFieldList(VariantFieldTexts(r, fields)) + " }"
  }

  function VariantTexts(r: Renderer, variants: seq<Variant>): (ts: seq<string>)
    ensures |ts| == |variants|
    ensures forall k :: 0 <= k < |variants| ==> ts[k] == VariantText(r, variants[k])
  {
    if |variants| == 0 then []
    else VariantTexts(r, variants[..|variants| - 1]) + [VariantText(r, variants[|variants| - 1])]
  }

  /** Visibility, keyword, name and generic clause. */
  function HeadText(visibility: string, keyword: string, name: Name, g: GenericParams, r: Renderer): string
  {
    visibility + keyword + name + GenericParamsText(g, r)
  }

  /** The part of a struct before its where clause (the tuple fields). */
  function TupleText(sd: StructData, r: Renderer): string
  {
    if sd.kind.TupleKind? then "(" + Join(FieldTypes(r.Resolved(), sd.fields), ", ") + ");" else ""
  }

  /** The part of a struct after its where clause (the record body). */
  function RecordBodyText(sd: StructData, r: Renderer): string
  {
    if !sd.kind.RecordKind? then ""
    else if sd.fields == [] then " {}"
    else " {\n" + Lines(FieldTexts(r, sd.fields)) + "}"
  }

  function StructText(sd: StructData, r: Renderer): string
    requires sd.generics.Valid()
  {
    HeadText(sd.visibility, "struct ", sd.name, sd.generics, r) + TupleText(sd, r)
      + WhereClauseText(sd.generics, r) + RecordBodyText(sd, r)
  }

  function UnionText(ud: UnionData, r: Renderer): string
    requires ud.generics.Valid()
  {
    HeadText(ud.visibility, "union ", ud.name, ud.generics, r) + WhereClauseText(ud.generics, r)
      + Block(FieldTexts(r, ud.fields))
  }

  function EnumText(ed: EnumData, r: Renderer): string
    requires ed.generics.Valid()
  {
    HeadText(ed.visibility, "enum ", ed.name, ed.generics, r) + WhereClauseText(ed.generics, r)
      + Block(VariantTexts(r, ed.variants))
  }

  predicate AdtValid(adt: Adt)
  {
    match adt
    case Struct(sd) => sd.generics.Valid()
    case Union(ud) => ud.generics.Valid()
    case Enum(ed) => ed.generics.Valid()
  }

  function AdtText(adt: Adt, r: Renderer): string
    requires AdtValid(adt)
  {
    match adt
    case Struct(sd) => StructText(sd, r)
    case Union(ud) => UnionText(ud, r)
    case Enum(ed) => EnumText(ed, r)
  }

  // ---------------------------------------------------------------------
  // Step lemmas for the loops

  lemma LinesSnoc(items: seq<string>, x: string)
    ensures Lines(items + [x]) == Lines(items) + ("    " + x + ",\n")
  {
    assert (items + [x])[..|items|] == items;
  }

  lemma FieldTextsSnoc(r: Renderer, fields: seq<FieldData>, i: nat)
    requires i < |fields|
    ensures FieldTexts(r, fields[..i + 1]) == FieldTexts(r, fields[..i]) + [FieldText(r, fields[i])]
  {
    assert fields[..i + 1][..i] == fields[..i];
  }

  lemma VariantFieldTextsSnoc(r: Renderer, fields: seq<FieldData>, i: nat)
    requires i < |fields|
    ensures VariantFieldTexts(r, fields[..i + 1])
         == VariantFieldTexts(r, fields[..i]) + [VariantFieldText(r, fields[i])]
  {
    assert fields[..i + 1][..i] == fields[..i];
  }

  lemma FieldTypesSnoc(r: Renderer, fields: seq<FieldData>, i: nat)
    requires i < |fields|
    ensures FieldTypes(r, fields[..i + 1]) == FieldTypes(r, fields[..i]) + [r.ty(fields[i].ty)]
  {
    assert fields[..i + 1][..i] == fields[..i];
  }

  lemma VariantTextsSnoc(r: Renderer, variants: seq<Variant>, i: nat)
    requires i < |variants|
    ensures VariantTexts(r, variants[..i + 1]) == VariantTexts(r, variants[..i]) + [VariantText(r, variants[i])]
  {
    assert variants[..i + 1][..i] == variants[..i];
  }

  // ---------------------------------------------------------------------
  // The writers

  method WriteField(fd: FieldData, f: HirFormatter)
    modifies f
    ensures f.buf == old(f.buf) + FieldText(f.r, fd)
  {
    ghost var s := f.buf;
    f.WriteStr(fd.visibility);
    f.WriteStr(fd.name);
    f.WriteStr(": ");
    f.WriteStr(f.r.resolvedTy(fd.ty));
    assert f.buf == (((s + fd.visibility) + fd.name) + ": ") + f.r.resolvedTy(fd.ty);
    AppendAssoc(s, fd.visibility, fd.name);
    AppendAssoc(s, fd.visibility + fd.name, ": ");
    AppendAssoc(s, fd.visibility + fd.name + ": ", f.r.resolvedTy(fd.ty));
  }

  /** Appends `"    " + piece + ",\n"` given that the middle write adds
      `piece`. */
  lemma LineAppended(base: string, piece: string)
    ensures ((base + "    ") + piece) + ",\n" == base + ("    " + piece + ",\n")
  {
    AppendAssoc(base, "    ", piece);
    AppendAssoc(base, "    " + piece, ",\n");
  }

  /** One line per field: indentation, the field, `,` and a newline. */
  method WriteFieldLines(fields: seq<FieldData>, f: HirFormatter)
    modifies f
    ensures f.buf == old(f.buf) + Lines(FieldTexts(f.r, fields))
  {
    var r := f.r;
    ghost var base := f.buf;
    for i := 0 to |fields|
      invariant f.buf == base + Lines(FieldTexts(r, fields[..i]))
    {
      ghost var done := Lines(FieldTexts(r, fields[..i]));
      ghost var piece := FieldText(r, fields[i]);
      FieldTextsSnoc(r, fields, i);
      LinesSnoc(FieldTexts(r, fields[..i]), piece);
      f.WriteStr("    ");
      WriteField(fields[i], f);
      f.WriteStr(",\n");
      LineAppended(base + done, piece);
      AppendAssoc(base, done, "    " + piece + ",\n");
    }
    assert fields[..|fields|] == fields;
  }

  /** One line per variant. */
  method WriteVariantLines(variants: seq<Variant>, f: HirFormatter)
    modifies f
    ensures f.buf == old(f.buf) + Lines(VariantTexts(f.r, variants))
  {
    var r := f.r;
    ghost var base := f.buf;
    for i := 0 to |variants|
      invariant f.buf == base + Lines(VariantTexts(r, variants[..i]))
    {
      ghost var done := Lines(VariantTexts(r, variants[..i]));
      ghost var piece := VariantText(r, variants[i]);
      VariantTextsSnoc(r, variants, i);
      LinesSnoc(VariantTexts(r, variants[..i]), piece);
      f.WriteStr("    ");
      FormatVariant(variants[i], f);
      f.WriteStr(",\n");
      LineAppended(base + done, piece);
      AppendAssoc(base, done, "    " + piece + ",\n");
    }
    assert variants[..|variants|] == variants;
  }

  /** The tuple fields' resolved types, with ", " written after a type
      whenever another one follows. */
  method WriteTupleStructTypes(fields: seq<FieldData>, f: HirFormatter)
    modifies f
    ensures f.buf == old(f.buf) + Join(FieldTypes(f.r.Resolved(), fields), ", ")
  {
    var r := f.r.Resolved();
    ghost var base := f.buf;
    var i := 0;
    while i < |fields|
      invariant 0 <= i <= |fields|
      invariant f.buf == base + Join(FieldTypes(r, fields[..i]), ", ")
                         + (if 0 < i < |fields| then ", " else "")
    {
      ghost var before := FieldTypes(r, fields[..i]);
      var t := r.ty(fields[i].ty);
      FieldTypesSnoc(r, fields, i);
      assert before == [] <==> i == 0;
      f.WriteStr(t);
      JoinSnocAfter(base, before, t, ", ");
      i := i + 1;
      ghost var written := base + Join(FieldTypes(r, fields[..i]), ", ");
      assert f.buf == written;
      if i < |fields| {
        f.WriteStr(", ");
      } else {
        AppendEmpty(written);
      }
    }
    assert fields[..|fields|] == fields;
  }

  /** The types of a tuple variant, with the usual `first` flag. */
  method WriteVariantTypes(fields: seq<FieldData>, f: HirFormatter)
    modifies f
    ensures f.buf == old(f.buf) + Join(FieldTypes(f.r, fields), ", ")
  {
    var r := f.r;
    ghost var base := f.buf;
    var first := true;
    for i := 0 to |fields|
      invariant first == (i == 0)
      invariant f.buf == base + Join(FieldTypes(r, fields[..i]), ", ")
    {
      ghost var before := FieldTypes(r, fields[..i]);
      ghost var joined := Join(before, ", ");
      var t := r.ty(fields[i].ty);
      ghost var delim := if first then "" else ", ";
      FieldTypesSnoc(r, fields, i);
      JoinSnoc(before, t, ", ");
      assert Join(before + [t], ", ") == (joined + delim) + t;
      first := WriteDelim(f, first);
      f.WriteStr(t);
      AppendAssoc(base, joined, delim);
      AppendAssoc(base, joined + delim, t);
    }
    assert fields[..|fields|] == fields;
  }

  /** The fields of a record variant: a space before the first, ", "
      before every later one. */
  method WriteVariantRecordFields(fields: seq<FieldData>, f: HirFormatter)
    modifies f
    ensures f.buf == old(f.buf) + RecordFieldList(VariantFieldTexts(f.r, fields))
  {
    var r := f.r;
    ghost var base := f.buf;
    var first := true;
    for i := 0 to |fields|
      invariant first == (i == 0)
      invariant f.buf == base + RecordFieldList(VariantFieldTexts(r, fields[..i]))
    {
      ghost var before := VariantFieldTexts(r, fields[..i]);
      ghost var e := VariantFieldText(r, fields[i]);
      ghost var lead := if first then " " else ", ";
      ghost var prev := RecordFieldList(before);
      VariantFieldTextsSnoc(r, fields, i);
      JoinSnoc(before, e, ", ");
      if first {
        first := false;
        f.WriteStr(" ");
      } else {
        f.WriteStr(", ");
      }
      ghost var mid := f.buf;
      f.WriteStr(fields[i].name);
      f.WriteStr(": ");
      f.WriteStr(r.ty(fields[i].ty));
      assert f.buf == mid + e by {
        AppendAssoc(mid, fields[i].name, ": ");
        AppendAssoc(mid, fields[i].name + ": ", r.ty(fields[i].ty));
      }
      assert f.buf == ((base + prev) + lead) + e;
      assert RecordFieldList(before + [e]) == (prev + lead) + e by {
        if before != [] {
          AppendAssoc(" ", Join(before, ", "), ", ");
          AppendAssoc(" " + Join(before, ", ") + ", ", e, []);
          AppendAssoc(" ", Join(before, ", ") + ", ", e);
        }
      }
      AppendAssoc(base, prev, lead);
      AppendAssoc(base, prev + lead, e);
    }
    assert fields[..|fields|] == fields;
  }

  method FormatVariant(v: Variant, f: HirFormatter)
    modifies f
    ensures f.buf == old(f.buf) + VariantText(f.r, v)
  {
    ghost var s := f.buf;
    f.WriteStr(v.name);
    ghost var tail: string;
    match v.data {
      case UnitVariant =>
        tail := "";
      case TupleVariant(fields) =>
        f.WriteStr("(");
        WriteVariantTypes(fields, f);
        f.WriteStr(")");
        tail := "(" + Join(FieldTypes(f.r, fields), ", ") + ")";
        AppendAssoc(s + v.name, "(", Join(FieldTypes(f.r, fields), ", "));
        AppendAssoc(s + v.name, "(" + Join(FieldTypes(f.r, fields), ", "), ")");
      case RecordVariant(fields) =>
        f.WriteStr(" {");
        WriteVariantRecordFields(fields, f);
        f.WriteStr(" }");
        tail := " {" + RecordFieldList(VariantFieldTexts(f.r, fields)) + " }";
        AppendAssoc(s + v.name, " {", RecordFieldList(VariantFieldTexts(f.r, fields)));
        AppendAssoc(s + v.name, " {" + RecordFieldList(VariantFieldTexts(f.r, fields)), " }");
    }
    assert f.buf == (s + v.name) + tail;
    AppendAssoc(s, v.name, tail);
  }

  /** Visibility, keyword, name and generic clause. */
  method WriteHead(visibility: string, keyword: string, name: Name, g: GenericParams, f: HirFormatter)
    modifies f
    ensures f.buf == old(f.buf) + HeadText(visibility, keyword, name, g, f.r)
  {
    ghost var s := f.buf;
    f.WriteStr(visibility);
    f.WriteStr(keyword);
    f.WriteStr(name);
    WriteGenericParams(g, f);
    ghost var gp := GenericParamsText(g, f.r);
    assert f.buf == (((s + visibility) + keyword) + name) + gp;
    AppendAssoc(s, visibility, keyword);
    AppendAssoc(s, visibility + keyword, name);
    AppendAssoc(s, visibility + keyword + name, gp);
  }

  /** The tuple part of a struct: `(T1, T2);` for a tuple struct. */
  method WriteTupleFields(sd: StructData, f: HirFormatter)
    modifies f
    ensures f.buf == old(f.buf) + TupleText(sd, f.r)
  {
    if sd.kind.TupleKind? {
      ghost var s := f.buf;
      f.WriteStr("(");
      WriteTupleStructTypes(sd.fields, f);
      f.WriteStr(");");
      ghost var j := Join(FieldTypes(f.r.Resolved(), sd.fields), ", ");
      AppendAssoc(s, "(", j);
      AppendAssoc(s, "(" + j, ");");
    }
  }

  /** The record part of a struct: ` {}` when it has no fields. */
  method WriteRecordBody(sd: StructData, f: HirFormatter)
    modifies f
    ensures f.buf == old(f.buf) + RecordBodyText(sd, f.r)
  {
    if sd.kind.RecordKind? {
      if sd.fields == [] {
        f.WriteStr(" {}");
      } else {
        ghost var s := f.buf;
        f.WriteStr(" {\n");
        WriteFieldLines(sd.fields, f);
        f.WriteStr("}");
        ghost var lines := Lines(FieldTexts(f.r, sd.fields));
        AppendAssoc(s, " {\n", lines);
        AppendAssoc(s, " {\n" + lines, "}");
      }
    }
  }

  method FormatStruct(sd: StructData, f: HirFormatter)
    requires sd.generics.Valid()
    modifies f
    ensures f.buf == old(f.buf) + StructText(sd, f.r)
  {
    ghost var s := f.buf;
    ghost var h := HeadText(sd.visibility, "struct ", sd.name, sd.generics, f.r);
    ghost var t := TupleText(sd, f.r);
    ghost var w := WhereClauseText(sd.generics, f.r);
    ghost var b := RecordBodyText(sd, f.r);
    WriteHead(sd.visibility, "struct ", sd.name, sd.generics, f);
    WriteTupleFields(sd, f);
    AppendAssoc(s, h, t);
    WriteWhereClause(sd.generics, f);
    AppendAssoc(s, h + t, w);
    WriteRecordBody(sd, f);
    AppendAssoc(s, h + t + w, b);
  }

  /** The braced field list of a union, written only when there are fields. */
  method WriteFieldBlock(fields: seq<FieldData>, f: HirFormatter)
    modifies f
    ensures f.buf == old(f.buf) + Block(FieldTexts(f.r, fields))
  {
    if fields != [] {
      ghost var s := f.buf;
      f.WriteStr(" {\n");
      WriteFieldLines(fields, f);
      f.WriteStr("}");
      ghost var lines := Lines(FieldTexts(f.r, fields));
      AppendAssoc(s, " {\n", lines);
      AppendAssoc(s, " {\n" + lines, "}");
    }
  }

  method FormatUnion(ud: UnionData, f: HirFormatter)
    requires ud.generics.Valid()
    modifies f
    ensures f.buf == old(f.buf) + UnionText(ud, f.r)
  {
    ghost var s := f.buf;
    ghost var h := HeadText(ud.visibility, "union ", ud.name, ud.generics, f.r);
    ghost var w := WhereClauseText(ud.generics, f.r);
    ghost var b := Block(FieldTexts(f.r, ud.fields));
    WriteHead(ud.visibility, "union ", ud.name, ud.generics, f);
    WriteWhereClause(ud.generics, f);
    AppendAssoc(s, h, w);
    WriteFieldBlock(ud.fields, f);
    AppendAssoc(s, h + w, b);
  }

  method FormatEnum(ed: EnumData, f: HirFormatter)
    requires ed.generics.Valid()
    modifies f
    ensures f.buf == old(f.buf) + EnumText(ed, f.r)
  {
    ghost var s := f.buf;
    ghost var h := HeadText(ed.visibility, "enum ", ed.name, ed.generics, f.r);
    ghost var w := WhereClauseText(ed.generics, f.r);
    ghost var b := Block(VariantTexts(f.r, ed.variants));
    WriteHead(ed.visibility, "enum ", ed.name, ed.generics, f);
    WriteWhereClause(ed.generics, f);
    AppendAssoc(s, h, w);
    if ed.variants != [] {
      ghost var m := f.buf;
      f.WriteStr(" {\n");
      WriteVariantLines(ed.variants, f);
      f.WriteStr("}");
      ghost var lines := Lines(VariantTexts(f.r, ed.variants));
      AppendAssoc(m, " {\n", lines);
      AppendAssoc(m, " {\n" + lines, "}");
    }
    AppendAssoc(s, h + w, b);
  }

  /** Dispatches on the kind of type definition. */
  method FormatAdt(adt: Adt, f: HirFormatter)
    requires AdtValid(adt)
    modifies f
    ensures f.buf == old(f.buf) + AdtText(adt, f.r)
  {
    match adt {
      case Struct(sd) => FormatStruct(sd, f);
      case Union(ud) => FormatUnion(ud, f);
      case Enum(ed) => FormatEnum(ed, f);
    }
  }

  // ---------------------------------------------------------------------
  // Properties of the bodies

  /** The lines of a concatenation are the lines of each part. */
  lemma {:induction false} LinesAppend(a: seq<string>, b: seq<string>)
    ensures Lines(a + b) == Lines(a) + Lines(b)
  {
    if b == [] {
      assert a + b == a;
    } else {
      var last := b[|b| - 1];
      var b' := b[..|b| - 1];
      assert b == b' + [last];
      assert a + b == (a + b') + [last];
      LinesAppend(a, b');
      LinesSnoc(a + b', last);
      LinesSnoc(b', last);
      AppendAssoc(Lines(a), Lines(b'), "    " + last + ",\n");
    }
  }

  /** Each item gets a line of its own: four spaces, the item, a comma and a
      newline. */
  lemma LinesOfOne(x: string)
    ensures Lines([x]) == "    " + x + ",\n"
  {
    LinesSnoc([], x);
  }

  /** A record struct without fields still shows `{}`, and one with fields
      closes its block after a comma-terminated line. */
  lemma RecordStructBody(sd: StructData, r: Renderer)
    requires sd.generics.Valid() && sd.kind.RecordKind?
    ensures sd.fields == [] ==> EndsWith(StructText(sd, r), " {}")
    ensures sd.fields != [] ==> EndsWith(StructText(sd, r), ",\n}")
  {
    var prefix := HeadText(sd.visibility, "struct ", sd.name, sd.generics, r) + TupleText(sd, r)
      + WhereClauseText(sd.generics, r);
    if sd.fields != [] {
      var ts := FieldTexts(r, sd.fields);
      var init := ts[..|ts| - 1];
      assert ts == init + [ts[|ts| - 1]];
      LinesSnoc(init, ts[|ts| - 1]);
      var body := " {\n" + Lines(ts) + "}";
      assert EndsWith(body, ",\n}");
      assert StructText(sd, r) == prefix + body;
      assert (prefix + body)[|prefix + body| - 4..] == body[|body| - 4..];
    } else {
      assert StructText(sd, r) == prefix + " {}";
    }
  }

  /** A union without fields and an enum without variants end at their
      where clause: no block at all. */
  lemma EmptyUnionHasNoBody(ud: UnionData, r: Renderer)
    requires ud.generics.Valid() && ud.fields == []
    ensures UnionText(ud, r) == ud.visibility + "union " + ud.name + GenericParamsText(ud.generics, r)
                                + WhereClauseText(ud.generics, r)
  {
    assert FieldTexts(r, ud.fields) == [];
  }

  lemma EmptyEnumHasNoBody(ed: EnumData, r: Renderer)
    requires ed.generics.Valid() && ed.variants == []
    ensures EnumText(ed, r) == ed.visibility + "enum " + ed.name + GenericParamsText(ed.generics, r)
                               + WhereClauseText(ed.generics, r)
  {
    assert VariantTexts(r, ed.variants) == [];
  }

  /** The struct shows its tuple fields before its where clause and its
      record body after it; a unit struct ends at the where clause. */
  lemma StructBodyPlacement(sd: StructData, r: Renderer)
    requires sd.generics.Valid()
    ensures var head := HeadText(sd.visibility, "struct ", sd.name, sd.generics, r);
            var wc := WhereClauseText(sd.generics, r);
            && (sd.kind.TupleKind? ==>
                  StructText(sd, r) == head + ("(" + Join(FieldTypes(r.Resolved(), sd.fields), ", ") + ");") + wc)
            && (sd.kind.RecordKind? ==> StructText(sd, r) == head + wc + RecordBodyText(sd, r))
            && (sd.kind.UnitKind? ==> StructText(sd, r) == head + wc)
  {
    var head := HeadText(sd.visibility, "struct ", sd.name, sd.generics, r);
    var wc := WhereClauseText(sd.generics, r);
    assert head + "" == head;
    assert wc + "" == wc;
  }

  /** The shapes of an enum variant: a bare name, types only in
      parentheses, or named fields in braces with a space inside each brace,
      so that a record variant without fields shows `{ }`. */
  lemma VariantForms(r: Renderer, v: Variant)
    ensures v.data.UnitVariant? ==> VariantText(r, v) == v.name
    ensures v.data.TupleVariant? ==>
              VariantText(r, v) == v.name + "(" + Join(FieldTypes(r, v.data.tupleFields), ", ") + ")"
    ensures v.data == RecordVariant([]) ==> VariantText(r, v) == v.name + " { }"
    ensures v.data.RecordVariant? && v.data.recordFields != [] ==>
              VariantText(r, v)
              == v.name + " { " + Join(VariantFieldTexts(r, v.data.recordFields), ", ") + " }"
  {
    match v.data {
      case UnitVariant =>
        assert v.name + "" == v.name;
      case TupleVariant(fields) =>
        AppendAssoc(v.name, "(" + Join(FieldTypes(r, fields), ", "), ")");
        AppendAssoc(v.name, "(", Join(FieldTypes(r, fields), ", "));
      case RecordVariant(fields) =>
        var list := RecordFieldList(VariantFieldTexts(r, fields));
        AppendAssoc(v.name, " {" + list, " }");
        AppendAssoc(v.name, " {", list);
        if fields != [] {
          var j := Join(VariantFieldTexts(r, fields), ", ");
          AppendAssoc(" {", " ", j);
          AppendAssoc(v.name + " {", " ", j);
        }
    }
  }

  /** A field of a struct or union is its variant form behind its
      visibility, except that its type is shown resolved rather than as
      written; the two coincide only where those renderings agree. */
  lemma FieldShowsVisibility(r: Renderer, fd: FieldData)
    ensures FieldText(r, fd) == fd.visibility + VariantFieldText(r.Resolved(), fd)
    ensures r.resolvedTy(fd.ty) == r.ty(fd.ty) ==> FieldText(r, fd) == fd.visibility + VariantFieldText(r, fd)
  {
    var t := r.resolvedTy(fd.ty);
    AppendAssoc(fd.visibility + fd.name, ": ", t);
    AppendAssoc(fd.visibility, fd.name, ": " + t);
    AppendAssoc(fd.name, ": ", t);
  }
}
