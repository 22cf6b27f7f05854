/** The declarations whose text is a fixed token sequence: consts, statics,
    traits, trait aliases, type aliases, modules, macros, extern crates and
    generic parameters shown on their own. */
module Items {
  import opened Hir
  import opened Text
  import opened GenericParamList
  import opened WhereClause
  import opened Functions
  import opened Formatter

  /** `const NAME: T`, with `_` for an unnamed const. */
  function ConstText(cd: ConstData, r: Renderer): string
  {
    cd.visibility + "const " + (match cd.name case Some(n) => n case None => "_") + ": " + r.ty(cd.ty)
  }

  /** `static NAME: T` or `static mut NAME: T`. */
  function StaticText(sd: StaticData, r: Renderer): string
  {
    sd.visibility + "static " + (if sd.mutable then "mut " else "") + sd.name + ": " + r.ty(sd.ty)
  }

  /** `unsafe`, then `auto`, then `trait NAME`, the generic clause and the
      where clause. */
  function TraitText(td: TraitData, r: Renderer): string
    requires td.generics.Valid()
  {
    td.visibility + Keyword(td.isUnsafe, "unsafe ") + Keyword(td.isAuto, "auto ") + "trait " + td.name
      + GenericParamsText(td.generics, r) + WhereClauseText(td.generics, r)
  }

  /** `trait NAME<...> = ` followed by the where clause, which holds every
      bound of the alias as a predicate on `Self`. */
  function TraitAliasText(ta: TraitAliasData, r: Renderer): string
    requires ta.generics.Valid()
  {
    ta.visibility + "trait " + ta.name + GenericParamsText(ta.generics, r) + " = "
      + WhereClauseText(ta.generics, r)
  }

  function BoundTextsOf(r: Renderer, bounds: seq<Bound>): (ts: seq<string>)
    ensures |ts| == |bounds|
    ensures forall k :: 0 <= k < |bounds| ==> ts[k] == r.bound(bounds[k])
  {
    if |bounds| == 0 then [] else BoundTextsOf(r, bounds[..|bounds| - 1]) + [r.bound(bounds[|bounds| - 1])]
  }

  /** `: B1 + B2` for the declared bounds, when there are any. */
  function AliasBoundsText(r: Renderer, bounds: seq<Bound>): string
  {
    if bounds == [] then "" else ": " + Join(BoundTextsOf(r, bounds), " + ")
  }

  /** ` = T` for the aliased type, when there is one. */
  function AliasedTypeText(r: Renderer, ty: Option<TypeRef>): string
  {
    match ty
    case Some(t) => " = " + r.ty(t)
    case None => ""
  }

  /** `type NAME<...>`, the where clause, then the bounds, then the aliased
      type: the where clause comes first. */
  function TypeAliasText(ta: TypeAliasData, r: Renderer): string
    requires ta.generics.Valid()
  {
    ta.visibility + "type " + ta.name + GenericParamsText(ta.generics, r) + WhereClauseText(ta.generics, r)
      + AliasBoundsText(r, ta.bounds) + AliasedTypeText(r, ta.typeRef)
  }

  /** `mod NAME`; an unnamed module is a crate root, shown as its crate, or
      has no name at all. */
  function ModuleText(md: ModuleData): string
  {
    match md.name
    case Some(name) => "mod " + name
    case None =>
      if md.isCrateRoot then
        match md.crateDisplayName
        case Some(crateName) => "extern crate " + crateName
        case None => "extern crate {unknown}"
      else "mod {unnamed}"
  }

  function MacroKeyword(kind: MacroKind): string
  {
    match kind
    case Macro2 => "macro"
    case MacroRules => "macro_rules!"
    case ProcMacro => "proc_macro"
  }

  function MacroText(md: MacroData): string
  {
    MacroKeyword(md.kind) + " " + md.name
  }

  function ImportAliasText(alias: ImportAlias): string
  {
    match alias
    case Underscore => "_"
    case Alias(name) => name
  }

  /** `extern crate NAME`, then ` as ALIAS` when renamed. */
  function ExternCrateText(ec: ExternCrateData): string
  {
    ec.visibility + "extern crate " + ec.name
      + (match ec.alias case Some(alias) => " as " + ImportAliasText(alias) case None => "")
  }

  /** Whether the bound list of a type parameter is shown: never in compact
      mode, and otherwise unless every predicate is an implementation of
      `Sized` (which is implied). A parameter with no predicate at all shows
      its list, which is how `?Sized` comes out. */
  predicate ShowsBounds(tp: TypeParam, omitVerboseTypes: bool)
  {
    var onlySized := forall k :: 0 <= k < |tp.predicates| ==> tp.predicates[k] == Implemented(true);
    !omitVerboseTypes && (!onlySized || tp.predicates == [])
  }

  function TypeParamText(tp: TypeParam, omitVerboseTypes: bool): string
  {
    tp.name + (if ShowsBounds(tp, omitVerboseTypes) then tp.boundsText else "")
  }

  /** Writes a type parameter, taking compact mode from the formatter: the
      name, then nothing in compact mode, else the bound list unless every
      predicate is `Sized` and there is at least one. */
  method FormatTypeParam(tp: TypeParam, f: HirFormatter)
    modifies f
    ensures f.buf == old(f.buf) + TypeParamText(tp, f.omitVerboseTypes)
  {
    f.WriteStr(tp.name);
    ghost var named := f.buf;
    AppendEmpty(named);
    if f.omitVerboseTypes {
      return;
    }
    var onlySized := forall k | 0 <= k < |tp.predicates| :: tp.predicates[k] == Implemented(true);
    var noPredicates := tp.predicates == [];
    if !onlySized || noPredicates {
      f.WriteStr(tp.boundsText);
    }
  }

  /** A const parameter on its own: `const N: T` with the resolved type,
      never its default. */
  function ConstParamText(cp: ConstParam, r: Renderer): string
  {
    "const " + cp.name + ": " + r.resolvedTy(cp.ty)
  }

  function GenericParamText(gp: GenericParam, r: Renderer, omitVerboseTypes: bool): string
  {
    match gp
    case TypeParamDecl(tp) => TypeParamText(tp, omitVerboseTypes)
    case ConstParamDecl(cp) => ConstParamText(cp, r)
    case LifetimeParamDecl(name) => name
  }

  // ---------------------------------------------------------------------
  // Properties

  /** An unnamed const shows exactly like one named `_`. */
  lemma UnnamedConstShowsUnderscore(cd: ConstData, r: Renderer)
    requires cd.name.None?
    ensures ConstText(cd, r) == ConstText(cd.(name := Some("_")), r)
  {
  }

  /** A mutable static differs from the same static made immutable only by
      `mut ` after `static `. */
  lemma MutableStaticInsertsMut(sd: StaticData, r: Renderer)
    ensures var tail := sd.name + ": " + r.ty(sd.ty);
            && StaticText(sd.(mutable := false), r) == sd.visibility + "static " + tail
            && StaticText(sd.(mutable := true), r) == sd.visibility + "static " + ("mut " + tail)
  {
    var tail := sd.name + ": " + r.ty(sd.ty);
    var head := sd.visibility + "static ";
    assert StaticText(sd.(mutable := true), r) == head + "mut " + sd.name + ": " + r.ty(sd.ty);
    AppendAssoc(head + "mut " + sd.name, ": ", r.ty(sd.ty));
    AppendAssoc(head + "mut ", sd.name, ": " + r.ty(sd.ty));
    AppendAssoc(head, "mut ", tail);
    assert StaticText(sd.(mutable := false), r) == head + "" + sd.name + ": " + r.ty(sd.ty);
    assert head + "" == head;
    AppendAssoc(head + sd.name, ": ", r.ty(sd.ty));
    AppendAssoc(head, sd.name, ": " + r.ty(sd.ty));
  }

  /** The trait qualifiers can be read back from the text after the
      visibility. */
  lemma TraitQualifiersInjective(a: TraitData, b: TraitData)
    requires Keyword(a.isUnsafe, "unsafe ") + Keyword(a.isAuto, "auto ") + "trait "
          == Keyword(b.isUnsafe, "unsafe ") + Keyword(b.isAuto, "auto ") + "trait "
    ensures a.isUnsafe == b.isUnsafe && a.isAuto == b.isAuto
  {
    var u1, u2 := Keyword(a.isUnsafe, "unsafe "), Keyword(b.isUnsafe, "unsafe ");
    var x1, x2 := Keyword(a.isAuto, "auto "), Keyword(b.isAuto, "auto ");
    AppendAssoc(u1, x1, "trait ");
    AppendAssoc(u2, x2, "trait ");
    KeywordPrefix(a.isUnsafe, b.isUnsafe, "unsafe ", x1 + "trait ", x2 + "trait ");
    KeywordPrefix(a.isAuto, b.isAuto, "auto ", "trait ", "trait ");
  }

  /** A trait alias whose bounds are all hidden ends with ` = `. */
  lemma TraitAliasWithoutPredicatesEndsWithEquals(ta: TraitAliasData, r: Renderer)
    requires ta.generics.Valid() && !HasDisplayablePredicate(ta.generics)
    ensures EndsWith(TraitAliasText(ta, r), " = ")
  {
  }

  /** The where clause of a type alias comes before its bounds: with both,
      the clause's closing `,` is followed directly by `: `. */
  lemma TypeAliasWhereBeforeBounds(ta: TypeAliasData, r: Renderer)
    requires ta.generics.Valid() && HasDisplayablePredicate(ta.generics) && ta.bounds != []
    ensures var prefix := ta.visibility + "type " + ta.name + GenericParamsText(ta.generics, r)
                          + WhereClauseText(ta.generics, r);
            && |prefix| > 0
            && TypeAliasText(ta, r)[|prefix| - 1..|prefix| + 2] == ",: "
  {
    var prefix := ta.visibility + "type " + ta.name + GenericParamsText(ta.generics, r)
                  + WhereClauseText(ta.generics, r);
    WhereClauseFramed(ta.generics, r);
    var rest := AliasBoundsText(r, ta.bounds) + AliasedTypeText(r, ta.typeRef);
    AppendAssoc(prefix, AliasBoundsText(r, ta.bounds), AliasedTypeText(r, ta.typeRef));
    assert TypeAliasText(ta, r) == prefix + rest;
    assert prefix[|prefix| - 1] == ',';
    assert rest[..2] == ": ";
  }

  /** A module is shown as `mod ...` unless it is an unnamed crate root,
      which is shown as `extern crate ...`. */
  lemma ModuleForms(md: ModuleData)
    ensures StartsWith(ModuleText(md), "mod ") <==> !(md.name.None? && md.isCrateRoot)
    ensures StartsWith(ModuleText(md), "extern crate ") <==> md.name.None? && md.isCrateRoot
  {
    var s := ModuleText(md);
    if md.name.None? && md.isCrateRoot {
      assert s[0] == 'e';
    } else {
      assert s[0] == 'm';
    }
  }

  /** The macro's kind and name can be read back from its text. */
  lemma MacroTextInjective(a: MacroData, b: MacroData)
    requires MacroText(a) == MacroText(b)
    ensures a == b
  {
    var ka, kb := MacroKeyword(a.kind), MacroKeyword(b.kind);
    var s := MacroText(a);
    assert s == ka + (" " + a.name) && s == kb + (" " + b.name);
    assert a.kind == b.kind by {
      assert a.kind.ProcMacro? <==> s[0] == 'p';
      assert !a.kind.ProcMacro? ==> (a.kind.Macro2? <==> s[5] == ' ');
      assert b.kind.ProcMacro? <==> s[0] == 'p';
      assert !b.kind.ProcMacro? ==> (b.kind.Macro2? <==> s[5] == ' ');
    }
    assert a.name == s[|ka| + 1..] == b.name;
  }

  /** A rename only appends ` as ALIAS`, where `_` stands for an underscore
      import. */
  lemma ExternCrateAlias(ec: ExternCrateData, alias: ImportAlias)
    ensures ExternCrateText(ec.(alias := Some(alias)))
         == ExternCrateText(ec.(alias := None)) + " as " + ImportAliasText(alias)
    ensures ExternCrateText(ec.(alias := Some(Underscore)))
         == ExternCrateText(ec.(alias := None)) + " as _"
  {
    var base := ec.visibility + "extern crate " + ec.name;
    assert ExternCrateText(ec.(alias := None)) == base;
    AppendAssoc(base, " as ", ImportAliasText(alias));
  }

  /** The bound list is hidden exactly in compact mode or when every
      predicate is an implementation of `Sized` and there is at least one. */
  lemma TypeParamBoundsHiddenIff(tp: TypeParam, omitVerboseTypes: bool)
    ensures !ShowsBounds(tp, omitVerboseTypes)
        <==> omitVerboseTypes
             || (tp.predicates != [] && forall k :: 0 <= k < |tp.predicates| ==> tp.predicates[k].Implemented? && tp.predicates[k].isSizedTrait)
    ensures TypeParamText(tp, omitVerboseTypes)
         == if ShowsBounds(tp, omitVerboseTypes) then tp.name + tp.boundsText else tp.name
  {
    assert tp.name + "" == tp.name;
  }

  /** A lone `Sized` bound is implied and left out; a bound other than
      `Sized` is shown. */
  lemma SizedBoundImplied(name: Name, boundsText: string)
    ensures TypeParamText(TypeParam(name, [Implemented(true)], boundsText), false) == name
    ensures TypeParamText(TypeParam(name, [Implemented(true), OtherClause], boundsText), false)
         == name + boundsText
  {
    var tp := TypeParam(name, [Implemented(true), OtherClause], boundsText);
    assert tp.predicates[1] != Implemented(true);
    assert name + "" == name;
  }

  /** A const parameter shown on its own is its clause entry without the
      default, except that its type is shown resolved rather than as written;
      the two coincide only where those renderings agree. */
  lemma ConstParamIsEntryWithoutDefault(r: Renderer, name: Name, ty: TypeRef, default: Option<string>)
    ensures EntryText(r.Resolved(), ConstParamData(name, ty, default))
         == ConstParamText(ConstParam(name, ty), r) + (if default.Some? then " = " + default.value else "")
    ensures r.resolvedTy(ty) == r.ty(ty) ==>
              EntryText(r, ConstParamData(name, ty, default))
              == ConstParamText(ConstParam(name, ty), r) + (if default.Some? then " = " + default.value else "")
  {
  }

  /** Each kind of generic parameter is shown by its own rule. */
  lemma GenericParamDispatch(gp: GenericParam, r: Renderer, omitVerboseTypes: bool)
    ensures gp.LifetimeParamDecl? ==> GenericParamText(gp, r, omitVerboseTypes) == gp.lifetimeName
    ensures gp.ConstParamDecl? ==> StartsWith(GenericParamText(gp, r, omitVerboseTypes), "const ")
    ensures gp.TypeParamDecl? ==> StartsWith(GenericParamText(gp, r, omitVerboseTypes), gp.typeParam.name)
  {
  }
}
