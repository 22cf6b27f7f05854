/** The resolved declaration metadata the pretty-printer reads. Every record
    here is what a database query of the front end returns for one
    declaration; the printer never changes any of them. Type expressions and
    trait bounds are kept as values whose rendering belongs to an external
    formatter (`Renderer`); the printer inspects only the few shapes it
    special-cases (the empty tuple, the path `Self`, a reference to `Self`). */
module Hir {

  type Name = string

  datatype Option<T> = None | Some(value: T)

  /** A type expression as written in a declaration. */
  datatype TypeRef =
    | Tuple(elements: seq<TypeRef>)
    | Path(segments: seq<Name>)
    | Reference(inner: TypeRef, lifetime: Option<Name>, mutable: bool)
      /** Any other type expression (arrays, slices, `*const T`, `impl Trait`,
          `dyn Trait`, `fn(..)` types, ...); the printer never looks inside. */
    | Other(description: string)

  const SelfTypeName: Name := "Self"

  /** The path `Self` with no anchor and no generic arguments. */
  predicate IsSelfType(t: TypeRef)
  {
    t == Path([SelfTypeName])
  }

  /** The unit type `()`. */
  predicate IsUnitType(t: TypeRef)
  {
    t == Tuple([])
  }

  /** A trait or lifetime bound as written (`type_ref::TypeBound`). */
  datatype Bound =
    | PathBound(path: seq<Name>, maybe: bool)
    | ForLifetimeBound(binders: seq<Name>, boundPath: seq<Name>)
    | LifetimeBound(lifetimeName: Name)
    | ErrorBound

  /** The external leaf formatters. `ty` shows a type as written
      (`TypeRef::hir_fmt`); `resolvedTy` shows the type the front end
      resolves for it (`Type`/`Ty::hir_fmt`, where aliases are expanded), so
      the two may differ on the same type; `bound` shows a bound. The
      printer's properties hold for every choice of these. */
  datatype Renderer = Renderer(ty: TypeRef -> string, resolvedTy: TypeRef -> string, bound: Bound -> string)
  {
    /** The same formatters with resolved types shown where written types
        would be. */
    function Resolved(): (r: Renderer)
      ensures r.ty == resolvedTy && r.resolvedTy == resolvedTy && r.bound == bound
    {
      this.(ty := resolvedTy)
    }
  }

  // ---------------------------------------------------------------------
  // Generic parameter lists

  datatype TypeParamProvenance = TypeParamList | TraitSelf | ArgumentImplTrait

  /** One entry of the type-or-const arena of a generic parameter list. Only
      type parameters can be unnamed (synthesized for `impl Trait` arguments). */
  datatype TypeOrConstParamData =
    | TypeParamData(typeName: Option<Name>, typeDefault: Option<TypeRef>, provenance: TypeParamProvenance)
    | ConstParamData(constName: Name, constTy: TypeRef, constDefault: Option<string>)
  {
    function ParamName(): Option<Name>
    {
      match this
      case TypeParamData(name, _, _) => name
      case ConstParamData(name, _, _) => Some(name)
    }
  }

  /** What a type-bound predicate constrains: a type expression, or an entry
      of the type-or-const arena by its index. */
  datatype WherePredicateTypeTarget = TypeRefTarget(ty: TypeRef) | ParamTarget(index: nat)

  datatype WherePredicate =
    | TypeBound(target: WherePredicateTypeTarget, bound: Bound)
    | Lifetime(lifetimeTarget: Name, lifetimeBound: Name)
    | ForLifetime(lifetimes: seq<Name>, target: WherePredicateTypeTarget, bound: Bound)

  datatype GenericParams = GenericParams(
    lifetimes: seq<Name>,
    typeOrConsts: seq<TypeOrConstParamData>,
    wherePredicates: seq<WherePredicate>)
  {
    predicate TargetInRange(t: WherePredicateTypeTarget)
    {
      t.ParamTarget? ==> t.index < |typeOrConsts|
    }

    predicate PredicateInRange(pred: WherePredicate)
    {
      !pred.Lifetime? ==> TargetInRange(pred.target)
    }

    /** Every parameter index in a predicate points into this list's own
        arena, as the front end guarantees. */
    predicate Valid()
    {
      forall i :: 0 <= i < |wherePredicates| ==> PredicateInRange(wherePredicates[i])
    }
  }

  // ---------------------------------------------------------------------
  // Declarations

  /** One entry of a function's parameter list: the local binding name, when
      the parameter is a plain identifier pattern, and its declared type. */
  datatype Param = Param(local: Option<Name>, ty: TypeRef)

  /** A function declaration. When `hasSelfParam` holds, `params[0]` is the
      receiver. `retType` is the effective return type, that is, for an
      `async fn` the `Output` type of its desugared `impl Future`. */
  datatype FunctionData = FunctionData(
    visibility: string,
    hasDefaultKw: bool,
    hasConstKw: bool,
    hasAsyncKw: bool,
    isUnsafeToCall: bool,
    abi: Option<string>,
    name: Name,
    generics: GenericParams,
    hasSelfParam: bool,
    params: seq<Param>,
    isVarargs: bool,
    retType: TypeRef)
  {
    predicate Valid()
    {
      generics.Valid() && (hasSelfParam ==> |params| > 0)
    }
  }

  datatype FieldData = FieldData(visibility: string, name: Name, ty: TypeRef)

  datatype StructKind = TupleKind | RecordKind | UnitKind

  datatype StructData = StructData(
    visibility: string, name: Name, generics: GenericParams, kind: StructKind, fields: seq<FieldData>)

  datatype UnionData = UnionData(
    visibility: string, name: Name, generics: GenericParams, fields: seq<FieldData>)

  /** The shape of an enum variant's payload. */
  datatype VariantData = UnitVariant | TupleVariant(tupleFields: seq<FieldData>) | RecordVariant(recordFields: seq<FieldData>)

  datatype Variant = Variant(name: Name, data: VariantData)

  datatype EnumData = EnumData(
    visibility: string, name: Name, generics: GenericParams, variants: seq<Variant>)

  datatype Adt = Struct(st: StructData) | Union(un: UnionData) | Enum(en: EnumData)

  datatype ConstData = ConstData(visibility: string, name: Option<Name>, ty: TypeRef)

  datatype StaticData = StaticData(visibility: string, mutable: bool, name: Name, ty: TypeRef)

  datatype TraitData = TraitData(
    visibility: string, isUnsafe: bool, isAuto: bool, name: Name, generics: GenericParams)

  datatype TraitAliasData = TraitAliasData(visibility: string, name: Name, generics: GenericParams)

  datatype TypeAliasData = TypeAliasData(
    visibility: string, name: Name, generics: GenericParams, bounds: seq<Bound>, typeRef: Option<TypeRef>)

  /** A module: its own name, whether it is the root of its crate, and the
      crate's display name. */
  datatype ModuleData = ModuleData(name: Option<Name>, isCrateRoot: bool, crateDisplayName: Option<string>)

  datatype MacroKind = Macro2 | MacroRules | ProcMacro

  datatype MacroData = MacroData(kind: MacroKind, name: Name)

  datatype ImportAlias = Underscore | Alias(aliasName: Name)

  datatype ExternCrateData = ExternCrateData(visibility: string, name: Name, alias: Option<ImportAlias>)

  /** One predicate on a type parameter after substitution, reduced to what
      the bound-suppression rule asks of it: whether it is an `Implemented`
      clause of the crate's `Sized` lang-item trait. */
  datatype ParamPredicate = Implemented(isSizedTrait: bool) | OtherClause

  /** A type parameter as a declaration of its own. `boundsText` is what the
      external bound-list formatter writes for `predicates`, prefix included. */
  datatype TypeParam = TypeParam(name: Name, predicates: seq<ParamPredicate>, boundsText: string)

  datatype ConstParam = ConstParam(name: Name, ty: TypeRef)

  datatype GenericParam =
    | TypeParamDecl(typeParam: TypeParam)
    | ConstParamDecl(constParam: ConstParam)
    | LifetimeParamDecl(lifetimeName: Name)
}
