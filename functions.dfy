/** A function signature (`impl HirDisplay for Function` and
    `impl HirDisplay for SelfParam`). */
module Functions {
  import opened Hir
  import opened Text
  import opened Formatter
  import opened GenericParamList
  import opened WhereClause

  /** `word` when the flag is set, nothing otherwise. */
  function Keyword(on: bool, word: string): string
  {
    if on then word else ""
  }

  /** The qualifier keywords, each only when set, in this fixed order. */
  function Qualifiers(fd: FunctionData): string
  {
    Keyword(fd.hasDefaultKw, "default ") + Keyword(fd.hasConstKw, "const ")
      + Keyword(fd.hasAsyncKw, "async ") + Keyword(fd.isUnsafeToCall, "unsafe ")
  }

  /** `extern "ABI" ` when an ABI is given; the ABI string is not escaped. */
  function AbiText(abi: Option<string>): (s: string)
    ensures s == "" <==> abi.None?
    ensures abi.Some? ==> s == "extern \"" + abi.value + "\" "
  {
    match abi
    case None => ""
    case Some(name) => "extern \"" + name + "\" "
  }

  /** Everything before the generic clause: visibility, qualifiers, ABI, and
      `fn NAME`. */
  function HeaderText(fd: FunctionData): string
  {
    fd.visibility + Qualifiers(fd) + AbiText(fd.abi) + "fn " + fd.name
  }

  /** The receiver in its shorthand form where one exists. */
  function SelfParamText(r: Renderer, ty: TypeRef): string
  {
    if IsSelfType(ty) then "self"
    else if ty.Reference? && IsSelfType(ty.inner) then
      "&" + (if ty.lifetime.Some? then ty.lifetime.value + " " else "")
        + (if ty.mutable then "mut " else "") + "self"
    else "self: " + r.ty(ty)
  }

  /** `name: T` for a parameter bound to a plain identifier, else `_: T`. */
  function ParamText(r: Renderer, p: Param): string
  {
    (if p.local.Some? then p.local.value else "_") + ": " + r.ty(p.ty)
  }

  /** The rendered parameters, in order. */
  function ParamTexts(r: Renderer, ps: seq<Param>): (ts: seq<string>)
    ensures |ts| == |ps|
    ensures forall k :: 0 <= k < |ps| ==> ts[k] == ParamText(r, ps[k])
  {
    if |ps| == 0 then [] else ParamTexts(r, ps[..|ps| - 1]) + [ParamText(r, ps[|ps| - 1])]
  }

  /** How many leading entries of the parameter list are the receiver. */
  function SelfSkip(fd: FunctionData): nat
  {
    if fd.hasSelfParam then 1 else 0
  }

  /** The comma-separated entries: the receiver first, when there is one,
      then every other parameter. */
  function ParamEntries(fd: FunctionData, r: Renderer): seq<string>
    requires fd.Valid()
  {
    (if fd.hasSelfParam then [SelfParamText(r, fd.params[0].ty)] else [])
      + ParamTexts(r, fd.params[SelfSkip(fd)..])
  }

  function ParamListText(fd: FunctionData, r: Renderer): string
    requires fd.Valid()
  {
    "(" + Join(ParamEntries(fd, r), ", ") + (if fd.isVarargs then ", ..." else "") + ")"
  }

  /** ` -> T`, left out exactly for the unit type. */
  function RetTypeText(r: Renderer, ty: TypeRef): (s: string)
    ensures s == "" <==> IsUnitType(ty)
    ensures !IsUnitType(ty) ==> s == " -> " + r.ty(ty)
  {
    if IsUnitType(ty) then "" else " -> " + r.ty(ty)
  }

  function FunctionText(fd: FunctionData, r: Renderer): string
    requires fd.Valid()
  {
    HeaderText(fd) + GenericParamsText(fd.generics, r) + ParamListText(fd, r)
      + RetTypeText(r, fd.retType) + WhereClauseText(fd.generics, r)
  }

  // ---------------------------------------------------------------------
  // The writer

  method WriteQualifiers(fd: FunctionData, f: HirFormatter)
    modifies f
    ensures f.buf == old(f.buf) + Qualifiers(fd)
  {
    ghost var s := f.buf;
    ghost var k1 := Keyword(fd.hasDefaultKw, "default ");
    ghost var k2 := Keyword(fd.hasConstKw, "const ");
    ghost var k3 := Keyword(fd.hasAsyncKw, "async ");
    ghost var k4 := Keyword(fd.isUnsafeToCall, "unsafe ");
    if fd.hasDefaultKw {
      f.WriteStr("default ");
    }
    if fd.hasConstKw {
      f.WriteStr("const ");
    }
    assert f.buf == (s + k1) + k2;
    if fd.hasAsyncKw {
      f.WriteStr("async ");
    }
    if fd.isUnsafeToCall {
      f.WriteStr("unsafe ");
    }
    assert f.buf == (((s + k1) + k2) + k3) + k4;
    AppendAssoc(s, k1, k2);
    AppendAssoc(s, k1 + k2, k3);
    AppendAssoc(s, k1 + k2 + k3, k4);
  }

  method WriteHeader(fd: FunctionData, f: HirFormatter)
    modifies f
    ensures f.buf == old(f.buf) + HeaderText(fd)
  {
    ghost var s := f.buf;
    f.WriteStr(fd.visibility);
    WriteQualifiers(fd, f);
    ghost var q := f.buf;
    match fd.abi {
      case Some(abi) =>
        f.WriteStr("extern \"");
        f.WriteStr(abi);
        f.WriteStr("\" ");
      case None =>
    }
    assert f.buf == q + AbiText(fd.abi);
    f.WriteStr("fn ");
    f.WriteStr(fd.name);
    ghost var v := fd.visibility;
    ghost var qs := Qualifiers(fd);
    ghost var abi := AbiText(fd.abi);
    assert f.buf == (((((s + v) + qs) + abi) + "fn ") + fd.name);
    AppendAssoc(s, v, qs);
    AppendAssoc(s, v + qs, abi);
    AppendAssoc(s, v + qs + abi, "fn ");
    AppendAssoc(s, v + qs + abi + "fn ", fd.name);
  }

  /** One non-receiver parameter. */
  method WriteParam(p: Param, f: HirFormatter)
    modifies f
    ensures f.buf == old(f.buf) + ParamText(f.r, p)
  {
    ghost var s := f.buf;
    match p.local {
      case Some(name) =>
        f.WriteStr(name);
        f.WriteStr(": ");
      case None =>
        f.WriteStr("_: ");
    }
    assert f.buf == s + ((if p.local.Some? then p.local.value else "_") + ": ");
    f.WriteStr(f.r.ty(p.ty));
    AppendAssoc(s, (if p.local.Some? then p.local.value else "_") + ": ", f.r.ty(p.ty));
  }

  lemma ParamTextsOfRange(r: Renderer, ps: seq<Param>, i: nat, j: nat)
    requires i <= j < |ps|
    ensures ParamTexts(r, ps[i..j + 1]) == ParamTexts(r, ps[i..j]) + [ParamText(r, ps[j])]
  {
    assert ps[i..j + 1][..j - i] == ps[i..j];
  }

  /** The loop over the parameters after the receiver, continuing the list
      `written` already in the output. */
  method WriteParams(fd: FunctionData, f: HirFormatter, first0: bool,
                     ghost base: string, ghost written: seq<string>)
    requires fd.Valid()
    requires first0 == (written == [])
    requires f.buf == base + Join(written, ", ")
    modifies f
    ensures f.buf == base + Join(written + ParamTexts(f.r, fd.params[SelfSkip(fd)..]), ", ")
  {
    var first := first0;
    var skipSelf := SelfSkip(fd);
    var r := f.r;
    ghost var done := written;
    for k := skipSelf to |fd.params|
      invariant done == written + ParamTexts(r, fd.params[skipSelf..k])
      invariant first == (done == [])
      invariant f.buf == base + Join(done, ", ")
    {
      ParamTextsOfRange(r, fd.params, skipSelf, k);
      ghost var e := ParamText(r, fd.params[k]);
      ghost var joined := Join(done, ", ");
      ghost var delim := if first then "" else ", ";
      JoinSnoc(done, e, ", ");
      assert Join(done + [e], ", ") == (joined + delim) + e;
      first := WriteDelim(f, first);
      WriteParam(fd.params[k], f);
      assert f.buf == ((base + joined) + delim) + e;
      AppendAssoc(base, joined, delim);
      AppendAssoc(base, joined + delim, e);
      AppendAssoc(written, ParamTexts(r, fd.params[skipSelf..k]), [e]);
      done := done + [e];
    }
    assert fd.params[skipSelf..|fd.params|] == fd.params[skipSelf..];
  }

  /** `(`, the receiver, the other parameters, `, ...` for varargs, `)`. */
  method WriteParamList(fd: FunctionData, f: HirFormatter)
    requires fd.Valid()
    modifies f
    ensures f.buf == old(f.buf) + ParamListText(fd, f.r)
  {
    f.WriteStr("(");
    ghost var base := f.buf;
    var first := true;
    ghost var written: seq<string> := [];
    if fd.hasSelfParam {
      f.WriteStr(SelfParamText(f.r, fd.params[0].ty));
      first := false;
      written := [SelfParamText(f.r, fd.params[0].ty)];
    }
    WriteParams(fd, f, first, base, written);
    ghost var joined := Join(ParamEntries(fd, f.r), ", ");
    assert f.buf == base + joined;
    ghost var varargs := if fd.isVarargs then ", ..." else "";
    if fd.isVarargs {
      f.WriteStr(", ...");
    }
    f.WriteStr(")");
    assert f.buf == ((old(f.buf) + "(") + joined) + varargs + ")";
    AppendAssoc(old(f.buf), "(", joined);
    AppendAssoc(old(f.buf), "(" + joined, varargs);
    AppendAssoc(old(f.buf), "(" + joined + varargs, ")");
  }

  method WriteRetType(ty: TypeRef, f: HirFormatter)
    modifies f
    ensures f.buf == old(f.buf) + RetTypeText(f.r, ty)
  {
    if !(ty.Tuple? && ty.elements == []) {
      f.WriteStr(" -> ");
      f.WriteStr(f.r.ty(ty));
    }
  }

  /** Writes the whole signature. */
  method FormatFunction(fd: FunctionData, f: HirFormatter)
    requires fd.Valid()
    modifies f
    ensures f.buf == old(f.buf) + FunctionText(fd, f.r)
  {
    ghost var s := f.buf;
    ghost var h := HeaderText(fd);
    ghost var g := GenericParamsText(fd.generics, f.r);
    ghost var pl := ParamListText(fd, f.r);
    ghost var rt := RetTypeText(f.r, fd.retType);
    ghost var w := WhereClauseText(fd.generics, f.r);
    WriteHeader(fd, f);
    WriteGenericParams(fd.generics, f);
    AppendAssoc(s, h, g);
    WriteParamList(fd, f);
    AppendAssoc(s, h + g, pl);
    WriteRetType(fd.retType, f);
    AppendAssoc(s, h + g + pl, rt);
    WriteWhereClause(fd.generics, f);
    AppendAssoc(s, h + g + pl + rt, w);
  }

  // ---------------------------------------------------------------------
  // Properties of the signature

  /** A keyword slot can be read back: when neither rest starts like the
      keyword, equal texts have equal flags and equal rests. */
  lemma KeywordPrefix(x1: bool, x2: bool, w: string, s1: string, s2: string)
    requires |w| > 0
    requires s1 == [] || s1[0] != w[0]
    requires s2 == [] || s2[0] != w[0]
    requires Keyword(x1, w) + s1 == Keyword(x2, w) + s2
    ensures x1 == x2 && s1 == s2
  {
    var t := Keyword(x1, w) + s1;
    assert x1 ==> t[0] == w[0] && t[|w|..] == s1;
    assert x2 ==> t[0] == w[0] && t[|w|..] == s2;
    assert !x1 ==> t == s1;
    assert !x2 ==> t == s2;
  }

  /** What can follow the `default ` slot never starts like it, and so on
      down the slots. */
  lemma QualifierTailsDiffer(c: bool, y: bool, u: bool)
    ensures var t := Keyword(c, "const ") + (Keyword(y, "async ") + Keyword(u, "unsafe "));
            t == [] || t[0] != 'd'
    ensures var t := Keyword(y, "async ") + Keyword(u, "unsafe ");
            t == [] || t[0] != 'c'
    ensures var t := Keyword(u, "unsafe ");
            t == [] || t[0] != 'a'
  {
  }

  lemma Reassociate4(w: string, x: string, y: string, z: string)
    ensures ((w + x) + y) + z == w + (x + (y + z))
  {
    AppendAssoc(w, x, y);
    AppendAssoc(w, x + y, z);
    AppendAssoc(x, y, z);
  }

  /** The last two slots determine their flags. */
  lemma AsyncUnsafeInjective(y1: bool, u1: bool, y2: bool, u2: bool)
    requires Keyword(y1, "async ") + Keyword(u1, "unsafe ") == Keyword(y2, "async ") + Keyword(u2, "unsafe ")
    ensures y1 == y2 && u1 == u2
  {
    var u1', u2' := Keyword(u1, "unsafe "), Keyword(u2, "unsafe ");
    AppendEmpty(u1');
    AppendEmpty(u2');
    QualifierTailsDiffer(false, y1, u1);
    QualifierTailsDiffer(false, y2, u2);
    KeywordPrefix(y1, y2, "async ", u1', u2');
    KeywordPrefix(u1, u2, "unsafe ", [], []);
  }

  /** The last three slots determine their flags. */
  lemma ConstAsyncUnsafeInjective(c1: bool, y1: bool, u1: bool, c2: bool, y2: bool, u2: bool)
    requires Keyword(c1, "const ") + (Keyword(y1, "async ") + Keyword(u1, "unsafe "))
          == Keyword(c2, "const ") + (Keyword(y2, "async ") + Keyword(u2, "unsafe "))
    ensures c1 == c2 && y1 == y2 && u1 == u2
  {
    var t1 := Keyword(y1, "async ") + Keyword(u1, "unsafe ");
    var t2 := Keyword(y2, "async ") + Keyword(u2, "unsafe ");
    QualifierTailsDiffer(c1, y1, u1);
    QualifierTailsDiffer(c2, y2, u2);
    KeywordPrefix(c1, c2, "const ", t1, t2);
    AsyncUnsafeInjective(y1, u1, y2, u2);
  }

  lemma QualifiersRightNested(fd: FunctionData)
    ensures Qualifiers(fd) == Keyword(fd.hasDefaultKw, "default ") + (Keyword(fd.hasConstKw, "const ")
              + (Keyword(fd.hasAsyncKw, "async ") + Keyword(fd.isUnsafeToCall, "unsafe ")))
  {
    Reassociate4(Keyword(fd.hasDefaultKw, "default "), Keyword(fd.hasConstKw, "const "),
                 Keyword(fd.hasAsyncKw, "async "), Keyword(fd.isUnsafeToCall, "unsafe "));
  }

  /** The `default ` slot is determined, and so is what follows it. */
  lemma DefaultSlotInjective(d1: bool, d2: bool, c1: bool, y1: bool, u1: bool, c2: bool, y2: bool, u2: bool)
    requires Keyword(d1, "default ") + (Keyword(c1, "const ") + (Keyword(y1, "async ") + Keyword(u1, "unsafe ")))
          == Keyword(d2, "default ") + (Keyword(c2, "const ") + (Keyword(y2, "async ") + Keyword(u2, "unsafe ")))
    ensures d1 == d2
    ensures Keyword(c1, "const ") + (Keyword(y1, "async ") + Keyword(u1, "unsafe "))
         == Keyword(c2, "const ") + (Keyword(y2, "async ") + Keyword(u2, "unsafe "))
  {
    QualifierTailsDiffer(c1, y1, u1);
    QualifierTailsDiffer(c2, y2, u2);
    KeywordPrefix(d1, d2, "default ", Keyword(c1, "const ") + (Keyword(y1, "async ") + Keyword(u1, "unsafe ")),
                  Keyword(c2, "const ") + (Keyword(y2, "async ") + Keyword(u2, "unsafe ")));
  }

  /** The qualifiers are unambiguous: the text determines every flag. */
  lemma QualifiersInjective(a: FunctionData, b: FunctionData)
    requires Qualifiers(a) == Qualifiers(b)
    ensures a.hasDefaultKw == b.hasDefaultKw && a.hasConstKw == b.hasConstKw
    ensures a.hasAsyncKw == b.hasAsyncKw && a.isUnsafeToCall == b.isUnsafeToCall
  {
    QualifiersRightNested(a);
    QualifiersRightNested(b);
    DefaultSlotInjective(a.hasDefaultKw, b.hasDefaultKw, a.hasConstKw, a.hasAsyncKw, a.isUnsafeToCall, b.hasConstKw, b.hasAsyncKw, b.isUnsafeToCall);
    ConstAsyncUnsafeInjective(a.hasConstKw, a.hasAsyncKw, a.isUnsafeToCall, b.hasConstKw, b.hasAsyncKw, b.isUnsafeToCall);
  }

  /** The receiver is written as `self: T` exactly when its type is neither
      `Self` nor a reference to `Self`; the shorthand forms end in `self`. */
  lemma SelfParamForms(r: Renderer, ty: TypeRef)
    ensures var shorthand := IsSelfType(ty) || (ty.Reference? && IsSelfType(ty.inner));
            && (StartsWith(SelfParamText(r, ty), "self: ") <==> !shorthand)
            && (shorthand ==> EndsWith(SelfParamText(r, ty), "self"))
            && (!shorthand ==> SelfParamText(r, ty) == "self: " + r.ty(ty))
  {
    var s := SelfParamText(r, ty);
    if ty.Reference? && IsSelfType(ty.inner) && !IsSelfType(ty) {
      assert s[0] == '&';
    }
  }

  /** A reference receiver keeps its lifetime and mutability, in that order. */
  lemma SelfReferenceForm(r: Renderer, inner: TypeRef, lifetime: Option<Name>, mutable: bool)
    requires IsSelfType(inner)
    ensures SelfParamText(r, Reference(inner, lifetime, mutable))
         == "&" + (match lifetime case Some(l) => l + " " case None => "")
            + (if mutable then "mut " else "") + "self"
  {
  }

  /** The receiver comes first in the parameter list. */
  lemma ReceiverComesFirst(fd: FunctionData, r: Renderer)
    requires fd.Valid() && fd.hasSelfParam
    ensures StartsWith(ParamListText(fd, r), "(" + SelfParamText(r, fd.params[0].ty))
  {
    var entries := ParamEntries(fd, r);
    JoinStartsWithFirst(entries, ", ");
    var joined := Join(entries, ", ");
    StartsWithPrepend("(", joined, SelfParamText(r, fd.params[0].ty));
    var tail := (if fd.isVarargs then ", ..." else "") + ")";
    StartsWithExtend("(" + joined, tail, "(" + SelfParamText(r, fd.params[0].ty));
    AppendAssoc("(" + joined, if fd.isVarargs then ", ..." else "", ")");
  }

  /** Every parameter after the receiver is rendered, in order, as
      `name: T` or `_: T`. */
  lemma ParameterEntriesInOrder(fd: FunctionData, r: Renderer, k: nat)
    requires fd.Valid() && SelfSkip(fd) <= k < |fd.params|
    ensures ParamEntries(fd, r)[k] == ParamText(r, fd.params[k])
    ensures |ParamEntries(fd, r)| == |fd.params|
  {
  }

  /** Varargs add `, ...` even when nothing precedes them. */
  lemma VarargsWithoutParameters(fd: FunctionData, r: Renderer)
    requires fd.Valid() && fd.isVarargs && !fd.hasSelfParam && fd.params == []
    ensures ParamListText(fd, r) == "(, ...)"
  {
    assert ParamEntries(fd, r) == [];
  }

  /** The signature of a function taking and returning nothing, with no
      qualifiers, generics or ABI. */
  lemma PlainSignature(fd: FunctionData, r: Renderer)
    requires fd.Valid()
    requires !fd.hasDefaultKw && !fd.hasConstKw && !fd.hasAsyncKw && !fd.isUnsafeToCall
    requires fd.abi.None? && !fd.hasSelfParam && fd.params == [] && !fd.isVarargs
    requires fd.generics == GenericParams([], [], []) && IsUnitType(fd.retType)
    ensures FunctionText(fd, r) == fd.visibility + "fn " + fd.name + "()"
  {
    assert ParamEntries(fd, r) == [];
    assert !NeedsGenericClause(fd.generics);
    assert !HasDisplayablePredicate(fd.generics);
  }
}
