/** The `<...>` clause of a declaration (`write_generic_params`). */
module GenericParamList {
  import opened Hir
  import opened Text
  import opened Formatter

  /** The clause is written unless there are no lifetimes, no const
      parameters and no type parameter written in the parameter list. */
  predicate NeedsGenericClause(p: GenericParams)
  {
    || |p.lifetimes| > 0
    || (exists i :: 0 <= i < |p.typeOrConsts| && p.typeOrConsts[i].ConstParamData?)
    || (exists i :: 0 <= i < |p.typeOrConsts| && p.typeOrConsts[i].TypeParamData?
                       && p.typeOrConsts[i].provenance == TypeParamList)
  }

  /** An entry of the type-or-const arena that appears in the clause: it has
      a name, and it is a const parameter or an explicitly written type
      parameter. */
  predicate IsListed(tc: TypeOrConstParamData)
  {
    tc.ParamName().Some? && (tc.ConstParamData? || tc.provenance == TypeParamList)
  }

  /** `T`, `T = Default`, `const N: Ty` or `const N: Ty = value`. */
  function EntryText(r: Renderer, tc: TypeOrConstParamData): string
    requires IsListed(tc)
  {
    match tc
    case TypeParamData(name, default, _) =>
      name.value + (if default.Some? then " = " + r.ty(default.value) else "")
    case ConstParamData(name, ty, default) =>
      "const " + name + ": " + r.ty(ty) + (if default.Some? then " = " + default.value else "")
  }

  /** The rendered listed entries, in arena order. */
  function ListedEntries(r: Renderer, tcs: seq<TypeOrConstParamData>): seq<string>
  {
    if |tcs| == 0 then []
    else
      var last := tcs[|tcs| - 1];
      ListedEntries(r, tcs[..|tcs| - 1]) + (if IsListed(last) then [EntryText(r, last)] else [])
  }

  function GenericParamsText(p: GenericParams, r: Renderer): string
  {
    if !NeedsGenericClause(p) then ""
    else "<" + Join(p.lifetimes + ListedEntries(r, p.typeOrConsts), ", ") + ">"
  }

  lemma ListedEntriesSnoc(r: Renderer, tcs: seq<TypeOrConstParamData>, j: nat)
    requires j < |tcs|
    ensures ListedEntries(r, tcs[..j + 1])
         == ListedEntries(r, tcs[..j]) + (if IsListed(tcs[j]) then [EntryText(r, tcs[j])] else [])
  {
    assert tcs[..j + 1][..j] == tcs[..j];
  }

  /** The `first`-flag separator (the `delim` closure here, the inline flag
      of the parameter and tuple-variant loops): nothing before the first
      item, ", " before every later one. */
  method WriteDelim(f: HirFormatter, first: bool) returns (first': bool)
    modifies f
    ensures !first'
    ensures f.buf == old(f.buf) + (if first then "" else ", ")
  {
    if !first {
      f.WriteStr(", ");
    }
    first' := false;
  }

  /** Writes one listed entry of the type-or-const arena. */
  method WriteEntry(tc: TypeOrConstParamData, f: HirFormatter)
    requires IsListed(tc)
    modifies f
    ensures f.buf == old(f.buf) + EntryText(f.r, tc)
  {
    match tc {
      case TypeParamData(name, default, _) =>
        f.WriteStr(name.value);
        if default.Some? {
          ghost var mid := f.buf;
          f.WriteStr(" = ");
          f.WriteStr(f.r.ty(default.value));
          AppendAssoc(mid, " = ", f.r.ty(default.value));
        }
      case ConstParamData(name, ty, default) =>
        ghost var start := f.buf;
        f.WriteStr("const ");
        f.WriteStr(name);
        f.WriteStr(": ");
        f.WriteStr(f.r.ty(ty));
        assert f.buf == start + ("const " + name + ": " + f.r.ty(ty));
        if default.Some? {
          ghost var mid := f.buf;
          f.WriteStr(" = ");
          f.WriteStr(default.value);
          AppendAssoc(mid, " = ", default.value);
        }
    }
  }

  /** The loop over the type-or-const arena: each listed entry after a
      delimiter, the others skipped. `written` is what is already in the
      clause and `first` whether that is nothing. */
  method WriteListedEntries(tcs: seq<TypeOrConstParamData>, f: HirFormatter, first0: bool,
                            ghost base: string, ghost written: seq<string>)
    requires first0 == (written == [])
    requires f.buf == base + Join(written, ", ")
    modifies f
    ensures f.buf == base + Join(written + ListedEntries(f.r, tcs), ", ")
  {
    var first := first0;
    var r := f.r;
    ghost var done := written;
    for j := 0 to |tcs|
      invariant done == written + ListedEntries(r, tcs[..j])
      invariant first == (done == [])
      invariant f.buf == base + Join(done, ", ")
    {
      ListedEntriesSnoc(r, tcs, j);
      var tc := tcs[j];
      // Unnamed entries and type parameters not written in the list are skipped.
      if IsListed(tc) {
        ghost var e := EntryText(r, tc);
        ghost var joined := Join(done, ", ");
        ghost var delim := if first then "" else ", ";
        JoinSnoc(done, e, ", ");
        assert Join(done + [e], ", ") == (joined + delim) + e;
        first := WriteDelim(f, first);
        WriteEntry(tc, f);
        assert f.buf == ((base + joined) + delim) + e;
        AppendAssoc(base, joined, delim);
        AppendAssoc(base, joined + delim, e);
        AppendAssoc(written, ListedEntries(r, tcs[..j]), [e]);
        done := done + [e];
      } else {
        assert ListedEntries(r, tcs[..j + 1]) == ListedEntries(r, tcs[..j]);
      }
    }
    assert tcs[..|tcs|] == tcs;
  }

  /** The loop over the lifetimes: each one after a delimiter. */
  method WriteLifetimes(lifetimes: seq<Name>, f: HirFormatter) returns (first: bool)
    modifies f
    ensures first == (lifetimes == [])
    ensures f.buf == old(f.buf) + Join(lifetimes, ", ")
  {
    ghost var base := f.buf;
    first := true;
    for i := 0 to |lifetimes|
      invariant first == (i == 0)
      invariant f.buf == base + Join(lifetimes[..i], ", ")
    {
      ghost var done := lifetimes[..i];
      assert done == [] <==> i == 0;
      first := WriteDelim(f, first);
      f.WriteStr(lifetimes[i]);
      JoinSnocAfter(base, done, lifetimes[i], ", ");
      assert lifetimes[..i + 1] == done + [lifetimes[i]];
    }
    assert lifetimes[..|lifetimes|] == lifetimes;
  }

  /** Writes the generic parameter clause: lifetimes first, then the listed
      type and const entries, separated by ", ". */
  method WriteGenericParams(p: GenericParams, f: HirFormatter)
    modifies f
    ensures f.buf == old(f.buf) + GenericParamsText(p, f.r)
  {
    if !NeedsGenericClause(p) {
      return;
    }
    f.WriteStr("<");
    ghost var base := f.buf;
    var first := WriteLifetimes(p.lifetimes, f);
    WriteListedEntries(p.typeOrConsts, f, first, base, p.lifetimes);
    f.WriteStr(">");
    ghost var inner := Join(p.lifetimes + ListedEntries(f.r, p.typeOrConsts), ", ");
    AppendAssoc(old(f.buf), "<", inner);
    AppendAssoc(old(f.buf), "<" + inner, ">");
  }

  // ---------------------------------------------------------------------
  // Properties of the clause

  /** The clause is empty exactly when there is no lifetime, no const
      parameter and no type parameter from the parameter list. */
  lemma GenericClauseOmittedIff(p: GenericParams, r: Renderer)
    ensures GenericParamsText(p, r) == ""
        <==> && |p.lifetimes| == 0
             && (forall i :: 0 <= i < |p.typeOrConsts| ==> !p.typeOrConsts[i].ConstParamData?)
             && (forall i :: 0 <= i < |p.typeOrConsts| && p.typeOrConsts[i].TypeParamData?
                   ==> p.typeOrConsts[i].provenance != TypeParamList)
  {
    if NeedsGenericClause(p) {
      assert GenericParamsText(p, r)[0] == '<';
    }
  }

  /** The listed entries of a concatenation are those of each part. */
  lemma {:induction false} ListedEntriesAppend(r: Renderer, a: seq<TypeOrConstParamData>, b: seq<TypeOrConstParamData>)
    ensures ListedEntries(r, a + b) == ListedEntries(r, a) + ListedEntries(r, b)
  {
    if b == [] {
      assert a + b == a;
    } else {
      var b' := b[..|b| - 1];
      assert (a + b)[..|a + b| - 1] == a + b';
      assert (a + b)[|a + b| - 1] == b[|b| - 1];
      ListedEntriesAppend(r, a, b');
    }
  }

  /** A synthetic or unnamed entry leaves no trace in the clause. */
  lemma UnlistedEntrySkipped(r: Renderer, a: seq<TypeOrConstParamData>, t: TypeOrConstParamData, b: seq<TypeOrConstParamData>)
    requires !IsListed(t)
    ensures ListedEntries(r, a + [t] + b) == ListedEntries(r, a + b)
  {
    ListedEntriesAppend(r, a + [t], b);
    ListedEntriesAppend(r, a, [t]);
    ListedEntriesAppend(r, a, b);
    assert [t][..0] == [];
  }

  /** Every listed entry is rendered, in declaration order: entry `k` is at
      the position given by the number of listed entries before it. */
  lemma ListedEntryAt(r: Renderer, tcs: seq<TypeOrConstParamData>, k: nat)
    requires k < |tcs| && IsListed(tcs[k])
    ensures |ListedEntries(r, tcs[..k])| < |ListedEntries(r, tcs)|
    ensures ListedEntries(r, tcs)[|ListedEntries(r, tcs[..k])|] == EntryText(r, tcs[k])
  {
    assert tcs == tcs[..k + 1] + tcs[k + 1..];
    ListedEntriesAppend(r, tcs[..k + 1], tcs[k + 1..]);
    ListedEntriesSnoc(r, tcs, k);
  }

  /** When the clause is written it is `<`, the lifetimes joined by ", ",
      then (after one more ", " when both parts are present) the listed
      entries joined by ", ", then `>`: all lifetimes come first. */
  lemma GenericClauseLayout(p: GenericParams, r: Renderer)
    requires NeedsGenericClause(p)
    ensures var lts := p.lifetimes;
            var entries := ListedEntries(r, p.typeOrConsts);
            GenericParamsText(p, r)
              == "<" + Join(lts, ", ") + (if lts != [] && entries != [] then ", " else "")
                 + Join(entries, ", ") + ">"
  {
    var lts := p.lifetimes;
    var entries := ListedEntries(r, p.typeOrConsts);
    if lts == [] {
      assert lts + entries == entries;
    } else if entries == [] {
      assert lts + entries == lts;
    } else {
      JoinAppend(lts, entries, ", ");
    }
  }

  /** A clause that is written starts with `<` and ends with `>`. */
  lemma GenericClauseDelimited(p: GenericParams, r: Renderer)
    requires NeedsGenericClause(p)
    ensures var t := GenericParamsText(p, r);
            |t| >= 2 && t[0] == '<' && t[|t| - 1] == '>'
  {
  }
}
