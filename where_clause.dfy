/** The `where` clause of a declaration (`write_where_clause`). Predicates
    are grouped strictly by adjacency: a predicate is merged into the group
    of the one just before it when both have the same kind and target. */
module WhereClause {
  import opened Hir
  import opened Text
  import opened Formatter

  /** A target that is an unnamed (synthesized) entry of the arena. */
  predicate IsUnnamedTypeTarget(p: GenericParams, t: WherePredicateTypeTarget)
    requires p.TargetInRange(t)
  {
    t.ParamTarget? && p.typeOrConsts[t.index].ParamName().None?
  }

  /** Type-bound predicates on an unnamed target are shown inline at the
      argument (`x: impl Trait`), never in the clause. */
  predicate IsHidden(p: GenericParams, pred: WherePredicate)
    requires p.PredicateInRange(pred)
  {
    pred.TypeBound? && IsUnnamedTypeTarget(p, pred.target)
  }

  predicate HasDisplayablePredicate(p: GenericParams)
    requires p.Valid()
  {
    exists i :: 0 <= i < |p.wherePredicates| && !IsHidden(p, p.wherePredicates[i])
  }

  function TargetText(p: GenericParams, r: Renderer, t: WherePredicateTypeTarget): string
    requires p.TargetInRange(t)
  {
    match t
    case TypeRefTarget(ty) => r.ty(ty)
    case ParamTarget(i) =>
      match p.typeOrConsts[i].ParamName()
      case Some(name) => name
      case None => "{unnamed}"
  }

  /** `pred` continues the group of `prev`: same kind and same target, and
      for higher-ranked bounds the same binder list. */
  predicate ContinuesGroup(prev: WherePredicate, pred: WherePredicate)
  {
    match pred
    case TypeBound(target, _) => prev.TypeBound? && prev.target == target
    case Lifetime(target, _) => prev.Lifetime? && prev.lifetimeTarget == target
    case ForLifetime(lifetimes, target, _) =>
      prev.ForLifetime? && prev.lifetimes == lifetimes && prev.target == target
  }

  /** What opens a new group: chosen by the predicate's absolute index in the
      list, not by whether an earlier predicate was displayed. */
  function NewPredicateSep(index: nat): string
  {
    if index == 0 then "\n    " else ",\n    "
  }

  /** The part of a group's first member before its bound: `target: `, or
      `for<'a, 'b> target: `. */
  function GroupHead(p: GenericParams, r: Renderer, pred: WherePredicate): string
    requires p.PredicateInRange(pred)
  {
    match pred
    case TypeBound(target, _) => TargetText(p, r, target) + ": "
    case Lifetime(target, _) => target + ": "
    case ForLifetime(lifetimes, target, _) =>
      "for<" + Join(lifetimes, ", ") + "> " + TargetText(p, r, target) + ": "
  }

  function BoundText(r: Renderer, pred: WherePredicate): string
  {
    match pred
    case TypeBound(_, bound) => r.bound(bound)
    case Lifetime(_, bound) => bound
    case ForLifetime(_, _, bound) => r.bound(bound)
  }

  /** What predicate `i` contributes to the clause. */
  function PredicateText(p: GenericParams, r: Renderer, i: nat): string
    requires p.Valid() && i < |p.wherePredicates|
  {
    var pred := p.wherePredicates[i];
    if IsHidden(p, pred) then ""
    else if i > 0 && ContinuesGroup(p.wherePredicates[i - 1], pred) then " + " + BoundText(r, pred)
    else NewPredicateSep(i) + GroupHead(p, r, pred) + BoundText(r, pred)
  }

  /** The contributions of the first `n` predicates. */
  function PredicatesText(p: GenericParams, r: Renderer, n: nat): string
    requires p.Valid() && n <= |p.wherePredicates|
  {
    if n == 0 then "" else PredicatesText(p, r, n - 1) + PredicateText(p, r, n - 1)
  }

  function WhereClauseText(p: GenericParams, r: Renderer): string
    requires p.Valid()
  {
    if !HasDisplayablePredicate(p) then ""
    else "\nwhere" + PredicatesText(p, r, |p.wherePredicates|) + ","
  }

  // ---------------------------------------------------------------------
  // The writer

  /** `write_target`: a type expression through the leaf formatter, an arena
      entry by its name or as `{unnamed}`. */
  method WriteTarget(p: GenericParams, t: WherePredicateTypeTarget, f: HirFormatter)
    requires p.TargetInRange(t)
    modifies f
    ensures f.buf == old(f.buf) + TargetText(p, f.r, t)
  {
    match t {
      case TypeRefTarget(ty) =>
        f.WriteStr(f.r.ty(ty));
      case ParamTarget(i) =>
        match p.typeOrConsts[i].ParamName() {
          case Some(name) => f.WriteStr(name);
          case None => f.WriteStr("{unnamed}");
        }
    }
  }

  /** The `for<...> ` binder of a higher-ranked predicate. */
  method WriteForBinder(lifetimes: seq<Name>, f: HirFormatter)
    modifies f
    ensures f.buf == old(f.buf) + "for<" + Join(lifetimes, ", ") + "> "
  {
    f.WriteStr("for<");
    for idx := 0 to |lifetimes|
      invariant f.buf == old(f.buf) + "for<" + Join(lifetimes[..idx], ", ")
    {
      if idx != 0 {
        f.WriteStr(", ");
      }
      f.WriteStr(lifetimes[idx]);
      JoinSnoc(lifetimes[..idx], lifetimes[idx], ", ");
      assert lifetimes[..idx + 1] == lifetimes[..idx] + [lifetimes[idx]];
    }
    assert lifetimes[..|lifetimes|] == lifetimes;
    f.WriteStr("> ");
  }

  /** The body of the loop over predicates: writes predicate `i`, looking
      back at predicate `i - 1` only. */
  method WritePredicate(p: GenericParams, i: nat, f: HirFormatter)
    requires p.Valid() && i < |p.wherePredicates|
    modifies f
    ensures f.buf == old(f.buf) + PredicateText(p, f.r, i)
  {
    var pred := p.wherePredicates[i];
    assert p.PredicateInRange(pred);
    var prev := if i == 0 then None else Some(p.wherePredicates[i - 1]);
    var continues := prev.Some? && ContinuesGroup(prev.value, pred);
    if pred.TypeBound? && IsUnnamedTypeTarget(p, pred.target) {
      return;
    }
    ghost var start := f.buf;
    ghost var lead := if continues then " + " else NewPredicateSep(i) + GroupHead(p, f.r, pred);
    if continues {
      f.WriteStr(" + ");
    } else {
      f.WriteStr(NewPredicateSep(i));
      WriteGroupHead(p, pred, f);
    }
    assert f.buf == start + lead;
    match pred {
      case TypeBound(_, bound) => f.WriteStr(f.r.bound(bound));
      case Lifetime(_, bound) => f.WriteStr(bound);
      case ForLifetime(_, _, bound) => f.WriteStr(f.r.bound(bound));
    }
    assert f.buf == (start + lead) + BoundText(f.r, pred);
    AppendAssoc(start, lead, BoundText(f.r, pred));
  }

  /** The target part written when a predicate opens a new group. */
  method WriteGroupHead(p: GenericParams, pred: WherePredicate, f: HirFormatter)
    requires p.PredicateInRange(pred)
    modifies f
    ensures f.buf == old(f.buf) + GroupHead(p, f.r, pred)
  {
    match pred {
      case TypeBound(target, _) =>
        WriteTarget(p, target, f);
        f.WriteStr(": ");
      case Lifetime(target, _) =>
        f.WriteStr(target);
        f.WriteStr(": ");
      case ForLifetime(lifetimes, target, _) =>
        WriteForBinder(lifetimes, f);
        WriteTarget(p, target, f);
        f.WriteStr(": ");
    }
  }

  /** Writes the where clause: nothing when no predicate is displayable,
      else `\nwhere`, every predicate in order, and a final `,`. */
  method WriteWhereClause(p: GenericParams, f: HirFormatter)
    requires p.Valid()
    modifies f
    ensures f.buf == old(f.buf) + WhereClauseText(p, f.r)
  {
    var preds := p.wherePredicates;
    var displayable := exists i :: 0 <= i < |preds| && !IsHidden(p, preds[i]);
    assert displayable == HasDisplayablePredicate(p);
    if !displayable {
      return;
    }
    ghost var start := f.buf;
    ghost var body := PredicatesText(p, f.r, |preds|);
    f.WriteStr("\nwhere");
    WritePredicates(p, f);
    // There is at least one displayed predicate, so the clause is closed here.
    f.WriteStr(",");
    assert f.buf == ((start + "\nwhere") + body) + ",";
    AppendAssoc(start, "\nwhere", body);
    AppendAssoc(start, "\nwhere" + body, ",");
    assert WhereClauseText(p, f.r) == ("\nwhere" + body) + ",";
  }

  /** The loop over predicates, in list order. */
  method WritePredicates(p: GenericParams, f: HirFormatter)
    requires p.Valid()
    modifies f
    ensures f.buf == old(f.buf) + PredicatesText(p, f.r, |p.wherePredicates|)
  {
    ghost var start := f.buf;
    assert PredicatesText(p, f.r, 0) == "";
    AppendEmpty(start);
    for predIdx := 0 to |p.wherePredicates|
      invariant f.buf == start + PredicatesText(p, f.r, predIdx)
    {
      WriteNextPredicate(p, predIdx, f, start);
    }
  }

  /** One iteration of the loop: predicate `n` written after the first `n`. */
  method WriteNextPredicate(p: GenericParams, n: nat, f: HirFormatter, ghost start: string)
    requires p.Valid() && n < |p.wherePredicates|
    requires f.buf == start + PredicatesText(p, f.r, n)
    modifies f
    ensures f.buf == start + PredicatesText(p, f.r, n + 1)
  {
    WritePredicate(p, n, f);
    PredicatesTextStep(p, f.r, n);
    AppendAssoc(start, PredicatesText(p, f.r, n), PredicateText(p, f.r, n));
  }

  // ---------------------------------------------------------------------
  // Properties of the clause

  /** The bounds of a run of predicates, in order. */
  function BoundTexts(r: Renderer, preds: seq<WherePredicate>): (bs: seq<string>)
    ensures |bs| == |preds|
    ensures forall k :: 0 <= k < |preds| ==> bs[k] == BoundText(r, preds[k])
  {
    if |preds| == 0 then []
    else BoundTexts(r, preds[..|preds| - 1]) + [BoundText(r, preds[|preds| - 1])]
  }

  /** The clause is written exactly when some predicate is not a type bound
      on an unnamed parameter. */
  lemma WhereClauseOmittedIff(p: GenericParams, r: Renderer)
    requires p.Valid()
    ensures WhereClauseText(p, r) == ""
        <==> forall i :: 0 <= i < |p.wherePredicates| ==> IsHidden(p, p.wherePredicates[i])
  {
    if HasDisplayablePredicate(p) {
      assert WhereClauseText(p, r)[0] == '\n';
    }
  }

  /** A written clause starts with `\nwhere` and ends with `,`. */
  lemma WhereClauseFramed(p: GenericParams, r: Renderer)
    requires p.Valid() && HasDisplayablePredicate(p)
    ensures StartsWith(WhereClauseText(p, r), "\nwhere")
    ensures EndsWith(WhereClauseText(p, r), ",")
  {
    var body := PredicatesText(p, r, |p.wherePredicates|);
    assert WhereClauseText(p, r) == "\nwhere" + (body + ",");
  }

  /** Continuing a group keeps its visibility: only a type bound on the same
      unnamed target can continue a hidden predicate. */
  lemma ContinuationSharesVisibility(p: GenericParams, prev: WherePredicate, pred: WherePredicate)
    requires p.PredicateInRange(prev) && p.PredicateInRange(pred)
    requires ContinuesGroup(prev, pred)
    ensures IsHidden(p, pred) == IsHidden(p, prev)
  {
  }

  lemma PredicatesTextStep(p: GenericParams, r: Renderer, n: nat)
    requires p.Valid() && n < |p.wherePredicates|
    ensures PredicatesText(p, r, n + 1) == PredicatesText(p, r, n) + PredicateText(p, r, n)
  {
  }

  lemma PredicateTextOpening(p: GenericParams, r: Renderer, k: nat)
    requires p.Valid() && k < |p.wherePredicates|
    requires !IsHidden(p, p.wherePredicates[k])
    requires k == 0 || !ContinuesGroup(p.wherePredicates[k - 1], p.wherePredicates[k])
    ensures PredicateText(p, r, k)
         == NewPredicateSep(k) + GroupHead(p, r, p.wherePredicates[k]) + BoundText(r, p.wherePredicates[k])
  {
  }

  /** A run of predicates, each continuing the one before it and opened by
      a displayed predicate that does not continue its own predecessor. */
  predicate IsRun(p: GenericParams, i: nat, j: nat)
  {
    && p.Valid() && i < j <= |p.wherePredicates|
    && !IsHidden(p, p.wherePredicates[i])
    && (i == 0 || !ContinuesGroup(p.wherePredicates[i - 1], p.wherePredicates[i]))
    && forall k :: i < k < j ==> ContinuesGroup(p.wherePredicates[k - 1], p.wherePredicates[k])
  }

  /** The contributions of the first `n` predicates, one per predicate. */
  function PredicateTexts(p: GenericParams, r: Renderer, n: nat): (ts: seq<string>)
    requires p.Valid() && n <= |p.wherePredicates|
    ensures |ts| == n
    ensures forall k :: 0 <= k < n ==> ts[k] == PredicateText(p, r, k)
  {
    if n == 0 then [] else PredicateTexts(p, r, n - 1) + [PredicateText(p, r, n - 1)]
  }

  /** The text is the concatenation of the contributions. */
  lemma {:induction false} PredicatesTextIsConcat(p: GenericParams, r: Renderer, n: nat)
    requires p.Valid() && n <= |p.wherePredicates|
    ensures PredicatesText(p, r, n) == Concat(PredicateTexts(p, r, n))
  {
    if n > 0 {
      PredicatesTextIsConcat(p, r, n - 1);
      ConcatSnoc(PredicateTexts(p, r, n - 1), PredicateText(p, r, n - 1));
    }
  }

  lemma {:induction false} PredicateTextsPrefix(p: GenericParams, r: Renderer, m: nat, n: nat)
    requires p.Valid() && m <= n <= |p.wherePredicates|
    ensures PredicateTexts(p, r, n)[..m] == PredicateTexts(p, r, m)
  {
    if m == n {
      assert PredicateTexts(p, r, n)[..m] == PredicateTexts(p, r, n);
    } else {
      PredicateTextsPrefix(p, r, m, n - 1);
      PrefixOfSnoc(PredicateTexts(p, r, n - 1), PredicateText(p, r, n - 1), m);
    }
  }

  /** Every member of a run is displayed, since continuing a group keeps the
      target and so its visibility. */
  lemma {:induction false} RunShown(p: GenericParams, i: nat, j: nat)
    requires IsRun(p, i, j)
    ensures forall k :: i <= k < j ==> !IsHidden(p, p.wherePredicates[k])
  {
    if j > i + 1 {
      RunShown(p, i, j - 1);
      var preds := p.wherePredicates;
      assert p.PredicateInRange(preds[j - 2]) && p.PredicateInRange(preds[j - 1]);
      ContinuationSharesVisibility(p, preds[j - 2], preds[j - 1]);
    }
  }

  /** A run renders as one group: the separator chosen by the opening
      index, the opener's target, and every bound of the run joined by " + ". */
  lemma RunRendersAsOneGroup(p: GenericParams, r: Renderer, i: nat, j: nat)
    requires IsRun(p, i, j)
    ensures PredicatesText(p, r, j)
         == PredicatesText(p, r, i) + NewPredicateSep(i) + GroupHead(p, r, p.wherePredicates[i])
            + Join(BoundTexts(r, p.wherePredicates[i..j]), " + ")
  {
    var preds := p.wherePredicates;
    RunShown(p, i, j);
    var all := PredicateTexts(p, r, j);
    var ts := all[i..];
    var bs := BoundTexts(r, preds[i..j]);
    var lead := NewPredicateSep(i) + GroupHead(p, r, preds[i]);
    PredicateTextOpening(p, r, i);
    forall k | 0 < k < |ts|
      ensures ts[k] == " + " + bs[k]
    {
      PredicateTextContinuing(p, r, i + k);
    }
    ConcatOfRun(ts, lead, bs, " + ");
    PredicatesTextIsConcat(p, r, j);
    PredicatesTextIsConcat(p, r, i);
    PredicateTextsPrefix(p, r, i, j);
    SplitAt(all, i);
    ConcatAppend(all[..i], ts);
    AppendAssoc(PredicatesText(p, r, i), lead, Join(bs, " + "));
    AppendAssoc(PredicatesText(p, r, i), NewPredicateSep(i), GroupHead(p, r, preds[i]));
  }

  /** The text of the first `n` predicates is a prefix of that of the first `m`. */
  lemma PredicatesTextPrefix(p: GenericParams, r: Renderer, n: nat, m: nat)
    requires p.Valid() && n <= m <= |p.wherePredicates|
    ensures StartsWith(PredicatesText(p, r, m), PredicatesText(p, r, n))
  {
    var all := PredicateTexts(p, r, m);
    PredicatesTextIsConcat(p, r, m);
    PredicatesTextIsConcat(p, r, n);
    PredicateTextsPrefix(p, r, n, m);
    SplitAt(all, n);
    ConcatAppend(all[..n], all[n..]);
    StartsWithSelfAppend(Concat(all[..n]), Concat(all[n..]));
  }

  /** When every predicate continues the one before it, the clause is a
      single group: `\nwhere\n    target: B1 + B2 + ... ,`. */
  lemma SingleGroupClause(p: GenericParams, r: Renderer)
    requires p.Valid() && |p.wherePredicates| > 0
    requires !IsHidden(p, p.wherePredicates[0])
    requires forall k :: 0 < k < |p.wherePredicates| ==> ContinuesGroup(p.wherePredicates[k - 1], p.wherePredicates[k])
    ensures WhereClauseText(p, r)
         == "\nwhere" + "\n    " + GroupHead(p, r, p.wherePredicates[0])
            + Join(BoundTexts(r, p.wherePredicates), " + ") + ","
  {
    var preds := p.wherePredicates;
    RunRendersAsOneGroup(p, r, 0, |preds|);
    assert preds[0..|preds|] == preds;
    assert HasDisplayablePredicate(p);
    var head := GroupHead(p, r, preds[0]);
    var bounds := Join(BoundTexts(r, preds), " + ");
    var body := PredicatesText(p, r, |preds|);
    assert body == (("" + "\n    ") + head) + bounds;
    AppendEmpty("\n    ");
    assert body == ("\n    " + head) + bounds;
    assert WhereClauseText(p, r) == ("\nwhere" + body) + ",";
    AppendAssoc("\nwhere", "\n    " + head, bounds);
    AppendAssoc("\nwhere", "\n    ", head);
  }

  /** The separator quirk: when the first predicate is hidden, the first
      displayed one is still introduced by ",\n    ", so the clause opens with
      `\nwhere,`. */
  lemma HiddenFirstPredicateLeavesComma(p: GenericParams, r: Renderer)
    requires p.Valid() && |p.wherePredicates| >= 2
    requires IsHidden(p, p.wherePredicates[0]) && !IsHidden(p, p.wherePredicates[1])
    ensures StartsWith(WhereClauseText(p, r), "\nwhere,\n    ")
  {
    var preds := p.wherePredicates;
    assert p.PredicateInRange(preds[0]) && p.PredicateInRange(preds[1]);
    assert !ContinuesGroup(preds[0], preds[1]);
    assert HasDisplayablePredicate(p);
    var two := PredicatesText(p, r, 2);
    assert StartsWith(two, ",\n    ") by {
      PredicatesTextStep(p, r, 0);
      PredicatesTextStep(p, r, 1);
      PredicateTextOpening(p, r, 1);
      var head := GroupHead(p, r, preds[1]);
      var bound := BoundText(r, preds[1]);
      assert PredicatesText(p, r, 1) == "";
      AppendEmpty(PredicateText(p, r, 1));
      AppendAssoc(",\n    ", head, bound);
      StartsWithSelfAppend(",\n    ", head + bound);
    }
    var all := PredicatesText(p, r, |preds|);
    PredicatesTextPrefix(p, r, 2, |preds|);
    StartsWithTrans(all, two, ",\n    ");
    StartsWithPrepend("\nwhere", all, ",\n    ");
    StartsWithExtend("\nwhere" + all, ",", "\nwhere" + ",\n    ");
    assert "\nwhere" + ",\n    " == "\nwhere,\n    ";
  }

  lemma PredicateTextContinuing(p: GenericParams, r: Renderer, k: nat)
    requires p.Valid() && 0 < k < |p.wherePredicates|
    requires !IsHidden(p, p.wherePredicates[k])
    requires ContinuesGroup(p.wherePredicates[k - 1], p.wherePredicates[k])
    ensures PredicateText(p, r, k) == " + " + BoundText(r, p.wherePredicates[k])
  {
  }

  /** The clause of three displayed predicates. */
  lemma ClauseOfThree(p: GenericParams, r: Renderer)
    requires p.Valid() && |p.wherePredicates| == 3
    requires !IsHidden(p, p.wherePredicates[0])
    ensures WhereClauseText(p, r)
         == "\nwhere" + (PredicateText(p, r, 0) + PredicateText(p, r, 1) + PredicateText(p, r, 2)) + ","
  {
    assert HasDisplayablePredicate(p);
    PredicatesTextStep(p, r, 0);
    PredicatesTextStep(p, r, 1);
    PredicatesTextStep(p, r, 2);
    assert PredicatesText(p, r, 1) == PredicateText(p, r, 0);
  }

  /** Adjacent bounds on one target form one group: `T: A`, `T: B`, `U: C`
      render as `T: A + B` and then `U: C`. */
  lemma AdjacentBoundsMerge(p: GenericParams, r: Renderer)
    requires p.Valid() && |p.wherePredicates| == 3
    requires forall k :: 0 <= k < 3 ==> p.wherePredicates[k].TypeBound?
    requires p.wherePredicates[0].target == p.wherePredicates[1].target != p.wherePredicates[2].target
    requires !IsHidden(p, p.wherePredicates[0]) && !IsHidden(p, p.wherePredicates[2])
    ensures var w := p.wherePredicates;
            WhereClauseText(p, r)
            == "\nwhere"
               + ("\n    " + TargetText(p, r, w[0].target) + ": " + r.bound(w[0].bound) + " + " + r.bound(w[1].bound))
               + (",\n    " + TargetText(p, r, w[2].target) + ": " + r.bound(w[2].bound)) + ","
  {
    var w := p.wherePredicates;
    assert p.PredicateInRange(w[0]) && p.PredicateInRange(w[1]) && p.PredicateInRange(w[2]);
    ClauseOfThree(p, r);
    PredicateTextOpening(p, r, 0);
    PredicateTextContinuing(p, r, 1);
    PredicateTextOpening(p, r, 2);
    AppendAssoc("\n    ", TargetText(p, r, w[0].target), ": ");
    AppendAssoc(",\n    ", TargetText(p, r, w[2].target), ": ");
    var open := "\n    " + TargetText(p, r, w[0].target) + ": " + r.bound(w[0].bound);
    AppendAssoc(open, " + ", r.bound(w[1].bound));
  }

  /** Grouping looks only at the immediate predecessor: `T: A`, `U: B`, `T: C`
      names `T` twice. */
  lemma NonAdjacentBoundsStaySeparate(p: GenericParams, r: Renderer)
    requires p.Valid() && |p.wherePredicates| == 3
    requires forall k :: 0 <= k < 3 ==> p.wherePredicates[k].TypeBound?
    requires p.wherePredicates[0].target == p.wherePredicates[2].target != p.wherePredicates[1].target
    requires forall k :: 0 <= k < 3 ==> !IsHidden(p, p.wherePredicates[k])
    ensures var w := p.wherePredicates;
            WhereClauseText(p, r)
            == "\nwhere"
               + ("\n    " + TargetText(p, r, w[0].target) + ": " + r.bound(w[0].bound))
               + (",\n    " + TargetText(p, r, w[1].target) + ": " + r.bound(w[1].bound))
               + (",\n    " + TargetText(p, r, w[0].target) + ": " + r.bound(w[2].bound)) + ","
  {
    var w := p.wherePredicates;
    assert p.PredicateInRange(w[0]) && p.PredicateInRange(w[1]) && p.PredicateInRange(w[2]);
    ClauseOfThree(p, r);
    PredicateTextOpening(p, r, 0);
    PredicateTextOpening(p, r, 1);
    PredicateTextOpening(p, r, 2);
    AppendAssoc("\n    ", TargetText(p, r, w[0].target), ": ");
    AppendAssoc(",\n    ", TargetText(p, r, w[1].target), ": ");
    AppendAssoc(",\n    ", TargetText(p, r, w[0].target), ": ");
  }
}
