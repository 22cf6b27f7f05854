/** String assembly shared by the renderers: separator-joined lists and
    plain concatenation of lines. Both are defined from the right end so
    that a loop that appends one item per iteration matches them step by
    step. */
module Text {

  /** `xs` with `sep` between neighbours and no trailing separator: the
      shape produced by `write_joined` and by every `first`-flag loop. */
  function Join(xs: seq<string>, sep: string): string
  {
    if |xs| == 0 then ""
    else if |xs| == 1 then xs[0]
    else Join(xs[..|xs| - 1], sep) + sep + xs[|xs| - 1]
  }

  /** The same list, joined from the left: the first item, then a separator
      before each following item. An independent reading of `Join`. */
  function JoinFromFront(xs: seq<string>, sep: string): string
  {
    if |xs| == 0 then ""
    else if |xs| == 1 then xs[0]
    else xs[0] + sep + JoinFromFront(xs[1..], sep)
  }

  /** Concatenation of every item, in order. */
  function Concat(xs: seq<string>): string
  {
    if |xs| == 0 then "" else Concat(xs[..|xs| - 1]) + xs[|xs| - 1]
  }

  predicate StartsWith(s: string, prefix: string)
  {
    |prefix| <= |s| && s[..|prefix|] == prefix
  }

  predicate EndsWith(s: string, suffix: string)
  {
    |suffix| <= |s| && s[|s| - |suffix|..] == suffix
  }

  /** Appending is associative; stated once so that a proof can use it
      without unfolding the pieces. */
  lemma AppendAssoc<T>(a: seq<T>, b: seq<T>, c: seq<T>)
    ensures (a + b) + c == a + (b + c)
  {
  }

  /** One more item: a separator is written before it unless it is the first. */
  lemma JoinSnoc(xs: seq<string>, x: string, sep: string)
    ensures Join(xs + [x], sep) == if xs == [] then x else Join(xs, sep) + sep + x
  {
    assert (xs + [x])[..|xs|] == xs;
  }

  /** The same step on a buffer that already holds `prefix`. */
  lemma JoinSnocAfter(prefix: string, xs: seq<string>, x: string, sep: string)
    ensures prefix + Join(xs, sep) + (if xs == [] then [] else sep) + x == prefix + Join(xs + [x], sep)
  {
    JoinSnoc(xs, x, sep);
    if xs == [] {
      assert Join(xs, sep) == [];
      assert prefix + [] + [] == prefix;
    } else {
      AppendAssoc(prefix, Join(xs, sep), sep);
      AppendAssoc(prefix, Join(xs, sep) + sep, x);
    }
  }

  /** Pieces that are a leading item followed by separator-prefixed items
      concatenate to the leader joined with the items. */
  lemma {:induction false} ConcatOfRun(ts: seq<string>, lead: string, bs: seq<string>, sep: string)
    requires |ts| == |bs| > 0
    requires ts[0] == lead + bs[0]
    requires forall k :: 0 < k < |ts| ==> ts[k] == sep + bs[k]
    ensures Concat(ts) == lead + Join(bs, sep)
  {
    var n := |ts|;
    if n == 1 {
      assert ts[..0] == [];
      assert bs[..0] == [];
    } else {
      var ts', bs' := ts[..n - 1], bs[..n - 1];
      ConcatOfRun(ts', lead, bs', sep);
      assert ts == ts' + [ts[n - 1]];
      assert bs == bs' + [bs[n - 1]];
      ConcatSnoc(ts', ts[n - 1]);
      JoinSnoc(bs', bs[n - 1], sep);
      AppendAssoc(lead, Join(bs', sep), sep + bs[n - 1]);
      AppendAssoc(Join(bs', sep), sep, bs[n - 1]);
    }
  }

  lemma PrefixOfSnoc<T>(a: seq<T>, x: T, m: nat)
    requires m <= |a|
    ensures (a + [x])[..m] == a[..m]
  {
  }

  lemma SplitAt<T>(a: seq<T>, i: nat)
    requires i <= |a|
    ensures a == a[..i] + a[i..]
  {
  }

  lemma ConcatSnoc(xs: seq<string>, x: string)
    ensures Concat(xs + [x]) == Concat(xs) + x
  {
    assert (xs + [x])[..|xs|] == xs;
  }

  /** Joining two non-empty lists puts exactly one separator between them. */
  lemma {:induction false} JoinAppend(a: seq<string>, b: seq<string>, sep: string)
    requires a != [] && b != []
    ensures Join(a + b, sep) == Join(a, sep) + sep + Join(b, sep)
  {
    var last := b[|b| - 1];
    var b' := b[..|b| - 1];
    assert b == b' + [last];
    assert a + b == (a + b') + [last];
    JoinSnoc(a + b', last, sep);
    if b' == [] {
      assert a + b' == a;
    } else {
      JoinAppend(a, b', sep);
      JoinSnoc(b', last, sep);
    }
  }

  /** Joining from the left and from the right give the same text. */
  lemma {:induction false} JoinFromFrontAgrees(xs: seq<string>, sep: string)
    ensures JoinFromFront(xs, sep) == Join(xs, sep)
  {
    if |xs| >= 2 {
      JoinFromFrontAgrees(xs[1..], sep);
      assert xs == [xs[0]] + xs[1..];
      JoinAppend([xs[0]], xs[1..], sep);
    }
  }

  /** Concatenation distributes over appending lists. */
  lemma {:induction false} ConcatAppend(a: seq<string>, b: seq<string>)
    ensures Concat(a + b) == Concat(a) + Concat(b)
  {
    if b == [] {
      assert a + b == a;
    } else {
      var last := b[|b| - 1];
      var b' := b[..|b| - 1];
      assert b == b' + [last];
      assert a + b == (a + b') + [last];
      ConcatAppend(a, b');
      ConcatSnoc(a + b', last);
      ConcatSnoc(b', last);
    }
  }

  /** A joined list starts with its first item. */
  lemma {:induction false} JoinStartsWithFirst(xs: seq<string>, sep: string)
    requires xs != []
    ensures StartsWith(Join(xs, sep), xs[0])
  {
    if |xs| > 1 {
      var init := xs[..|xs| - 1];
      JoinStartsWithFirst(init, sep);
      assert init[0] == xs[0];
      AppendAssoc(Join(init, sep), sep, xs[|xs| - 1]);
      StartsWithExtend(Join(init, sep), sep + xs[|xs| - 1], xs[0]);
    }
  }

  /** Appending keeps a prefix. */
  lemma StartsWithExtend(s: string, t: string, prefix: string)
    requires StartsWith(s, prefix)
    ensures StartsWith(s + t, prefix)
  {
    assert (s + t)[..|prefix|] == s[..|prefix|];
  }

  /** Prepending the same text to a string and to its prefix keeps the prefix. */
  lemma StartsWithPrepend(a: string, s: string, prefix: string)
    requires StartsWith(s, prefix)
    ensures StartsWith(a + s, a + prefix)
  {
    assert (a + s)[..|a + prefix|] == a + s[..|prefix|];
  }

  lemma StartsWithTrans(s: string, p: string, q: string)
    requires StartsWith(s, p) && StartsWith(p, q)
    ensures StartsWith(s, q)
  {
    assert s[..|q|] == s[..|p|][..|q|];
  }

  lemma StartsWithSelfAppend(a: string, b: string)
    ensures StartsWith(a + b, a)
  {
    assert (a + b)[..|a|] == a;
  }

  lemma AppendEmpty<T>(a: seq<T>)
    ensures [] + a == a && a + [] == a
  {
  }
}
