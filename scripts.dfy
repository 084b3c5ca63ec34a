/**
 * The shared helpers of the richer variant: the slug normaliser, the bounded
 * text cut and the key/list store over the browser's local storage.
 */
module Scripts {
  import opened JsBuiltins

  // ---------------------------------------------------------------------------
  // slugify
  // ---------------------------------------------------------------------------

  /** The characters the pattern `[a-z0-9]` accepts. */
  predicate IsSlugAlnum(c: char) {
    'a' <= c <= 'z' || '0' <= c <= '9'
  }

  /** ASCII letters of either case and digits: what lowering turns into `[a-z0-9]`. */
  predicate IsAsciiAlnum(c: char) {
    'a' <= c <= 'z' || 'A' <= c <= 'Z' || '0' <= c <= '9'
  }

  /** `s` holds an ASCII letter or digit. */
  predicate HasAsciiAlnum(s: string) {
    exists i :: 0 <= i < |s| && IsAsciiAlnum(s[i])
  }

  /** Positions `i - 1` and `i` of `s` both hold `-`. */
  predicate DashPairAt(s: string, i: int) {
    0 < i < |s| && s[i - 1] == '-' && s[i] == '-'
  }

  /** What collapsing leaves: only `[a-z0-9-]`, never two `-` in a row. */
  predicate IsCollapsed(s: string) {
    && (forall i :: 0 <= i < |s| ==> IsSlugAlnum(s[i]) || s[i] == '-')
    && (forall i :: 0 < i < |s| ==> !DashPairAt(s, i))
  }

  /** A slug: only `[a-z0-9-]`, never two `-` in a row, no `-` at either end. */
  predicate IsSlug(s: string) {
    IsCollapsed(s) && (s != [] ==> s[0] != '-' && s[|s| - 1] != '-')
  }

  /** The `[a-z0-9]` characters of `s`, in order: the content a slug keeps. */
  function Alnums(s: string): string {
    Filter(IsSlugAlnum, s)
  }

  /** Skips a leading run of characters outside `[a-z0-9]`. */
  function SkipRun(s: string): (r: string)
    ensures |r| <= |s| && r == s[|s| - |r|..]
    ensures forall i :: 0 <= i < |s| - |r| ==> !IsSlugAlnum(s[i])
    ensures r == [] || IsSlugAlnum(r[0])
  {
    if s != [] && !IsSlugAlnum(s[0]) then
      var r := SkipRun(s[1..]);
      assert forall i :: 1 <= i < |s| - |r| ==> s[i] == s[1..][i - 1];
      r
    else s
  }

  /** Removing a prefix that holds no `[a-z0-9]` keeps the slug content. */
  lemma SkipRunKeepsAlnums(s: string)
    ensures Alnums(SkipRun(s)) == Alnums(s)
  {
    var r := SkipRun(s);
    var k := |s| - |r|;
    var head := s[..k];
    assert s == head + r;
    FilterAppend(IsSlugAlnum, head, r);
    assert forall i :: 0 <= i < |head| ==> !IsSlugAlnum(head[i]);
    FilterDropsAll(IsSlugAlnum, head);
  }

  /** Dropping the first character of collapsed text leaves collapsed text. */
  lemma CollapsedTail(t: string)
    requires t != [] && IsCollapsed(t)
    ensures IsCollapsed(t[1..])
  {
    var u := t[1..];
    forall i | 0 <= i < |u| ensures IsSlugAlnum(u[i]) || u[i] == '-' {
      assert u[i] == t[i + 1];
    }
    forall i | 0 < i < |u| ensures !DashPairAt(u, i) {
      assert !DashPairAt(t, i + 1);
    }
  }

  /** Dropping the last character of collapsed text leaves collapsed text. */
  lemma CollapsedInit(t: string)
    requires t != [] && IsCollapsed(t)
    ensures IsCollapsed(t[..|t| - 1])
  {
    var u := t[..|t| - 1];
    forall i | 0 < i < |u| ensures !DashPairAt(u, i) {
      assert !DashPairAt(t, i);
    }
  }

  /** A letter or digit, or a `-` not followed by another, can be put in front of collapsed text. */
  lemma CollapsedCons(c: char, t: string)
    requires IsCollapsed(t)
    requires IsSlugAlnum(c) || (c == '-' && (t == [] || t[0] != '-'))
    ensures IsCollapsed([c] + t)
  {
    var u := [c] + t;
    forall i | 0 <= i < |u| ensures IsSlugAlnum(u[i]) || u[i] == '-' {
      if i > 0 {
        assert u[i] == t[i - 1];
      }
    }
    forall i | 0 < i < |u| ensures !DashPairAt(u, i) {
      if i > 1 {
        assert !DashPairAt(t, i - 1);
      }
    }
  }

  /**
   * `.replace(/[^a-z0-9]+/g, "-")`: every maximal run of characters outside
   * `[a-z0-9]` becomes a single `-`; the `[a-z0-9]` characters stay as they are.
   */
  function CollapseRuns(s: string): string
    decreases |s|
  {
    if s == [] then []
    else if IsSlugAlnum(s[0]) then [s[0]] + CollapseRuns(s[1..])
    else
      var rest := SkipRun(s);
      assert rest != s;
      "-" + CollapseRuns(rest)
  }

  /**
   * Collapsing leaves only `[a-z0-9-]` with no `--`, is empty only for empty
   * input, and starts with `-` exactly when the input starts outside `[a-z0-9]`.
   */
  lemma {:induction false} CollapseRunsShape(s: string)
    ensures IsCollapsed(CollapseRuns(s))
    ensures CollapseRuns(s) == [] <==> s == []
    ensures CollapseRuns(s) != [] ==> (CollapseRuns(s)[0] == '-' <==> !IsSlugAlnum(s[0]))
    decreases |s|
  {
    if s != [] {
      if IsSlugAlnum(s[0]) {
        CollapseRunsShape(s[1..]);
        CollapsedCons(s[0], CollapseRuns(s[1..]));
      } else {
        var rest := SkipRun(s);
        assert rest != s;
        CollapseRunsShape(rest);
        CollapsedCons('-', CollapseRuns(rest));
      }
    }
  }

  /** Collapsing keeps the `[a-z0-9]` characters, in order. */
  lemma {:induction false} CollapseRunsKeepsAlnums(s: string)
    ensures Alnums(CollapseRuns(s)) == Alnums(s)
    decreases |s|
  {
    if s != [] {
      if IsSlugAlnum(s[0]) {
        var tail := CollapseRuns(s[1..]);
        CollapseRunsKeepsAlnums(s[1..]);
        assert ([s[0]] + tail)[1..] == tail;
        assert Alnums([s[0]] + tail) == [s[0]] + Alnums(tail);
      } else {
        var rest := SkipRun(s);
        assert rest != s;
        var tail := CollapseRuns(rest);
        CollapseRunsKeepsAlnums(rest);
        SkipRunKeepsAlnums(s);
        assert ("-" + tail)[1..] == tail;
        assert Alnums("-" + tail) == Alnums(tail);
        assert Alnums(s) == Alnums(s[1..]);
      }
    }
  }

  /** A run of characters outside `[a-z0-9]` is skipped up to the next letter or digit. */
  lemma {:induction false} SkipRunPast(w: string, v: string)
    requires forall i :: 0 <= i < |w| ==> !IsSlugAlnum(w[i])
    requires v == [] || IsSlugAlnum(v[0])
    ensures SkipRun(w + v) == v
  {
    if w == [] {
      assert w + v == v;
      assert v == [] || IsSlugAlnum(v[0]);
    } else {
      var x := w + v;
      assert x[0] == w[0] && x[1..] == w[1..] + v;
      assert SkipRun(x) == SkipRun(x[1..]);
      SkipRunPast(w[1..], v);
    }
  }

  /** A leading letter or digit passes the collapse unchanged. */
  lemma CollapseRunsAlnumHead(c: char, t: string)
    requires IsSlugAlnum(c)
    ensures CollapseRuns([c] + t) == [c] + CollapseRuns(t)
  {
    assert ([c] + t)[1..] == t;
  }

  /** A leading run of characters outside `[a-z0-9]` collapses to one `-`. */
  lemma CollapseRunsRun(w: string, v: string)
    requires w != [] && forall i :: 0 <= i < |w| ==> !IsSlugAlnum(w[i])
    requires v == [] || IsSlugAlnum(v[0])
    ensures CollapseRuns(w + v) == "-" + CollapseRuns(v)
  {
    SkipRunPast(w, v);
    assert (w + v)[0] == w[0];
  }

  /**
   * A run of characters outside `[a-z0-9]` between two stretches of text
   * becomes exactly one `-`: `u + w + v` collapses to `u`, a dash, and the
   * collapse of `v`.
   */
  lemma {:induction false} CollapseRunsSeparates(u: string, w: string, v: string)
    requires forall i :: 0 <= i < |u| ==> IsSlugAlnum(u[i])
    requires w != [] && forall i :: 0 <= i < |w| ==> !IsSlugAlnum(w[i])
    requires v == [] || IsSlugAlnum(v[0])
    ensures CollapseRuns(u + w + v) == u + "-" + CollapseRuns(v)
  {
    var cv := CollapseRuns(v);
    if u == [] {
      assert u + w + v == w + v;
      assert u + "-" + cv == "-" + cv;
      CollapseRunsRun(w, v);
    } else {
      var t, rest := u[1..], u[1..] + w + v;
      assert CollapseRuns(rest) == t + "-" + cv by {
        CollapseRunsSeparates(t, w, v);
      }
      assert CollapseRuns([u[0]] + rest) == [u[0]] + CollapseRuns(rest) by {
        CollapseRunsAlnumHead(u[0], rest);
      }
      assert u + w + v == [u[0]] + rest;
      assert [u[0]] + (t + "-" + cv) == u + "-" + cv;
    }
  }

  /** `.replace(/(^-|-$)/g, "")`: drops one `-` at the start and one at the end. */
  function StripEdgeDashes(s: string): string {
    var t := if s != [] && s[0] == '-' then s[1..] else s;
    if t != [] && t[|t| - 1] == '-' then t[..|t| - 1] else t
  }

  /** Stripping edge dashes keeps the `[a-z0-9]` characters. */
  lemma StripKeepsAlnums(s: string)
    ensures Alnums(StripEdgeDashes(s)) == Alnums(s)
  {
    var t := if s != [] && s[0] == '-' then s[1..] else s;
    assert Alnums(t) == Alnums(s);
    if t != [] && t[|t| - 1] == '-' {
      var r := t[..|t| - 1];
      assert t == r + "-";
      FilterAppend(IsSlugAlnum, r, "-");
    }
  }

  /** Stripping the edge dashes of collapsed text leaves a slug. */
  lemma StripMakesSlug(s: string)
    requires IsCollapsed(s)
    ensures IsSlug(StripEdgeDashes(s))
  {
    var t := if s != [] && s[0] == '-' then s[1..] else s;
    assert IsCollapsed(t) && (t != [] ==> t[0] != '-') by {
      if s != [] && s[0] == '-' {
        CollapsedTail(s);
        if t != [] {
          assert !DashPairAt(s, 1);
        }
      }
    }
    if t != [] && t[|t| - 1] == '-' {
      var r := t[..|t| - 1];
      CollapsedInit(t);
      if r != [] {
        assert r[0] == t[0];
        assert !DashPairAt(t, |t| - 1);
      }
    }
  }

  /**
   * `slugify(str)` for a string: trim, lower-case, collapse the runs outside
   * `[a-z0-9]` to `-`, strip an edge `-`. The result is always a slug.
   */
  function Slugify(str: string): (r: string)
    ensures IsSlug(r)
  {
    var lowered := ToLower(Trim(str));
    CollapseRunsShape(lowered);
    StripMakesSlug(CollapseRuns(lowered));
    StripEdgeDashes(CollapseRuns(lowered))
  }

  /** `slugify(str)` for a value that may be `null` or `undefined`: `(str || "")`. */
  function SlugifyNullable(str: Option<string>): (r: string)
    ensures IsSlug(r)
    ensures str.None? ==> r == ""
  {
    Slugify(str.GetOr(""))
  }

  // Content: the slug keeps exactly the ASCII letters and digits, lower-cased.

  lemma LowerCharAlnum(c: char)
    ensures IsSlugAlnum(LowerChar(c)) <==> IsAsciiAlnum(c)
  {
  }

  lemma ToLowerAppend(a: string, b: string)
    ensures ToLower(a + b) == ToLower(a) + ToLower(b)
  {
  }

  /** Lower-casing, then keeping `[a-z0-9]`, is keeping ASCII alphanumerics, then lower-casing. */
  lemma {:induction false} LowerThenAlnums(s: string)
    ensures Alnums(ToLower(s)) == ToLower(Filter(IsAsciiAlnum, s))
  {
    if s != [] {
      LowerThenAlnums(s[1..]);
      assert ToLower(s) == [LowerChar(s[0])] + ToLower(s[1..]);
      LowerCharAlnum(s[0]);
      var head := if IsAsciiAlnum(s[0]) then [s[0]] else [];
      assert Filter(IsAsciiAlnum, s) == head + Filter(IsAsciiAlnum, s[1..]);
      ToLowerAppend(head, Filter(IsAsciiAlnum, s[1..]));
    }
  }

  /** White space is neither a letter nor a digit. */
  lemma SpaceIsNotAlnum(c: char)
    requires IsJsSpace(c)
    ensures !IsAsciiAlnum(c)
  {
  }

  /** Dropping the leading white space keeps every letter and digit. */
  lemma {:induction false} SkipLeadingKeepsAlnums(s: string)
    ensures Filter(IsAsciiAlnum, s[LeadingSpace(s)..]) == Filter(IsAsciiAlnum, s)
  {
    if s != [] && IsJsSpace(s[0]) {
      SkipLeadingKeepsAlnums(s[1..]);
      SpaceIsNotAlnum(s[0]);
      assert Filter(IsAsciiAlnum, s) == Filter(IsAsciiAlnum, s[1..]);
      assert s[LeadingSpace(s)..] == s[1..][LeadingSpace(s[1..])..];
    } else {
      assert LeadingSpace(s) == 0;
      assert s[0..] == s;
    }
  }

  /** Dropping the trailing white space keeps every letter and digit. */
  lemma {:induction false} DropTrailingKeepsAlnums(s: string)
    ensures Filter(IsAsciiAlnum, s[..|s| - TrailingSpace(s)]) == Filter(IsAsciiAlnum, s)
  {
    if s != [] && IsJsSpace(s[|s| - 1]) {
      var init, last := s[..|s| - 1], s[|s| - 1];
      DropTrailingKeepsAlnums(init);
      calc {
        Filter(IsAsciiAlnum, s);
        { assert s == init + [last]; }
        Filter(IsAsciiAlnum, init + [last]);
        { FilterAppend(IsAsciiAlnum, init, [last]); }
        Filter(IsAsciiAlnum, init) + Filter(IsAsciiAlnum, [last]);
        { SpaceIsNotAlnum(last); assert [last][1..] == []; }
        Filter(IsAsciiAlnum, init);
        Filter(IsAsciiAlnum, init[..|init| - TrailingSpace(init)]);
        { assert s[..|s| - TrailingSpace(s)] == init[..|init| - TrailingSpace(init)]; }
        Filter(IsAsciiAlnum, s[..|s| - TrailingSpace(s)]);
      }
    } else {
      assert TrailingSpace(s) == 0;
      assert s[..|s|] == s;
    }
  }

  /** `trim` keeps every letter and digit, in order. */
  lemma TrimKeepsAsciiAlnums(s: string)
    ensures Filter(IsAsciiAlnum, Trim(s)) == Filter(IsAsciiAlnum, s)
  {
    var t := s[LeadingSpace(s)..];
    assert Trim(s) == t[..|t| - TrailingSpace(t)];
    DropTrailingKeepsAlnums(t);
    SkipLeadingKeepsAlnums(s);
  }

  /** The letters and digits of `slugify(s)` are those of `s`, lower-cased, in order. */
  lemma SlugifyKeepsAlnums(s: string)
    ensures Alnums(Slugify(s)) == ToLower(Filter(IsAsciiAlnum, s))
  {
    var lowered := ToLower(Trim(s));
    StripKeepsAlnums(CollapseRuns(lowered));
    CollapseRunsKeepsAlnums(lowered);
    TrimKeepsAsciiAlnums(s);
    LowerThenAlnums(Trim(s));
  }

  /** A slug is non-empty exactly when it holds a letter or digit: it cannot start with `-`. */
  lemma SlugEmptyIff(r: string)
    requires IsSlug(r)
    ensures r == [] <==> Alnums(r) == []
  {
    if r != [] {
      assert IsSlugAlnum(r[0]);
      assert r[0] in Alnums(r);
    }
  }

  /** `slugify` yields `""` exactly when the input holds no ASCII letter or digit. */
  lemma SlugifyEmptyIff(s: string)
    ensures Slugify(s) == "" <==> !HasAsciiAlnum(s)
  {
    var r := Slugify(s);
    var f := Filter(IsAsciiAlnum, s);
    SlugifyKeepsAlnums(s);
    SlugEmptyIff(r);
    assert |ToLower(f)| == |f|;
    assert r == "" <==> f == [];
    FilterMembers(IsAsciiAlnum, s);
    forall i | 0 <= i < |s| && IsAsciiAlnum(s[i]) ensures f != [] {
      assert s[i] in f;
    }
    if !HasAsciiAlnum(s) {
      FilterDropsAll(IsAsciiAlnum, s);
    }
  }

  // Idempotence: a slug is a fixed point of every step.

  lemma {:induction false} CollapseRunsFixes(t: string)
    requires IsCollapsed(t)
    ensures CollapseRuns(t) == t
  {
    if t != [] {
      var tail := t[1..];
      CollapsedTail(t);
      CollapseRunsFixes(tail);
      if IsSlugAlnum(t[0]) {
        assert [t[0]] + tail == t;
      } else {
        CollapsedDashRun(t);
        assert "-" + tail == t;
      }
    }
  }

  /** In a collapsed string every run of dashes is a single dash. */
  lemma CollapsedDashRun(t: string)
    requires IsCollapsed(t) && t != [] && !IsSlugAlnum(t[0])
    ensures t[0] == '-' && SkipRun(t) == t[1..]
  {
    if |t| > 1 {
      assert !DashPairAt(t, 1);
      assert IsSlugAlnum(t[1..][0]);
    }
  }

  /** A string whose ends are not white space is its own `trim`. */
  lemma TrimFixesUnspaced(t: string)
    requires t == [] || (!IsJsSpace(t[0]) && !IsJsSpace(t[|t| - 1]))
    ensures Trim(t) == t
  {
    assert LeadingSpace(t) == 0;
    assert t[0..] == t;
    if t != [] {
      assert TrailingSpace(t) == 0;
    }
  }

  /** A string without upper-case ASCII letters is its own lower case. */
  lemma LowerFixesCollapsed(t: string)
    requires IsCollapsed(t)
    ensures ToLower(t) == t
  {
    assert forall i :: 0 <= i < |t| ==> LowerChar(t[i]) == t[i];
  }

  /** A slug has no edge `-` to strip. */
  lemma StripFixesSlugs(t: string)
    requires IsSlug(t)
    ensures StripEdgeDashes(t) == t
  {
  }

  /** Slug characters are not white space. */
  lemma SlugCharIsNotSpace(c: char)
    requires IsSlugAlnum(c) || c == '-'
    ensures !IsJsSpace(c)
  {
  }

  /** Every slug is left unchanged by `slugify`. */
  lemma SlugifyFixesSlugs(t: string)
    requires IsSlug(t)
    ensures Slugify(t) == t
  {
    if t != [] {
      SlugCharIsNotSpace(t[0]);
      SlugCharIsNotSpace(t[|t| - 1]);
    }
    calc {
      Slugify(t);
      StripEdgeDashes(CollapseRuns(ToLower(Trim(t))));
      { TrimFixesUnspaced(t); }
      StripEdgeDashes(CollapseRuns(ToLower(t)));
      { LowerFixesCollapsed(t); }
      StripEdgeDashes(CollapseRuns(t));
      { CollapseRunsFixes(t); }
      StripEdgeDashes(t);
      { StripFixesSlugs(t); }
      t;
    }
  }

  /** `slugify(slugify(s)) == slugify(s)`. */
  lemma SlugifyIdempotent(s: string)
    ensures Slugify(Slugify(s)) == Slugify(s)
  {
    SlugifyFixesSlugs(Slugify(s));
  }

  // ---------------------------------------------------------------------------
  // truncate
  // ---------------------------------------------------------------------------

  /** The character `truncate` appends after a cut: the horizontal ellipsis. */
  const Ellipsis: char := '\U{2026}'

  /** The length `truncate` cuts at when the caller gives none. */
  const DefaultCut: nat := 140

  /**
   * `truncate(text, n)`: falsy text gives `""`; text of at most `n` characters
   * comes back whole; longer text becomes its first `n` characters and `…`.
   */
  function Truncate(text: Option<string>, n: nat := DefaultCut): (r: string)
    ensures |r| <= n + 1
    ensures text.None? || text.value == "" ==> r == ""
    ensures text.Some? && |text.value| <= n ==> r == text.value
    ensures text.Some? && |text.value| > n ==> |r| == n + 1 && r[..n] == text.value[..n] && r[n] == Ellipsis
  {
    if text.None? || text.value == "" then ""
    else if |text.value| > n then text.value[..n] + [Ellipsis]
    else text.value
  }

  /** Truncating an already truncated text with the same bound changes nothing. */
  lemma TruncateIdempotent(text: Option<string>, n: nat)
    ensures Truncate(Some(Truncate(text, n)), n) == Truncate(text, n)
  {
  }

  // ---------------------------------------------------------------------------
  // storage
  // ---------------------------------------------------------------------------

  /** What local storage holds under a key, as `JSON.parse` reads it back. */
  datatype Entry = StringList(items: seq<string>) | JsonNull | Unparseable

  /** The browser's local storage, seen through `storage.get` and `storage.set`. */
  class Store {
    var entries: map<string, Entry>

    constructor ()
      ensures entries == map[]
    {
      entries := map[];
    }

    /**
     * `storage.get(key, def)`: the list stored under `key`; `def` when the key
     * is absent, holds JSON `null`, or does not parse.
     */
    function Get(key: string, def: seq<string> := []): (r: seq<string>)
      reads this
      ensures key in entries && entries[key].StringList? ==> r == entries[key].items
      ensures key !in entries || !entries[key].StringList? ==> r == def
    {
      if key in entries then
        match entries[key]
        case StringList(items) => items
        case _ => def
      else def
    }

    /** `storage.set(key, val)`: the next `get` of `key` reads `val`; other keys are untouched. */
    method Set(key: string, val: seq<string>)
      modifies this
      ensures entries == old(entries)[key := StringList(val)]
      ensures forall d :: Get(key, d) == val
      ensures forall k, d :: k != key ==> Get(k, d) == old(Get(k, d))
    {
      entries := entries[key := StringList(val)];
    }
  }
}
