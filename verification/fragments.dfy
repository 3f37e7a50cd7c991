/** The fragment normalisers `normalizeColumn`, `normalizeTable` and
    `normalizeCondition`: each reduces a clause item to a canonical key. */
module Fragments {
  import opened Text
  import opened Clauses

  /** What every normaliser produces: no whitespace, no quote of any of the
      three kinds, no upper-case letter. */
  predicate Canonical(r: string) {
    NoSpace(r) && NoUpper(r) && forall i :: 0 <= i < |r| ==> !IsQuote(r[i])
  }

  // ---------------------------------------------------------------------------
  // `replace(/\s+as\s+\w+/gi, '')`

  /** `\s+as\s+\w+` at `p`: where the match ends. */
  function AliasAt(s: string, p: nat): (r: Option<nat>)
    requires p <= |s|
    ensures r.Some? ==> p + 5 <= r.value <= |s|
  {
    match AsAt(s, p)
    case Some(e) =>
      var u := Run(s, e, Word);
      if u == 0 then None else Some(e + u)
    case None => None
  }

  /** The leftmost match at or after `p`: where it starts and ends. */
  function NextAlias(s: string, p: nat): Option<(nat, nat)>
    requires p <= |s|
    decreases |s| - p
  {
    if p == |s| then None
    else match AliasAt(s, p)
      case Some(e) => Some((p, e))
      case None => NextAlias(s, p + 1)
  }

  lemma {:induction false} NextAliasBounds(s: string, p: nat)
    requires p <= |s|
    ensures var r := NextAlias(s, p); r.Some? ==> p <= r.value.0 < r.value.1 <= |s|
    decreases |s| - p
  {
    if p < |s| && AliasAt(s, p).None? {
      NextAliasBounds(s, p + 1);
    }
  }

  /** The scan reports the leftmost match. */
  lemma {:induction false} NextAliasLeftmost(s: string, p: nat)
    requires p <= |s|
    ensures var r := NextAlias(s, p);
      r.Some? ==> r.value.0 <= |s| && AliasAt(s, r.value.0) == Some(r.value.1)
                  && forall q :: p <= q < r.value.0 ==> AliasAt(s, q).None?
    decreases |s| - p
  {
    NextAliasBounds(s, p);
    if p < |s| && AliasAt(s, p).None? {
      NextAliasLeftmost(s, p + 1);
    }
  }

  /** The scan reports nothing exactly when there is no match. */
  lemma {:induction false} NextAliasNone(s: string, p: nat)
    requires p <= |s|
    ensures NextAlias(s, p).None? <==> forall q :: p <= q < |s| ==> AliasAt(s, q).None?
    decreases |s| - p
  {
    if p < |s| && AliasAt(s, p).None? {
      NextAliasNone(s, p + 1);
    }
  }

  /** Deletes every `\s+as\s+\w+` match of `s[p..]`: the text up to the
      next match, then the rest after it.  Each match is at least five
      characters long, so the text shrinks exactly when there is one. */
  function RemoveAliasesFrom(s: string, p: nat): (r: string)
    requires p <= |s|
    ensures |r| <= |s| - p
    ensures NextAlias(s, p).Some? ==> |r| < |s| - p
    ensures NextAlias(s, p).None? ==> r == s[p..]
    decreases |s| - p
  {
    NextAliasBounds(s, p);
    match NextAlias(s, p)
    case Some((q, e)) =>
      assert AliasAt(s, q) == Some(e) by { NextAliasLeftmost(s, p); }
      s[p..q] + RemoveAliasesFrom(s, e)
    case None => s[p..]
  }

  /** `replace(/\s+as\s+\w+/gi, '')`: the text is left as it is exactly when
      no alias clause occurs in it. */
  function RemoveAliases(s: string): (r: string)
    ensures |r| <= |s|
    ensures r == s <==> forall q :: 0 <= q < |s| ==> AliasAt(s, q).None?
  {
    NextAliasNone(s, 0);
    assert s[0..] == s;
    RemoveAliasesFrom(s, 0)
  }

  /** No match starts at a character that is not whitespace. */
  lemma NoAliasAtLetter(s: string, p: nat)
    requires p < |s| && !IsSpace(s[p])
    ensures NextAlias(s, p) == NextAlias(s, p + 1)
  {
    assert Run(s, p, Space) == 0;
  }

  /** No match starts inside a stretch without whitespace. */
  lemma AliasNotInWord(s: string, p: nat, n: nat)
    requires p <= n <= |s|
    requires forall i :: p <= i < n ==> !IsSpace(s[i])
    ensures NextAlias(s, p) == NextAlias(s, n)
  {
    var f := (i: nat) => if i <= |s| then NextAlias(s, i) else None;
    forall i | p <= i < n ensures f(i) == f(i + 1) {
      NoAliasAtLetter(s, i);
    }
    Steady(f, p, n);
  }

  /** Text without whitespace has no alias to delete. */
  lemma NoAliasInWord(s: string)
    requires NoSpace(s)
    ensures RemoveAliases(s) == s
  {
    AliasNotInWord(s, 0, |s|);
  }

  // ---------------------------------------------------------------------------
  // `replace(/^\w+\./, '')` and `replace(/\s+\w+$/, '')`

  /** Drops a leading `word.` qualifier. */
  function StripQualifier(s: string): (r: string)
    ensures |r| <= |s|
    ensures r != s ==> exists k :: 0 < k < |s| && s[k] == '.' && AllIn(s[..k], Word) && r == s[k + 1..]
  {
    var w := Run(s, 0, Word);
    if w > 0 && w < |s| && s[w] == '.' then
      assert AllIn(s[..w], Word);
      s[w + 1..]
    else s
  }

  /** `\s+\w+$` matches at `p` (the `\s+` can only be the whole run there,
      and the `\w+` only the rest of the text). */
  predicate TrailingAliasAt(s: string, p: nat)
    requires p <= |s|
  {
    var w := Run(s, p, Space);
    w > 0 && Run(s, p + w, Word) > 0 && p + w + Run(s, p + w, Word) == |s|
  }

  /** The leftmost position from `p` on where `\s+\w+$` matches. */
  function FirstTrailingAlias(s: string, p: nat): (r: Option<nat>)
    requires p <= |s|
    ensures r.Some? ==> p <= r.value < |s|
    decreases |s| - p
  {
    if p == |s| then None
    else if TrailingAliasAt(s, p) then Some(p)
    else FirstTrailingAlias(s, p + 1)
  }

  lemma {:induction false} FirstTrailingAliasBounds(s: string, p: nat)
    requires p <= |s|
    ensures var r := FirstTrailingAlias(s, p);
      r.Some? ==> p <= r.value < |s| && TrailingAliasAt(s, r.value)
    decreases |s| - p
  {
    if p < |s| && !TrailingAliasAt(s, p) {
      FirstTrailingAliasBounds(s, p + 1);
    }
  }

  /** The scan finds the leftmost match. */
  lemma {:induction false} FirstTrailingAliasLeftmost(s: string, p: nat)
    requires p <= |s|
    ensures var r := FirstTrailingAlias(s, p);
      r.Some? ==> r.value <= |s| && forall q :: p <= q < r.value ==> !TrailingAliasAt(s, q)
    decreases |s| - p
  {
    if p < |s| && !TrailingAliasAt(s, p) {
      FirstTrailingAliasLeftmost(s, p + 1);
      TrailingAliasLater(s, p);
    }
  }

  /** No match at `p`: the scan from `p` is the scan from `p + 1`. */
  lemma TrailingAliasLater(s: string, p: nat)
    requires p < |s| && !TrailingAliasAt(s, p)
    requires var r := FirstTrailingAlias(s, p + 1);
      r.Some? ==> r.value <= |s| && forall q :: p + 1 <= q < r.value ==> !TrailingAliasAt(s, q)
    ensures var r := FirstTrailingAlias(s, p);
      r.Some? ==> r.value <= |s| && forall q :: p <= q < r.value ==> !TrailingAliasAt(s, q)
  {
    var r := FirstTrailingAlias(s, p + 1);
    assert FirstTrailingAlias(s, p) == r;
    if r.Some? {
      NoTrailingAliasExtend(s, p, r.value);
    }
  }

  lemma NoTrailingAliasExtend(s: string, p: nat, n: nat)
    requires p < n <= |s| && !TrailingAliasAt(s, p)
    requires forall q :: p + 1 <= q < n ==> !TrailingAliasAt(s, q)
    ensures forall q :: p <= q < n ==> !TrailingAliasAt(s, q)
  {
  }

  /** The scan finds nothing exactly when there is no match. */
  lemma {:induction false} FirstTrailingAliasNone(s: string, p: nat)
    requires p <= |s|
    ensures FirstTrailingAlias(s, p).None? <==> forall q :: p <= q < |s| ==> !TrailingAliasAt(s, q)
    decreases |s| - p
  {
    if p < |s| && !TrailingAliasAt(s, p) {
      FirstTrailingAliasNone(s, p + 1);
    }
  }

  /** Drops a trailing ` word`: the text before the leftmost match, which is
      kept whole when there is no match. */
  function StripTrailingAlias(s: string): (r: string)
    ensures |r| <= |s| && r == s[..|r|]
    ensures r == s <==> forall q :: 0 <= q < |s| ==> !TrailingAliasAt(s, q)
    ensures r != s ==> TrailingAliasAt(s, |r|) && forall q :: 0 <= q < |r| ==> !TrailingAliasAt(s, q)
  {
    FirstTrailingAliasBounds(s, 0);
    FirstTrailingAliasLeftmost(s, 0);
    FirstTrailingAliasNone(s, 0);
    match FirstTrailingAlias(s, 0)
    case Some(q) => s[..q]
    case None => s
  }

  /** A table name and its alias, separated by whitespace. */
  lemma TrailingAliasOfWord(s: string, n: nat)
    requires 0 < n && n + 1 < |s| && IsSpace(s[n]) && !IsSpace(s[n + 1])
    requires forall i :: 0 <= i < n ==> !IsSpace(s[i])
    requires forall i :: n + 1 <= i < |s| ==> IsWord(s[i])
    ensures StripTrailingAlias(s) == s[..n]
  {
    RunExact(s, n, n + 1, Space);
    RunExact(s, n + 1, |s|, Word);
    assert TrailingAliasAt(s, n);
    NoTrailingAliasInWord(s, 0, n);
  }

  lemma {:induction false} NoTrailingAliasInWord(s: string, p: nat, n: nat)
    requires p <= n < |s| && TrailingAliasAt(s, n)
    requires forall i :: p <= i < n ==> !IsSpace(s[i])
    ensures FirstTrailingAlias(s, p) == Some(n)
    decreases n - p
  {
    if p < n {
      assert Run(s, p, Space) == 0;
      NoTrailingAliasInWord(s, p + 1, n);
    }
  }

  /** Text without whitespace keeps its last word. */
  lemma {:induction false} NoTrailingAliasWithoutSpace(s: string, p: nat)
    requires p <= |s| && NoSpace(s)
    ensures FirstTrailingAlias(s, p).None?
    decreases |s| - p
  {
    if p < |s| {
      assert Run(s, p, Space) == 0;
      NoTrailingAliasWithoutSpace(s, p + 1);
    }
  }

  // ---------------------------------------------------------------------------
  // The three normalisers

  /** The characters a normaliser keeps: neither whitespace nor a quote. */
  predicate Kept(c: char) {
    !IsSpace(c) && !IsQuote(c)
  }

  /** The common tail of the normalisers: quotes and whitespace removed,
      lower-cased. */
  function Squeeze(s: string): (r: string)
    ensures Canonical(r)
    ensures exists idx :: Selects(s, Kept, ToLower, r, idx)
  {
    SqueezeFilters(s);
    FilterMapSelects(Kept, ToLower, s);
    var r := Lower(RemoveSpaces(RemoveQuotes(s)));
    assert forall i :: 0 <= i < |r| ==> !IsSpace(r[i]) && !IsQuote(r[i]) by {
      var t := RemoveSpaces(RemoveQuotes(s));
      RemoveSpacesChars(RemoveQuotes(s));
      forall i | 0 <= i < |r| ensures !IsSpace(r[i]) && !IsQuote(r[i]) {
        assert r[i] == ToLower(t[i]);
        assert t[i] in RemoveQuotes(s);
      }
    }
    r
  }

  /** `normalizeColumn`: aliases, then a leading qualifier, then quotes and
      whitespace removed, lower-cased. */
  function NormalizeColumn(col: string): (r: string)
    ensures Canonical(r)
  {
    Squeeze(StripQualifier(RemoveAliases(col)))
  }

  /** `normalizeTable`: aliases, then a trailing alias word, then quotes and
      whitespace removed, lower-cased. */
  function NormalizeTable(tbl: string): (r: string)
    ensures Canonical(r)
  {
    Squeeze(StripTrailingAlias(RemoveAliases(tbl)))
  }

  /** `normalizeCondition`: whitespace, then quotes removed, lower-cased. */
  function NormalizeCondition(cond: string): (r: string)
    ensures Canonical(r)
    ensures exists idx :: Selects(cond, Kept, ToLower, r, idx)
  {
    SqueezeSwapped(cond);
    FilterMapSelects(Kept, ToLower, cond);
    var t := RemoveQuotes(RemoveSpaces(cond));
    var r := Lower(t);
    RemoveQuotesChars(RemoveSpaces(cond));
    assert forall i :: 0 <= i < |r| ==> !IsSpace(r[i]) && !IsQuote(r[i]) by {
      forall i | 0 <= i < |r| ensures !IsSpace(r[i]) && !IsQuote(r[i]) {
        assert r[i] == ToLower(t[i]);
        assert t[i] in RemoveSpaces(cond);
      }
    }
    r
  }

  /** Dropping the quotes and then the whitespace, lower-cased, keeps exactly
      the `Kept` characters, lower-cased, in their order. */
  lemma {:induction false} SqueezeFilters(s: string)
    ensures Lower(RemoveSpaces(RemoveQuotes(s))) == FilterMap(Kept, ToLower, s)
    decreases |s|
  {
    if |s| > 0 {
      SqueezeFilters(s[1..]);
      SqueezeFiltersStep(s);
    }
  }

  lemma SqueezeFiltersStep(s: string)
    requires |s| > 0
    requires Lower(RemoveSpaces(RemoveQuotes(s[1..]))) == FilterMap(Kept, ToLower, s[1..])
    ensures Lower(RemoveSpaces(RemoveQuotes(s))) == FilterMap(Kept, ToLower, s)
  {
    var t := RemoveQuotes(s[1..]);
    var u := FilterMap(Kept, ToLower, s[1..]);
    assert FilterMap(Kept, ToLower, s) == (if Kept(s[0]) then [ToLower(s[0])] else []) + u;
    if IsQuote(s[0]) {
      assert RemoveQuotes(s) == t;
      assert FilterMap(Kept, ToLower, s) == u;
    } else {
      assert RemoveQuotes(s) == [s[0]] + t;
      RemoveSpacesCons(s[0], t);
      if IsSpace(s[0]) {
        assert FilterMap(Kept, ToLower, s) == u;
      } else {
        LowerAppend([s[0]], RemoveSpaces(t));
      }
    }
  }

  /** The same with the two deletions in the other order. */
  lemma {:induction false} SqueezeSwapped(s: string)
    ensures Lower(RemoveQuotes(RemoveSpaces(s))) == FilterMap(Kept, ToLower, s)
    decreases |s|
  {
    if |s| > 0 {
      SqueezeSwapped(s[1..]);
      var t := RemoveSpaces(s[1..]);
      if !IsSpace(s[0]) {
        assert RemoveSpaces(s) == [s[0]] + t;
        assert ([s[0]] + t)[1..] == t;
        LowerAppend([s[0]], RemoveQuotes(t));
      }
    }
  }

  /** A canonical key is its own normal form. */
  lemma SqueezeCanonical(s: string)
    requires Canonical(s)
    ensures RemoveQuotes(RemoveSpaces(s)) == s && Lower(s) == s
  {
    LowerOfLowerCase(s);
  }

  /** Normalising a condition twice changes nothing. */
  lemma NormalizeConditionIdempotent(cond: string)
    ensures NormalizeCondition(NormalizeCondition(cond)) == NormalizeCondition(cond)
  {
    SqueezeCanonical(NormalizeCondition(cond));
  }

  /** Conditions that differ only in whitespace, quotes and case normalise alike. */
  lemma NormalizeConditionIgnoresCase(cond: string)
    ensures NormalizeCondition(Lower(cond)) == NormalizeCondition(cond)
  {
    LowerKeepsSpacesAndQuotes(cond);
    LowerTwice(RemoveQuotes(RemoveSpaces(cond)));
  }

  /** Lower-casing commutes with the deletions, which touch no letter. */
  lemma {:induction false} LowerKeepsSpacesAndQuotes(s: string)
    ensures RemoveQuotes(RemoveSpaces(Lower(s))) == Lower(RemoveQuotes(RemoveSpaces(s)))
    decreases |s|
  {
    if |s| > 0 {
      assert Lower(s)[1..] == Lower(s[1..]);
      LowerKeepsSpacesAndQuotes(s[1..]);
      if !IsSpace(s[0]) && !IsQuote(s[0]) {
        assert RemoveSpaces(Lower(s)) == [ToLower(s[0])] + RemoveSpaces(Lower(s[1..]));
        assert RemoveSpaces(s) == [s[0]] + RemoveSpaces(s[1..]);
        LowerAppend([s[0]], RemoveQuotes(RemoveSpaces(s[1..])));
      }
    }
  }

  lemma LowerTwice(s: string)
    ensures Lower(Lower(s)) == Lower(s)
  {
    LowerOfLowerCase(Lower(s));
  }

  // ---------------------------------------------------------------------------
  // The documented examples, for any words

  /** A non-empty run of `\w` characters. */
  predicate IsWordText(w: string) {
    |w| > 0 && AllIn(w, Word)
  }

  lemma WordCanonicalBeforeLower(w: string)
    requires IsWordText(w)
    ensures Squeeze(w) == Lower(w)
  {
    assert NoSpace(w) by {
      forall i | 0 <= i < |w| ensures !IsSpace(w[i]) { assert InClass(w[i], Word); }
    }
    assert forall i :: 0 <= i < |w| ==> !IsQuote(w[i]) by {
      forall i | 0 <= i < |w| ensures !IsQuote(w[i]) { assert InClass(w[i], Word); }
    }
  }

  /** `q.c as a` is `q.c` once the alias is deleted. */
  lemma AliasDeletedParts(s: string, n: nat, kw: string)
    requires n + 4 < |s| && |kw| == 2 && Lower(kw) == "as"
    requires NoSpace(s[..n]) && s[n..n + 4] == " " + kw + " " && IsWordText(s[n + 4..])
    ensures RemoveAliases(s) == s[..n]
  {
    AliasPositions(s, n, kw);
    assert !IsSpace(s[n + 1]) by {
      assert ToLower(s[n + 1]) == Lower(kw)[0] == 'a';
    }
    RunExact(s, n, n + 1, Space);
    assert AtCI(s, n + 1, "as");
    assert !IsSpace(s[n + 4]) by { assert IsWord(s[n + 4]); }
    RunExact(s, n + 3, n + 4, Space);
    RunExact(s, n + 4, |s|, Word);
    assert AliasAt(s, n) == Some(|s|);
    AliasNotInWord(s, 0, n);
    assert NextAlias(s, 0) == Some((n, |s|));
    assert RemoveAliasesFrom(s, |s|) == [];
  }

  lemma AliasPositions(s: string, n: nat, kw: string)
    requires n + 4 < |s| && |kw| == 2
    requires NoSpace(s[..n]) && s[n..n + 4] == " " + kw + " " && IsWordText(s[n + 4..])
    ensures forall i :: 0 <= i < n ==> !IsSpace(s[i])
    ensures s[n] == ' ' && s[n + 1..n + 3] == kw && s[n + 3] == ' '
    ensures forall i :: n + 4 <= i < |s| ==> IsWord(s[i])
  {
    assert forall i :: 0 <= i < n ==> s[i] == s[..n][i];
    var m := s[n..n + 4];
    assert s[n] == m[0] && s[n + 3] == m[3];
    assert s[n + 1..n + 3] == m[1..3] by {
      assert s[n + 1] == m[1] && s[n + 2] == m[2];
    }
    assert m[1..3] == kw by {
      assert m == [' '] + kw + [' '];
    }
    forall i | n + 4 <= i < |s| ensures IsWord(s[i]) {
      assert s[i] == s[n + 4..][i - n - 4];
      assert InClass(s[n + 4..][i - n - 4], Word);
    }
  }

  /** The three parts of `x + m + y`, by position. */
  lemma Parts(x: string, m: string, y: string)
    ensures var s := x + m + y;
      && s[..|x|] == x && s[|x|..|x| + |m|] == m && s[|x| + |m|..] == y
      && (forall i :: 0 <= i < |x| ==> s[i] == x[i])
      && (forall i :: 0 <= i < |y| ==> s[|x| + |m| + i] == y[i])
  {
  }

  lemma AliasDeleted(x: string, kw: string, a: string)
    requires NoSpace(x) && IsWordText(a) && |kw| == 2 && Lower(kw) == "as"
    ensures RemoveAliases(x + " " + kw + " " + a) == x
  {
    var m := " " + kw + " ";
    assert x + " " + kw + " " + a == x + m + a;
    Parts(x, m, a);
    AliasDeletedParts(x + m + a, |x|, kw);
  }

  /** Words joined by a dot contain no whitespace. */
  lemma QualifiedNoSpace(q: string, c: string)
    requires IsWordText(q) && NoSpace(c)
    ensures NoSpace(q + "." + c)
  {
    var s := q + "." + c;
    forall i | 0 <= i < |s| ensures !IsSpace(s[i]) {
      if i < |q| { assert s[i] == q[i] && InClass(q[i], Word); }
      else if i > |q| { assert s[i] == c[i - |q| - 1]; }
    }
  }

  lemma QualifierStripped(q: string, c: string)
    requires IsWordText(q)
    ensures StripQualifier(q + "." + c) == c
  {
    var s := q + "." + c;
    assert forall i :: 0 <= i < |q| ==> InClass(s[i], Word) by {
      forall i | 0 <= i < |q| ensures InClass(s[i], Word) { assert s[i] == q[i]; }
    }
    RunExact(s, 0, |q|, Word);
    assert s[|q| + 1..] == c;
  }

  /** A qualified key: the qualifier goes, the rest is already canonical. */
  lemma ColumnWithQualifier(q: string, c: string)
    requires IsWordText(q) && Canonical(c)
    ensures NormalizeColumn(q + "." + c) == c
  {
    QualifiedNoSpace(q, c);
    NoAliasInWord(q + "." + c);
    QualifierStripped(q, c);
    SqueezeCanonical(c);
    assert RemoveSpaces(RemoveQuotes(c)) == c;
  }

  /** `p.ProductName as name` gives `productname`: for a qualifier `q`, a
      column `c` and an alias `a`, `q.c as a` normalises to `c` lower-cased. */
  lemma ColumnWithQualifierAndAlias(q: string, c: string, kw: string, a: string)
    requires IsWordText(q) && IsWordText(c) && IsWordText(a) && |kw| == 2 && Lower(kw) == "as"
    ensures NormalizeColumn(q + "." + c + " " + kw + " " + a) == Lower(c)
  {
    QualifiedNoSpace(q, c);
    AliasDeleted(q + "." + c, kw, a);
    QualifierStripped(q, c);
    WordCanonicalBeforeLower(c);
  }

  /** `Products p` gives `products`: a table `t` with a bare alias `a`. */
  lemma TableWithAlias(t: string, a: string)
    requires IsWordText(t) && IsWordText(a)
    ensures NormalizeTable(t + " " + a) == Lower(t)
  {
    var s := t + " " + a;
    BareAliasShape(t, a);
    assert RemoveAliases(s) == s by { NoAliasBeforeBareWord(s, |t|); }
    assert StripTrailingAlias(s) == t by { TrailingAliasOfWord(s, |t|); }
    WordCanonicalBeforeLower(t);
  }

  /** The characters of `t a` for two words `t` and `a`. */
  lemma BareAliasShape(t: string, a: string)
    requires IsWordText(t) && IsWordText(a)
    ensures var s := t + " " + a;
      && 0 < |t| && |t| + 1 < |s| && s[|t|] == ' ' && !IsSpace(s[|t| + 1]) && s[..|t|] == t
      && (forall i :: 0 <= i < |t| ==> !IsSpace(s[i]))
      && (forall i :: |t| + 1 <= i < |s| ==> IsWord(s[i]) && !IsSpace(s[i]))
  {
    var s := t + " " + a;
    Parts(t, " ", a);
    forall i | 0 <= i < |t| ensures !IsSpace(s[i]) { assert s[i] == t[i] && InClass(t[i], Word); }
    forall i | |t| + 1 <= i < |s| ensures IsWord(s[i]) && !IsSpace(s[i]) { assert s[i] == a[i - |t| - 1] && InClass(a[i - |t| - 1], Word); }
  }

  /** A single space followed by a word leaves no `as` alias to delete. */
  lemma NoAliasBeforeBareWord(s: string, n: nat)
    requires 0 < n && n + 1 < |s| && s[n] == ' '
    requires forall i :: 0 <= i < n ==> !IsSpace(s[i])
    requires forall i :: n + 1 <= i < |s| ==> !IsSpace(s[i])
    ensures RemoveAliases(s) == s
  {
    AliasNotInWord(s, 0, n);
    NoAsBeforeWord(s, n);
    AliasNotInWord(s, n + 1, |s|);
    assert NextAlias(s, 0).None?;
  }

  lemma NoAsBeforeWord(s: string, n: nat)
    requires n + 1 < |s| && s[n] == ' '
    requires forall i :: n + 1 <= i < |s| ==> !IsSpace(s[i])
    ensures AliasAt(s, n).None?
  {
    RunExact(s, n, n + 1, Space);
    if n + 3 < |s| {
      assert !IsSpace(s[n + 3]);
    }
  }

  /** `Products AS p` gives `products`: a table `t` with an `as` alias `a`. */
  lemma TableWithAsAlias(t: string, kw: string, a: string)
    requires IsWordText(t) && IsWordText(a) && |kw| == 2 && Lower(kw) == "as"
    ensures NormalizeTable(t + " " + kw + " " + a) == Lower(t)
  {
    assert NoSpace(t) by {
      forall i | 0 <= i < |t| ensures !IsSpace(t[i]) { assert InClass(t[i], Word); }
    }
    AliasDeleted(t, kw, a);
    NoTrailingAliasWithoutSpace(t, 0);
    WordCanonicalBeforeLower(t);
  }

  /** The examples of the comments in the normalisers, as written there. */
  lemma DocumentedColumnExample()
    ensures NormalizeColumn("p.ProductName as name") == "productname"
  {
    var q, c, kw, a := "p", "ProductName", "as", "name";
    ExampleWords();
    assert "p.ProductName as name" == q + "." + c + " " + kw + " " + a;
    ColumnWithQualifierAndAlias(q, c, kw, a);
  }

  lemma ExampleWords()
    ensures IsWordText("p") && IsWordText("ProductName") && IsWordText("name") && IsWordText("Products")
    ensures Lower("as") == "as" && Lower("AS") == "as"
    ensures Lower("ProductName") == "productname" && Lower("Products") == "products"
  {
  }

  lemma DocumentedTableExamples()
    ensures NormalizeTable("Products p") == "products"
    ensures NormalizeTable("Products AS p") == "products"
  {
    var t, kw, a := "Products", "AS", "p";
    ExampleWords();
    assert "Products p" == t + " " + a;
    assert "Products AS p" == t + " " + kw + " " + a;
    TableWithAlias(t, a);
    TableWithAsAlias(t, kw, a);
  }

  /** Normalising a column is not idempotent: each pass drops one qualifier. */
  lemma NormalizeColumnNotIdempotent()
    ensures NormalizeColumn("a.b.c") == "b.c"
    ensures NormalizeColumn("b.c") == "c"
  {
    assert IsWordText("a") && IsWordText("b");
    assert Canonical("b.c") && Canonical("c");
    assert "a.b.c" == "a" + "." + "b.c";
    assert "b.c" == "b" + "." + "c";
    ColumnWithQualifier("a", "b.c");
    ColumnWithQualifier("b", "c");
  }
}
