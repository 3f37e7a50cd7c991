/** `normalizeSQL`: the lossy canonical form both statements are compared in. */
module Normalize {
  import opened Text

  /** The eight always-true predicate texts, in the order the source lists them.
      The same list, with `\s+` for each space, is the alternation of the
      trivial-WHERE pattern. */
  const TrivialForms: seq<string> :=
    ["1=1", "true", "1", "0=0", "true=true", "1<>0", "1 is not null", "exists(select 1)"]

  /** A predicate text is trivial when, whitespace collapsed and lower-cased,
      it is one of the eight forms. */
  predicate IsTrivialCondition(cond: string) {
    Lower(Collapse(cond)) in TrivialForms
  }

  // ---------------------------------------------------------------------------
  // `replace(/;+\s*$/, '')`

  /** The pattern `;+\s*$` matches at `p`: from `p` on there are one or more
      semicolons and then only whitespace. */
  ghost predicate SemicolonTail(s: string, p: nat) {
    exists k :: p < k <= |s| && SemicolonsThenSpaces(s, p, k)
  }

  /** `s[p..k]` is all semicolons and `s[k..]` all whitespace. */
  predicate SemicolonsThenSpaces(s: string, p: nat, k: nat)
    requires p <= k <= |s|
  {
    (forall i :: p <= i < k ==> s[i] == ';') && (forall i :: k <= i < |s| ==> IsSpace(s[i]))
  }

  /** The scanner's test for the same match: the greedy `;+` followed by a
      greedy `\s*` reaches the end. */
  predicate SemicolonTailAt(s: string, p: nat)
    requires p <= |s|
  {
    p < |s| && s[p] == ';' && (var k := Run(s, p, Semicolon); p + k + Run(s, p + k, Space) == |s|)
  }

  lemma SemicolonTailAtIff(s: string, p: nat)
    requires p <= |s|
    ensures SemicolonTailAt(s, p) <==> SemicolonTail(s, p)
  {
    if SemicolonTailAt(s, p) {
      var k := Run(s, p, Semicolon);
      assert SemicolonsThenSpaces(s, p, p + k);
    }
    if SemicolonTail(s, p) {
      var k :| p < k <= |s| && SemicolonsThenSpaces(s, p, k);
      assert s[p] == ';';
      RunExact(s, p, k, Semicolon);
      RunExact(s, k, |s|, Space);
    }
  }

  /** Leftmost position from `p` on where the pattern matches, or `|s|`. */
  function FirstSemicolonTail(s: string, p: nat): (i: nat)
    requires p <= |s|
    ensures p <= i <= |s|
    ensures i < |s| ==> SemicolonTailAt(s, i)
    ensures forall j :: p <= j < i ==> !SemicolonTailAt(s, j)
    decreases |s| - p
  {
    if p == |s| || SemicolonTailAt(s, p) then p else FirstSemicolonTail(s, p + 1)
  }

  /** Removes the leftmost match of `;+\s*$`. */
  function StripTrailingSemicolons(s: string): (r: string)
    ensures |r| <= |s| && r == s[..|r|]
    ensures |r| < |s| ==> SemicolonTail(s, |r|)
    ensures forall j :: 0 <= j < |r| ==> !SemicolonTail(s, j)
  {
    var i := FirstSemicolonTail(s, 0);
    SemicolonTailAtIff(s, i);
    NoSemicolonTailBefore(s, i);
    s[..i]
  }

  lemma NoSemicolonTailBefore(s: string, i: nat)
    requires i <= |s|
    requires forall j :: 0 <= j < i ==> !SemicolonTailAt(s, j)
    ensures forall j :: 0 <= j < i ==> !SemicolonTail(s, j)
  {
    forall j | 0 <= j < i ensures !SemicolonTail(s, j) {
      SemicolonTailAtIff(s, j);
    }
  }

  // ---------------------------------------------------------------------------
  // `replace(/where\s+(1=1|true|1|0=0|true=true|1<>0|1\s+is\s+not\s+null|exists\(select 1\))\b(\s+and\s+)?/g, '')`

  /** `\b` at position `e`. */
  predicate WordBoundary(s: string, e: nat)
    requires e <= |s|
  {
    (e > 0 && IsWord(s[e - 1])) != (e < |s| && IsWord(s[e]))
  }

  /** Alternative `i` of the group, tried at `q`: where it ends.  Alternative 6
      is `1\s+is\s+not\s+null`; each `\s+` there is followed by a letter, so
      only its longest run can succeed. */
  function TrivialAlternative(s: string, q: nat, i: nat): (r: Option<nat>)
    requires q <= |s| && i < |TrivialForms|
    ensures r.Some? ==> q < r.value <= |s|
  {
    if i == 6 then
      if !At(s, q, "1") then None
      else
        var a := Run(s, q + 1, Space);
        if a == 0 || !At(s, q + 1 + a, "is") then None
        else
          var b := Run(s, q + 3 + a, Space);
          if b == 0 || !At(s, q + 3 + a + b, "not") then None
          else
            var c := Run(s, q + 6 + a + b, Space);
            if c == 0 || !At(s, q + 6 + a + b + c, "null") then None
            else Some(q + 10 + a + b + c)
    else if At(s, q, TrivialForms[i]) then Some(q + |TrivialForms[i]|)
    else None
  }

  /** The alternation followed by `\b`: the alternatives are tried in order and
      the first one after which `\b` holds wins. */
  function TrivialGroupFrom(s: string, q: nat, i: nat): (r: Option<nat>)
    requires q <= |s| && i <= |TrivialForms|
    ensures r.Some? ==> q < r.value <= |s| && WordBoundary(s, r.value)
    decreases |TrivialForms| - i
  {
    if i == |TrivialForms| then None
    else match TrivialAlternative(s, q, i)
      case Some(e) => if WordBoundary(s, e) then Some(e) else TrivialGroupFrom(s, q, i + 1)
      case None => TrivialGroupFrom(s, q, i + 1)
  }

  /** `(\s+and\s+)?`, greedy: how much it consumes at `e`. */
  function TrailingAnd(s: string, e: nat): (n: nat)
    requires e <= |s|
    ensures e + n <= |s|
  {
    var a := Run(s, e, Space);
    if a >= 1 && At(s, e + a, "and") && Run(s, e + a + 3, Space) >= 1
    then a + 3 + Run(s, e + a + 3, Space)
    else 0
  }

  /** The end of a trivial-WHERE match starting at `p`, if there is one. */
  function TrivialWhereAt(s: string, p: nat): (r: Option<nat>)
    requires p <= |s|
    ensures r.Some? ==> At(s, p, "where") && p + 5 < r.value <= |s|
  {
    if !At(s, p, "where") then None
    else
      var w := Run(s, p + 5, Space);
      if w == 0 then None else TrivialWhereAfter(s, p + 5 + w)
  }

  /** The rest of the match once `where\s+` has reached `q`: the group, then
      the optional trailing `and`. */
  function TrivialWhereAfter(s: string, q: nat): (r: Option<nat>)
    requires q <= |s|
    ensures r.Some? ==> q < r.value <= |s|
  {
    match TrivialGroupFrom(s, q, 0)
    case None => None
    case Some(e) => Some(e + TrailingAnd(s, e))
  }

  /** Alternative `i` matches at `q` and `\b` holds after it. */
  predicate AlternativeWithBoundary(s: string, q: nat, i: nat)
    requires q <= |s| && i < |TrivialForms|
  {
    TrivialAlternative(s, q, i).Some? && WordBoundary(s, TrivialAlternative(s, q, i).value)
  }

  /** Alternative `j` is the first from `i` on after which `\b` holds. */
  predicate FirstWithBoundary(s: string, q: nat, i: nat, j: nat)
    requires q <= |s|
  {
    i <= j < |TrivialForms| && AlternativeWithBoundary(s, q, j)
    && forall j' :: i <= j' < j ==> !AlternativeWithBoundary(s, q, j')
  }

  /** The alternation with `\b` takes the first alternative, in the order of
      the source, after which `\b` holds. */
  lemma {:induction false} TrivialGroupFirst(s: string, q: nat, i: nat)
    requires q <= |s| && i <= |TrivialForms|
    ensures TrivialGroupFrom(s, q, i).Some? ==>
      exists j :: FirstWithBoundary(s, q, i, j) && TrivialAlternative(s, q, j) == TrivialGroupFrom(s, q, i)
    decreases |TrivialForms| - i
  {
    if i == |TrivialForms| {
    } else if AlternativeWithBoundary(s, q, i) {
      assert TrivialGroupFrom(s, q, i) == TrivialAlternative(s, q, i);
      assert FirstWithBoundary(s, q, i, i);
    } else {
      assert TrivialGroupFrom(s, q, i) == TrivialGroupFrom(s, q, i + 1);
      TrivialGroupFirst(s, q, i + 1);
      if TrivialGroupFrom(s, q, i).Some? {
        var j :| FirstWithBoundary(s, q, i + 1, j) && TrivialAlternative(s, q, j) == TrivialGroupFrom(s, q, i);
        assert FirstWithBoundary(s, q, i, j);
      }
    }
  }

  /** It fails exactly when no alternative is followed by `\b`. */
  lemma {:induction false} TrivialGroupNone(s: string, q: nat, i: nat)
    requires q <= |s| && i <= |TrivialForms|
    ensures TrivialGroupFrom(s, q, i).None? <==> forall j :: i <= j < |TrivialForms| ==> !AlternativeWithBoundary(s, q, j)
    decreases |TrivialForms| - i
  {
    if i < |TrivialForms| && !AlternativeWithBoundary(s, q, i) {
      TrivialGroupNone(s, q, i + 1);
    }
  }

  /** `(\s+and\s+)?` at `e` with `a` and `c` whitespace characters. */
  predicate AndAfter(s: string, e: nat, a: nat, c: nat) {
    1 <= a && 1 <= c && SpacesBetween(s, e, e + a) && At(s, e + a, "and") && SpacesBetween(s, e + a + 3, e + a + 3 + c)
  }

  /** The optional `and` is taken whenever it can be, with all the whitespace
      after it; nothing is taken otherwise, so an `or` stays. */
  lemma TrailingAndIff(s: string, e: nat)
    requires e <= |s|
    ensures TrailingAnd(s, e) > 0 <==> exists a: nat, c: nat :: AndAfter(s, e, a, c)
    ensures TrailingAnd(s, e) > 0 ==> exists a: nat, c: nat :: AndAfter(s, e, a, c) && TrailingAnd(s, e) == a + 3 + c
    ensures TrailingAnd(s, e) > 0 ==> e + TrailingAnd(s, e) == |s| || !IsSpace(s[e + TrailingAnd(s, e)])
  {
    if TrailingAnd(s, e) > 0 {
      TrailingAndTaken(s, e);
    } else {
      TrailingAndNotTaken(s, e);
    }
  }

  lemma TrailingAndTaken(s: string, e: nat)
    requires e <= |s| && TrailingAnd(s, e) > 0
    ensures var a := Run(s, e, Space);
      && e + a + 3 <= |s|
      && AndAfter(s, e, a, Run(s, e + a + 3, Space)) && TrailingAnd(s, e) == a + 3 + Run(s, e + a + 3, Space)
    ensures e + TrailingAnd(s, e) == |s| || !IsSpace(s[e + TrailingAnd(s, e)])
  {
    var a := Run(s, e, Space);
    var c := Run(s, e + a + 3, Space);
    assert TrailingAnd(s, e) == a + 3 + c;
  }

  lemma TrailingAndNotTaken(s: string, e: nat)
    requires e <= |s| && TrailingAnd(s, e) == 0
    ensures forall a': nat, c: nat :: !AndAfter(s, e, a', c)
  {
    var a := Run(s, e, Space);
    forall a': nat, c: nat | AndAfter(s, e, a', c) ensures false {
      AndRunUnique(s, e, a');
      RunBound(s, e + a + 3, e + a + 3 + c);
    }
  }

  lemma AndRunUnique(s: string, e: nat, a: nat)
    requires e <= |s| && SpacesBetween(s, e, e + a) && At(s, e + a, "and")
    ensures a == Run(s, e, Space)
  {
    RunBound(s, e, e + a);
    assert s[e + a] == "and"[0];
  }

  /** The global replacement applied to `s[p..]`: each match, scanning left to
      right, is deleted. */
  function RemoveTrivialWhereFrom(s: string, p: nat): (r: string)
    requires p <= |s|
    ensures |r| <= |s| - p
    decreases |s| - p
  {
    if p == |s| then ""
    else match TrivialWhereAt(s, p)
      case Some(e) => RemoveTrivialWhereFrom(s, e)
      case None => [s[p]] + RemoveTrivialWhereFrom(s, p + 1)
  }

  /** The global replacement over the whole text. */
  function RemoveTrivialWhere(s: string): (r: string)
    ensures |r| <= |s|
  {
    RemoveTrivialWhereFrom(s, 0)
  }

  /** A text with no match is left as it is. */
  lemma RemoveTrivialWhereNoMatch(s: string)
    requires forall q :: 0 <= q < |s| ==> TrivialWhereAt(s, q).None?
    ensures RemoveTrivialWhere(s) == s
  {
    RemoveTrivialWhereCopies(s, 0, |s|);
    assert s[0..|s|] + "" == s;
  }

  /** Where no match starts, the scan copies the text. */
  lemma {:induction false} RemoveTrivialWhereCopies(s: string, p: nat, q: nat)
    requires p <= q <= |s|
    requires forall i :: p <= i < q ==> TrivialWhereAt(s, i).None?
    ensures RemoveTrivialWhereFrom(s, p) == s[p..q] + RemoveTrivialWhereFrom(s, q)
    decreases q - p
  {
    if p < q {
      RemoveTrivialWhereCopies(s, p + 1, q);
      ConsSlice(s, p, q, RemoveTrivialWhereFrom(s, q));
    } else {
      assert s[p..q] == "";
    }
  }

  /** The replacement deletes the leftmost match and goes on after it: the
      text before the match is kept, the match is dropped. */
  lemma RemoveTrivialWhereLeftmost(s: string, p: nat, q: nat, e: nat)
    requires p <= q < |s|
    requires forall i :: p <= i < q ==> TrivialWhereAt(s, i).None?
    requires TrivialWhereAt(s, q) == Some(e)
    ensures RemoveTrivialWhereFrom(s, p) == s[p..q] + RemoveTrivialWhereFrom(s, e)
  {
    RemoveTrivialWhereCopies(s, p, q);
  }

  /** The deletion introduces no character. */
  lemma {:induction false} RemoveTrivialWhereFromChars(s: string, p: nat)
    requires p <= |s|
    ensures forall i :: 0 <= i < |RemoveTrivialWhereFrom(s, p)| ==> RemoveTrivialWhereFrom(s, p)[i] in s
    decreases |s| - p
  {
    if p < |s| {
      match TrivialWhereAt(s, p)
      case Some(e) => RemoveTrivialWhereFromChars(s, e);
      case None =>
        var rest := RemoveTrivialWhereFrom(s, p + 1);
        RemoveTrivialWhereFromChars(s, p + 1);
        assert RemoveTrivialWhereFrom(s, p) == [s[p]] + rest;
        assert s[p] in s;
    }
  }

  lemma RemoveTrivialWhereChars(s: string)
    ensures forall i :: 0 <= i < |RemoveTrivialWhere(s)| ==> RemoveTrivialWhere(s)[i] in s
  {
    RemoveTrivialWhereFromChars(s, 0);
  }

  /** A character other than `w` is copied by the scan. */
  lemma RemoveTrivialWhereStep(s: string, p: nat)
    requires p < |s| && s[p] != 'w'
    ensures RemoveTrivialWhereFrom(s, p) == [s[p]] + RemoveTrivialWhereFrom(s, p + 1)
  {
    assert !At(s, p, "where") by {
      assert p + 5 <= |s| ==> s[p..p + 5][0] == s[p];
    }
    assert TrivialWhereAt(s, p) == None;
  }

  /** Text with no `w` passes through the scan untouched. */
  lemma {:induction false} RemoveTrivialWhereSkips(s: string, p: nat, q: nat)
    requires p <= q <= |s|
    requires forall i :: p <= i < q ==> s[i] != 'w'
    ensures RemoveTrivialWhereFrom(s, p) == s[p..q] + RemoveTrivialWhereFrom(s, q)
    decreases q - p
  {
    if p < q {
      RemoveTrivialWhereStep(s, p);
      RemoveTrivialWhereSkips(s, p + 1, q);
      ConsSlice(s, p, q, RemoveTrivialWhereFrom(s, q));
    } else {
      assert s[p..q] == "";
    }
  }

  lemma ConsSlice(s: string, p: nat, q: nat, tail: string)
    requires p < q <= |s|
    ensures [s[p]] + (s[p + 1..q] + tail) == s[p..q] + tail
  {
    assert s[p..q] == [s[p]] + s[p + 1..q];
  }

  // ---------------------------------------------------------------------------

  /** `replace(/"/g, "'")`. */
  function DoubleToSingleQuotes(s: string): (r: string)
    ensures |r| == |s|
    ensures forall i :: 0 <= i < |s| ==> r[i] == (if s[i] == '"' then '\'' else s[i])
    ensures '"' !in r
  {
    seq(|s|, i requires 0 <= i < |s| => if s[i] == '"' then '\'' else s[i])
  }

  /** `normalizeSQL`: trim, lower-case, drop the trailing semicolons, collapse
      whitespace, turn double quotes into single ones, delete trivial WHERE text. */
  function NormalizeSQL(sql: string): (r: string)
    ensures |sql| == 0 ==> r == ""
    ensures NoUpper(r)
    ensures '"' !in r
    ensures forall i :: 0 <= i < |r| && IsSpace(r[i]) ==> r[i] == ' '
  {
    if |sql| == 0 then ""
    else
      var stripped := StripTrailingSemicolons(Lower(Trim(sql)));
      assert NoUpper(stripped);
      var r := RemoveTrivialWhere(DoubleToSingleQuotes(Collapse(stripped)));
      LaterStages(stripped, r);
      r
  }

  /** The stages after the semicolons go bring in no upper-case letter, no
      double quote and no whitespace other than the plain space. */
  lemma LaterStages(stripped: string, r: string)
    requires NoUpper(stripped)
    requires r == RemoveTrivialWhere(DoubleToSingleQuotes(Collapse(stripped)))
    ensures NoUpper(r)
    ensures '"' !in r
    ensures forall i :: 0 <= i < |r| && IsSpace(r[i]) ==> r[i] == ' '
  {
    var collapsed := Collapse(stripped);
    CollapseChars(stripped);
    assert NoUpper(collapsed);
    var quoted := DoubleToSingleQuotes(collapsed);
    RemoveTrivialWhereChars(quoted);
    assert forall i :: 0 <= i < |r| ==> exists j :: 0 <= j < |quoted| && quoted[j] == r[i];
  }

  /** With no semicolon and no `w` or `W` to act on, normalising keeps every
      non-whitespace character (lower-cased, double quotes made single) in
      order, with single spaces between words and none at either end. */
  lemma NormalizePlain(sql: string)
    requires forall i :: 0 <= i < |sql| ==> sql[i] != ';' && ToLower(sql[i]) != 'w'
    ensures Trimmed(NormalizeSQL(sql)) && SingleSpaced(NormalizeSQL(sql))
    ensures RemoveSpaces(NormalizeSQL(sql)) == DoubleToSingleQuotes(Lower(RemoveSpaces(sql)))
  {
    if |sql| > 0 {
      var c := Collapse(Lower(Trim(sql)));
      PlainStages(sql);
      CollapseTrimmed(Lower(Trim(sql)));
      QuotesKeepSpacing(c);
      QuotesRemoveSpaces(c);
      TrimKeepsText(sql);
      LowerRemoveSpaces(Trim(sql));
    }
  }

  /** Without a semicolon or a `w`, the stripping and deleting stages do nothing. */
  lemma PlainStages(sql: string)
    requires |sql| > 0
    requires forall i :: 0 <= i < |sql| ==> sql[i] != ';' && ToLower(sql[i]) != 'w'
    ensures Trimmed(Lower(Trim(sql)))
    ensures NormalizeSQL(sql) == DoubleToSingleQuotes(Collapse(Lower(Trim(sql))))
  {
    var t := Lower(Trim(sql));
    PlainLowered(sql);
    NoSemicolonKept(t);
    var c := Collapse(t);
    CollapseChars(t);
    var d := DoubleToSingleQuotes(c);
    NoWordWhere(d, 0, |d|);
    RemoveTrivialWhereNoMatch(d);
  }

  lemma PlainLowered(sql: string)
    requires forall i :: 0 <= i < |sql| ==> sql[i] != ';' && ToLower(sql[i]) != 'w'
    ensures var t := Lower(Trim(sql)); Trimmed(t) && forall i :: 0 <= i < |t| ==> t[i] != ';' && t[i] != 'w'
  {
    var u := Trim(sql);
    var t := Lower(u);
    forall i | 0 <= i < |t| ensures t[i] != ';' && t[i] != 'w' {
      assert u[i] in sql;
    }
  }

  /** Swapping quotes touches no whitespace. */
  lemma QuotesKeepSpacing(s: string)
    requires Trimmed(s) && SingleSpaced(s)
    ensures Trimmed(DoubleToSingleQuotes(s)) && SingleSpaced(DoubleToSingleQuotes(s))
  {
  }

  lemma DoubleToSingleQuotesAppend(a: string, b: string)
    ensures DoubleToSingleQuotes(a + b) == DoubleToSingleQuotes(a) + DoubleToSingleQuotes(b)
  {
  }

  /** Swapping quotes commutes with removing whitespace. */
  lemma {:induction false} QuotesRemoveSpaces(s: string)
    ensures RemoveSpaces(DoubleToSingleQuotes(s)) == DoubleToSingleQuotes(RemoveSpaces(s))
  {
    if |s| > 0 {
      var d := DoubleToSingleQuotes(s);
      QuotesRemoveSpaces(s[1..]);
      assert d[1..] == DoubleToSingleQuotes(s[1..]);
      if !IsSpace(s[0]) {
        DoubleToSingleQuotesAppend([s[0]], RemoveSpaces(s[1..]));
        assert DoubleToSingleQuotes([s[0]]) == [d[0]];
      }
    }
  }

  /** Normalising is not idempotent: a space before the semicolon survives the
      first pass and is trimmed by the second. */
  lemma NormalizeNotIdempotent()
    ensures NormalizeSQL("a ;") == "a "
    ensures NormalizeSQL(NormalizeSQL("a ;")) == "a"
  {
    FirstPass();
    SecondPass();
  }

  lemma FirstPass()
    ensures NormalizeSQL("a ;") == "a "
  {
    TrimLowerExample();
    StripExample();
    CollapseExample();
    QuoteWhereExample();
  }

  lemma QuoteWhereExample()
    ensures RemoveTrivialWhere(DoubleToSingleQuotes("a ")) == "a "
  {
    assert DoubleToSingleQuotes("a ") == "a ";
    RemoveTrivialWhereSkips("a ", 0, 2);
  }

  lemma TrimLowerExample()
    ensures Lower(Trim("a ;")) == "a ;"
  {
    assert Trim("a ;") == "a ;" by { assert Trimmed("a ;"); }
    LowerOfLowerCase("a ;");
  }

  lemma CollapseExample()
    ensures Collapse("a ") == "a "
  {
    assert CollapseFrom("a ", 2) == "";
    assert Run("a ", 1, Space) == 1;
  }

  lemma StripExample()
    ensures StripTrailingSemicolons("a ;") == "a "
  {
    var s := "a ;";
    assert !SemicolonTailAt(s, 0) && !SemicolonTailAt(s, 1);
    assert Run(s, 3, Space) == 0;
    assert Run(s, 2, Semicolon) == 1;
    assert SemicolonTailAt(s, 2);
    assert FirstSemicolonTail(s, 0) == 2;
  }

  lemma SecondPass()
    ensures NormalizeSQL("a ") == "a"
  {
    var t := "a ";
    TrailingSpacePass(t);
    assert t[..1] == "a";
  }

  /** Deleting a trivial WHERE leaves the space in front of it, which a second
      pass trims: normalising is not idempotent there either.  `s` spells
      `a where 1=1`; `s[..2]` is `a ` and `s[..1]` is `a`. */
  lemma TrivialWhereLeavesSpace(s: string)
    requires WhereOneIsOne(s)
    ensures NormalizeSQL(s) == s[..2]
    ensures NormalizeSQL(NormalizeSQL(s)) == s[..1]
  {
    WherePass(s);
    SecondWherePass(s);
  }

  lemma SecondWherePass(s: string)
    requires WhereOneIsOne(s)
    ensures NormalizeSQL(s[..2]) == s[..1]
  {
    var t := s[..2];
    assert |t| == 2 && t[0] == 'a' && t[1] == ' ';
    TrailingSpacePass(t);
    assert t[..1] == s[..1];
  }

  /** `t` spells `a `: the trailing space is trimmed. */
  lemma TrailingSpacePass(t: string)
    requires |t| == 2 && t[0] == 'a' && t[1] == ' '
    ensures NormalizeSQL(t) == t[..1]
  {
    TrimTrailingSpace(t);
    OneLetterPass(t[..1]);
  }

  lemma TrimTrailingSpace(t: string)
    requires |t| == 2 && t[0] == 'a' && t[1] == ' '
    ensures Trim(t) == t[..1]
  {
    assert Run(t, 0, Space) == 0;
    assert TrailingFrom(t, 0, 1) == 1;
    assert TrailingFrom(t, 0, 2) == 1;
  }

  /** A one-letter statement passes through every stage but trimming unchanged. */
  lemma OneLetterPass(u: string)
    requires |u| == 1 && u[0] == 'a'
    ensures Lower(u) == u && StripTrailingSemicolons(u) == u && Collapse(u) == u
    ensures DoubleToSingleQuotes(u) == u && RemoveTrivialWhere(u) == u
  {
    assert NoUpper(u);
    LowerOfLowerCase(u);
    NoSemicolonKept(u);
    CollapseNoSpace(u, 0);
    assert u[0..] == u;
    RemoveTrivialWhereSkips(u, 0, 1);
    assert u[0..1] + "" == u;
  }

  /** `s` spells `a where 1=1`. */
  predicate WhereOneIsOne(s: string) {
    && |s| == 11 && s[0] == 'a' && s[1] == ' '
    && s[2] == 'w' && s[3] == 'h' && s[4] == 'e' && s[5] == 'r' && s[6] == 'e'
    && s[7] == ' ' && s[8] == '1' && s[9] == '=' && s[10] == '1'
  }

  lemma WherePass(s: string)
    requires WhereOneIsOne(s)
    ensures NormalizeSQL(s) == s[..2]
  {
    WhereTrimLower(s);
    WhereStrip(s);
    WhereCollapse(s);
    WhereQuotes(s);
    WhereExample(s);
  }

  lemma WhereTrimLower(s: string)
    requires WhereOneIsOne(s)
    ensures Lower(Trim(s)) == s
  {
    assert Trim(s) == s by { assert Trimmed(s); }
    assert NoUpper(s);
    LowerOfLowerCase(s);
  }

  lemma WhereStrip(s: string)
    requires WhereOneIsOne(s)
    ensures StripTrailingSemicolons(s) == s
  {
    NoSemicolonKept(s);
  }

  lemma WhereCollapse(s: string)
    requires WhereOneIsOne(s)
    ensures Collapse(s) == s
  {
    assert SingleSpaced(s);
    CollapseOfSingleSpaced(s, 0);
    assert s[0..] == s;
  }

  lemma WhereQuotes(s: string)
    requires WhereOneIsOne(s)
    ensures DoubleToSingleQuotes(s) == s
  {
  }

  /** Text without a semicolon keeps its end. */
  lemma NoSemicolonKept(s: string)
    requires ';' !in s
    ensures StripTrailingSemicolons(s) == s
  {
  }

  lemma WhereExample(s: string)
    requires WhereOneIsOne(s)
    ensures RemoveTrivialWhere(s) == s[..2]
  {
    RemoveTrivialWhereSkips(s, 0, 2);
    assert TrivialWhereAt(s, 2) == Some(11) by {
      WhereAt(s);
      TrivialOneIsOne(s);
    }
    assert s[0..2] + "" == s[..2];
  }

  lemma WhereAt(s: string)
    requires WhereOneIsOne(s)
    ensures At(s, 2, "where") && Run(s, 7, Space) == 1
  {
    assert s[2..7] == "where";
    assert Run(s, 8, Space) == 0;
  }

  lemma TrivialOneIsOne(s: string)
    requires WhereOneIsOne(s)
    ensures TrivialGroupFrom(s, 8, 0) == Some(11) && TrailingAnd(s, 11) == 0
  {
    assert s[8..11] == "1=1";
    assert TrivialAlternative(s, 8, 0) == Some(11);
    assert WordBoundary(s, 11);
    assert Run(s, 11, Space) == 0;
  }

  /** `where 1=1 and ` before a word: the condition and the dangling `and` are
      deleted together. */
  lemma WhereOneAndDeleted(s: string, p: nat)
    requires At(s, p, "where 1=1 and ") && p + 14 < |s| && !IsSpace(s[p + 14])
    ensures TrivialWhereAt(s, p) == Some(p + 14)
    ensures RemoveTrivialWhereFrom(s, p) == RemoveTrivialWhereFrom(s, p + 14)
  {
    WhereOneAndAt(s, p);
    RemoveTrivialWhereLeftmost(s, p, p, p + 14);
  }

  lemma WhereOneAndAt(s: string, p: nat)
    requires At(s, p, "where 1=1 and ") && p + 14 < |s| && !IsSpace(s[p + 14])
    ensures TrivialWhereAt(s, p) == Some(p + 14)
  {
    WhereOneAndPrefix(s, p);
    WhereOneGroup(s, p);
    WhereOneAndTail(s, p);
    TrivialWhereAtGroup(s, p, p + 9);
  }

  lemma WhereOneAndPrefix(s: string, p: nat)
    requires At(s, p, "where 1=1 and ")
    ensures At(s, p, "where 1=1 ")
  {
    AtPrefix(s, p, "where 1=1 and ", "where 1=1 ");
  }

  /** `where 1=1 ` at `p`: one space, then the alternative `1=1` ending at `p + 9`. */
  lemma WhereOneGroup(s: string, p: nat)
    requires At(s, p, "where 1=1 ")
    ensures At(s, p, "where") && p + 6 <= |s|
    ensures Run(s, p + 5, Space) == 1 && TrivialGroupFrom(s, p + 6, 0) == Some(p + 9)
  {
    AtPrefix(s, p, "where 1=1 ", "where");
    AtPart(s, p, "where 1=1 ", 6, 9);
    AtPart(s, p, "where 1=1 ", 9, 10);
    AtChar(s, p, "where 1=1 ", 5);
    AtChar(s, p, "where 1=1 ", 6);
    RunExact(s, p + 5, p + 6, Space);
    assert "where 1=1 "[6..9] == "1=1" == TrivialForms[0];
    assert At(s, p + 6, TrivialForms[0]);
    assert TrivialAlternative(s, p + 6, 0) == Some(p + 9);
    assert WordBoundary(s, p + 9);
  }

  lemma WhereOneAndTail(s: string, p: nat)
    requires At(s, p, "where 1=1 and ") && p + 14 < |s| && !IsSpace(s[p + 14])
    ensures TrailingAnd(s, p + 9) == 5
  {
    AtChar(s, p, "where 1=1 and ", 9);
    AtChar(s, p, "where 1=1 and ", 10);
    AtChar(s, p, "where 1=1 and ", 13);
    AtPart(s, p, "where 1=1 and ", 10, 13);
    RunExact(s, p + 9, p + 10, Space);
    RunExact(s, p + 13, p + 14, Space);
    assert At(s, p + 10, "and");
  }

  /** `where 1=1 or `: only `where 1=1` is deleted, and ` or ` stays. */
  lemma WhereOneOrKept(s: string, p: nat)
    requires At(s, p, "where 1=1 or ")
    ensures TrivialWhereAt(s, p) == Some(p + 9)
    ensures RemoveTrivialWhereFrom(s, p) == s[p + 9..p + 13] + RemoveTrivialWhereFrom(s, p + 13)
  {
    WhereOneOrAt(s, p);
    WhereOneOrDrop(s, p);
    WhereOneOrCopy(s, p);
  }

  lemma WhereOneOrDrop(s: string, p: nat)
    requires At(s, p, "where 1=1 or ")
    ensures RemoveTrivialWhereFrom(s, p) == RemoveTrivialWhereFrom(s, p + 9)
  {
    WhereOneOrAt(s, p);
  }

  lemma WhereOneOrCopy(s: string, p: nat)
    requires At(s, p, "where 1=1 or ")
    ensures RemoveTrivialWhereFrom(s, p + 9) == s[p + 9..p + 13] + RemoveTrivialWhereFrom(s, p + 13)
  {
    AtPart(s, p, "where 1=1 or ", 9, 13);
    CopiesWithoutW(s, p + 9, p + 13);
  }

  lemma WhereOneOrAt(s: string, p: nat)
    requires At(s, p, "where 1=1 or ")
    ensures TrivialWhereAt(s, p) == Some(p + 9)
  {
    WhereOneOrPrefix(s, p);
    WhereOneGroup(s, p);
    WhereOneOrNoAnd(s, p);
    TrivialWhereAtGroup(s, p, p + 9);
  }

  lemma WhereOneOrPrefix(s: string, p: nat)
    requires At(s, p, "where 1=1 or ")
    ensures At(s, p, "where 1=1 ")
  {
    AtPrefix(s, p, "where 1=1 or ", "where 1=1 ");
  }

  lemma WhereOneOrNoAnd(s: string, p: nat)
    requires At(s, p, "where 1=1 or ")
    ensures TrailingAnd(s, p + 9) == 0
  {
    AtChar(s, p, "where 1=1 or ", 9);
    AtChar(s, p, "where 1=1 or ", 10);
    RunExact(s, p + 9, p + 10, Space);
    assert s[p + 10..p + 13][0] == 'o' != "and"[0];
    assert !At(s, p + 10, "and");
  }

  /** `where`, one space, and a trivial group ending at `e`: the match ends
      after the group and whatever trailing `and` follows it. */
  lemma TrivialWhereAtGroup(s: string, p: nat, e: nat)
    requires At(s, p, "where") && p + 6 <= |s|
    requires Run(s, p + 5, Space) == 1 && TrivialGroupFrom(s, p + 6, 0) == Some(e)
    ensures TrivialWhereAt(s, p) == Some(e + TrailingAnd(s, e))
  {
    assert TrivialWhereAt(s, p) == TrivialWhereAfter(s, p + 6);
  }

  /** `where true=true`: the alternative `true` comes before `true=true` and
      `\b` holds after it, so only `where true` is deleted and `=true` stays. */
  lemma WhereTrueLeavesEquals(s: string, p: nat)
    requires At(s, p, "where true=true")
    ensures TrivialWhereAt(s, p) == Some(p + 10)
    ensures RemoveTrivialWhereFrom(s, p) == s[p + 10..p + 15] + RemoveTrivialWhereFrom(s, p + 15)
  {
    WhereTrueAt(s, p);
    WhereTrueDrop(s, p);
    WhereTrueCopy(s, p);
  }

  lemma WhereTrueDrop(s: string, p: nat)
    requires At(s, p, "where true=true")
    ensures RemoveTrivialWhereFrom(s, p) == RemoveTrivialWhereFrom(s, p + 10)
  {
    WhereTrueAt(s, p);
  }

  lemma WhereTrueCopy(s: string, p: nat)
    requires At(s, p, "where true=true")
    ensures RemoveTrivialWhereFrom(s, p + 10) == s[p + 10..p + 15] + RemoveTrivialWhereFrom(s, p + 15)
  {
    AtPart(s, p, "where true=true", 10, 15);
    CopiesWithoutW(s, p + 10, p + 15);
  }

  lemma WhereTrueAt(s: string, p: nat)
    requires At(s, p, "where true=true")
    ensures TrivialWhereAt(s, p) == Some(p + 10)
  {
    WhereTrueGroup(s, p);
    WhereTrueNoAnd(s, p);
    TrivialWhereAtGroup(s, p, p + 10);
  }

  /** `where true` at `p`: one space, then the alternative `true`, which fails
      as `1=1` and is followed by `\b`. */
  lemma WhereTrueGroup(s: string, p: nat)
    requires At(s, p, "where true=true")
    ensures At(s, p, "where") && p + 6 <= |s|
    ensures Run(s, p + 5, Space) == 1 && TrivialGroupFrom(s, p + 6, 0) == Some(p + 10)
  {
    AtPrefix(s, p, "where true=true", "where");
    AtPart(s, p, "where true=true", 6, 10);
    AtChar(s, p, "where true=true", 5);
    AtChar(s, p, "where true=true", 6);
    AtChar(s, p, "where true=true", 9);
    AtChar(s, p, "where true=true", 10);
    RunExact(s, p + 5, p + 6, Space);
    assert TrivialAlternative(s, p + 6, 0) == None;
    assert "where true=true"[6..10] == "true" == TrivialForms[1];
    assert At(s, p + 6, TrivialForms[1]);
    assert TrivialAlternative(s, p + 6, 1) == Some(p + 10);
    assert WordBoundary(s, p + 10);
  }

  lemma WhereTrueNoAnd(s: string, p: nat)
    requires At(s, p, "where true=true")
    ensures TrailingAnd(s, p + 10) == 0
  {
    AtChar(s, p, "where true=true", 10);
    RunExact(s, p + 10, p + 10, Space);
  }

  /** A stretch without `w` is copied. */
  lemma CopiesWithoutW(s: string, i: nat, j: nat)
    requires i <= j <= |s| && forall k :: i <= k < j ==> s[k] != 'w'
    ensures RemoveTrivialWhereFrom(s, i) == s[i..j] + RemoveTrivialWhereFrom(s, j)
  {
    NoWordWhere(s, i, j);
    RemoveTrivialWhereCopies(s, i, j);
  }

  /** No match starts where there is no `w`. */
  lemma NoWordWhere(s: string, i: nat, j: nat)
    requires i <= j <= |s| && forall k :: i <= k < j ==> s[k] != 'w'
    ensures forall k :: i <= k < j ==> TrivialWhereAt(s, k).None?
  {
    forall k | i <= k < j ensures TrivialWhereAt(s, k).None? {
      assert !At(s, k, "where") by { if k + 5 <= |s| { assert s[k..k + 5][0] == s[k]; } }
    }
  }
}
