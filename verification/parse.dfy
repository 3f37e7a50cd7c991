/** `parseSQL` and `parseConditions`: the clause fragments of a statement,
    read off its normal form. */
module Parse {
  import opened Text
  import opened Normalize
  import opened Clauses

  /** The statement kind, decided by the first word of the normal form. */
  datatype QueryType = Select | Insert | Update | Delete | Unknown {
    /** The `type` field: the keyword in capitals, or the empty string. */
    function Name(): string {
      match this
      case Select => "SELECT"
      case Insert => "INSERT"
      case Update => "UPDATE"
      case Delete => "DELETE"
      case Unknown => ""
    }
  }

  /** The components record; `limit` is `null` (None) without a LIMIT. */
  datatype Parsed = Parsed(
    kind: QueryType,
    distinct: bool,
    select: seq<string>,
    from: seq<string>,
    joins: seq<string>,
    where: seq<string>,
    groupBy: seq<string>,
    having: seq<string>,
    orderBy: seq<string>,
    limit: Option<nat>,
    functions: seq<string>,
    subqueries: nat)

  function KindOf(n: string): (t: QueryType)
    ensures t.Unknown? <==> !(At(n, 0, "select") || At(n, 0, "insert") || At(n, 0, "update") || At(n, 0, "delete"))
    ensures t.Select? <==> At(n, 0, "select")
    ensures t.Insert? <==> At(n, 0, "insert")
    ensures t.Update? <==> At(n, 0, "update")
    ensures t.Delete? <==> At(n, 0, "delete")
  {
    if At(n, 0, "select") then Select
    else if At(n, 0, "insert") then Insert
    else if At(n, 0, "update") then Update
    else if At(n, 0, "delete") then Delete
    else Unknown
  }

  /** Different kinds have different names, so comparing the `type` strings
      compares the kinds. */
  lemma NameInjective(a: QueryType, b: QueryType)
    ensures a.Name() == b.Name() <==> a == b
  {
  }

  // ---------------------------------------------------------------------------
  // SELECT items: `s.trim().replace(/\s+as\s+/gi, ' as ')`

  /** `replace(/\s+as\s+/gi, ' as ')` on `s[p..]`. */
  function ReplaceAsFrom(s: string, p: nat): string
    requires p <= |s|
    decreases |s| - p
  {
    if p == |s| then ""
    else match AsAt(s, p)
      case Some(e) => " as " + ReplaceAsFrom(s, e)
      case None => [s[p]] + ReplaceAsFrom(s, p + 1)
  }

  /** On lower-case text the rewrite only touches whitespace. */
  lemma {:induction false} ReplaceAsKeepsText(s: string, p: nat)
    requires p <= |s| && NoUpper(s)
    ensures RemoveSpaces(ReplaceAsFrom(s, p)) == RemoveSpaces(s[p..])
    decreases |s| - p
  {
    if p < |s| {
      match AsAt(s, p)
      case Some(e) =>
        ReplaceAsKeepsText(s, e);
        AsMatchText(s, p);
        SpacedAs(ReplaceAsFrom(s, e));
      case None =>
        ReplaceAsKeepsText(s, p + 1);
        RemoveSpacesAppend([s[p]], s[p + 1..]);
        RemoveSpacesAppend([s[p]], ReplaceAsFrom(s, p + 1));
        assert s[p..] == [s[p]] + s[p + 1..];
    }
  }

  /** The pieces of a `\s+as\s+` match on lower-case text. */
  lemma AsAtShape(s: string, p: nat)
    requires p <= |s| && NoUpper(s) && AsAt(s, p).Some?
    ensures var w, e := Run(s, p, Space), AsAt(s, p).value;
      && 0 < w && p + w + 2 <= e <= |s| && s[p + w..p + w + 2] == "as"
      && (forall i :: p <= i < p + w ==> IsSpace(s[i]))
      && (forall i :: p + w + 2 <= i < e ==> IsSpace(s[i]))
  {
    var w := Run(s, p, Space);
    AtCIOfLowerCase(s, p + w, "as");
  }

  /** What a match of `\s+as\s+` leaves once whitespace is removed. */
  lemma AsMatchText(s: string, p: nat)
    requires p <= |s| && NoUpper(s) && AsAt(s, p).Some?
    ensures RemoveSpaces(s[p..]) == "as" + RemoveSpaces(s[AsAt(s, p).value..])
  {
    AsAtShape(s, p);
    AsPartsText(s, p, Run(s, p, Space), AsAt(s, p).value);
  }

  /** Whitespace, `as`, whitespace: only `as` is left once whitespace is removed. */
  lemma AsPartsText(s: string, p: nat, w: nat, e: nat)
    requires p + w + 2 <= e <= |s| && s[p + w..p + w + 2] == "as"
    requires forall i :: p <= i < p + w ==> IsSpace(s[i])
    requires forall i :: p + w + 2 <= i < e ==> IsSpace(s[i])
    ensures RemoveSpaces(s[p..]) == "as" + RemoveSpaces(s[e..])
  {
    SpacesOnly(s, p, p + w);
    SpacesOnly(s, p + w + 2, e);
    SliceSplit(s, p + w, p + w + 2);
    AsStep(s[p + w..], s[p + w..p + w + 2], s[p + w + 2..]);
    AsChain(RemoveSpaces(s[p..]), RemoveSpaces(s[p + w..]), RemoveSpaces(s[p + w + 2..]), RemoveSpaces(s[e..]));
  }

  lemma AsChain(a: string, b: string, c: string, d: string)
    requires a == b && b == "as" + c && c == d
    ensures a == "as" + d
  {
  }

  /** `x` is `as` before `t`. */
  lemma AsStep(x: string, a: string, t: string)
    requires a == "as" && x == a + t
    ensures RemoveSpaces(x) == "as" + RemoveSpaces(t)
  {
    RemoveSpacesAppend(a, t);
    assert NoSpace(a);
  }

  lemma SpacedAs(t: string)
    ensures RemoveSpaces(" as " + t) == "as" + RemoveSpaces(t)
  {
    assert " as " + t == " " + ("as" + (" " + t));
    RemoveSpacesAppend(" ", "as" + (" " + t));
    RemoveSpacesAppend("as", " " + t);
    RemoveSpacesAppend(" ", t);
  }

  function SelectItem(item: string): string {
    ReplaceAsFrom(Trim(item), 0)
  }

  /** `selectClause.split(',').map(…)`: the select list, item by item. */
  function SelectList(c: string): seq<string> {
    Map(SelectItem, Split(c, ','))
  }

  // ---------------------------------------------------------------------------
  // `parseConditions`

  /** `\s+(and|or)\s+` at `q`: the bounds of the captured operator and the end
      of the match. */
  function OperatorAt(s: string, q: nat): (r: Option<(nat, nat, nat)>)
    requires q <= |s|
    ensures r.Some? ==> q < r.value.0 < r.value.1 < r.value.2 <= |s|
  {
    var w := Run(s, q, Space);
    var a := q + w;
    if w == 0 then None
    else if AtCI(s, a, "and") && Run(s, a + 3, Space) >= 1 then Some((a, a + 3, a + 3 + Run(s, a + 3, Space)))
    else if AtCI(s, a, "or") && Run(s, a + 2, Space) >= 1 then Some((a, a + 2, a + 2 + Run(s, a + 2, Space)))
    else None
  }

  /** The leftmost operator match at or after `q`: where it starts, the
      operator's bounds and where it ends. */
  function FirstOperator(s: string, q: nat): (r: Option<(nat, nat, nat, nat)>)
    requires q <= |s|
    ensures r.Some? ==> q <= r.value.0 < |s| && OperatorAt(s, r.value.0) == Some((r.value.1, r.value.2, r.value.3))
    decreases |s| - q
  {
    if q == |s| then None
    else match OperatorAt(s, q)
      case Some((a, b, e)) => Some((q, a, b, e))
      case None => FirstOperator(s, q + 1)
  }

  /** The search finds the leftmost operator match from `q` on, and finds
      none exactly when none starts there. */
  lemma FirstOperatorLeftmost(s: string, q: nat)
    requires q <= |s|
    ensures var r := FirstOperator(s, q);
      && (r.Some? ==> forall k :: q <= k < r.value.0 ==> OperatorAt(s, k).None?)
      && (r.None? <==> forall k :: q <= k < |s| ==> OperatorAt(s, k).None?)
  {
    FirstOperatorNoneEarlier(s, q);
    FirstOperatorNone(s, q);
  }

  lemma {:induction false} FirstOperatorNoneEarlier(s: string, q: nat)
    requires q <= |s|
    ensures var r := FirstOperator(s, q); r.Some? ==> forall k :: q <= k < r.value.0 ==> OperatorAt(s, k).None?
    decreases |s| - q
  {
    if q < |s| && OperatorAt(s, q).None? {
      FirstOperatorNoneEarlier(s, q + 1);
    }
  }

  lemma {:induction false} FirstOperatorNone(s: string, q: nat)
    requires q <= |s|
    ensures FirstOperator(s, q).None? <==> forall k :: q <= k < |s| ==> OperatorAt(s, k).None?
    decreases |s| - q
  {
    if q == |s| {
    } else if OperatorAt(s, q).Some? {
      assert FirstOperator(s, q).Some?;
    } else {
      assert FirstOperator(s, q) == FirstOperator(s, q + 1);
      FirstOperatorNone(s, q + 1);
    }
  }

  lemma {:induction false} FirstOperatorBounds(s: string, q: nat)
    requires q <= |s|
    ensures var r := FirstOperator(s, q); r.Some? ==> q <= r.value.0 < r.value.1 < r.value.2 < r.value.3 <= |s|
    decreases |s| - q
  {
    if q < |s| && OperatorAt(s, q).None? {
      FirstOperatorBounds(s, q + 1);
    }
  }

  /** `s.split(/\s+(and|or)\s+/gi)`: the pieces between operators, with each
      captured operator between its two pieces. */
  function SplitOnOperators(s: string): (r: seq<string>)
    ensures Alternates(r)
    decreases |s|
  {
    FirstOperatorBounds(s, 0);
    match FirstOperator(s, 0)
    case Some((q, a, b, e)) =>
      var rest := SplitOnOperators(s[e..]);
      OperatorPiece(s, q, a, b, e);
      var r := [s[..q], s[a..b]] + rest;
      assert r[2..] == rest;
      r
    case None => [s]
  }

  /** A piece, then an operator (`and` or `or`, in any case) and a piece as
      often as need be. */
  predicate Alternates(r: seq<string>)
    decreases |r|
  {
    || |r| == 1
    || (|r| >= 3 && (Lower(r[1]) == "and" || Lower(r[1]) == "or") && Alternates(r[2..]))
  }

  /** The first piece of the split is the text before the leftmost operator
      match; without one, `s` is the only piece. */
  lemma SplitFirstPiece(s: string)
    ensures var r := SplitOnOperators(s);
      && |r[0]| <= |s| && r[0] == s[..|r[0]|] && NoOperatorBefore(s, |r[0]|)
      && (|r| == 1 <==> NoOperatorBefore(s, |s|))
      && (|r| == 1 ==> r == [s])
  {
    FirstOperatorBounds(s, 0);
    FirstOperatorLeftmost(s, 0);
    match FirstOperator(s, 0)
    case Some((q, a, b, e)) =>
      assert SplitOnOperators(s)[0] == s[..q];
      assert !NoOperatorBefore(s, |s|) by { assert !NoOperatorAt(s, q); }
    case None =>
      assert s[..|s|] == s;
  }

  /** The operator captured by a match is `and` or `or`, in any case. */
  lemma OperatorPiece(s: string, q: nat, a: nat, b: nat, e: nat)
    requires q <= |s| && OperatorAt(s, q) == Some((a, b, e))
    ensures Lower(s[a..b]) == "and" || Lower(s[a..b]) == "or"
  {
    LowerOfLowerCase("and");
    LowerOfLowerCase("or");
  }

  /** What `parseConditions` may output: a non-empty, trimmed, single-spaced
      fragment that is neither an operator nor one of the always-true forms. */
  predicate ConditionFragment(f: string) {
    && |f| > 0 && Trimmed(f) && SingleSpaced(f)
    && Lower(f) != "and" && Lower(f) != "or"
    && Lower(f) !in TrivialForms
  }

  /** A piece the filter keeps gives a condition fragment once collapsed. */
  lemma CollapsedFragment(t: string)
    requires |t| > 0 && Trimmed(t)
    requires Lower(t) != "and" && Lower(t) != "or" && !IsTrivialCondition(t)
    ensures ConditionFragment(Collapse(t))
  {
    var c := Collapse(t);
    CollapseTrimmed(t);
    if Lower(c) == "and" || Lower(c) == "or" {
      assert NoSpace(c) by {
        forall i | 0 <= i < |c| ensures !IsSpace(c[i]) {
          assert Lower(c)[i] == ToLower(c[i]);
        }
      }
      CollapseSpaceFree(t, 0);
    }
  }

  /** One pass of the loop of `parseConditions`: the piece, trimmed and
      collapsed, unless it is empty, an operator or always true. */
  function KeepOne(part: string): seq<string> {
    var t := Trim(part);
    if |t| > 0 && Lower(t) != "and" && Lower(t) != "or" && !IsTrivialCondition(t) then [Collapse(t)] else []
  }

  /** The loop of `parseConditions` over the pieces. */
  function KeepConditions(parts: seq<string>): seq<string> {
    FlatMap(KeepOne, parts)
  }

  lemma KeepOneFragment(part: string)
    ensures |KeepOne(part)| <= 1
    ensures forall i :: 0 <= i < |KeepOne(part)| ==> ConditionFragment(KeepOne(part)[i])
  {
    var t := Trim(part);
    if |t| > 0 && Lower(t) != "and" && Lower(t) != "or" && !IsTrivialCondition(t) {
      CollapsedFragment(t);
    }
  }

  lemma {:induction false} KeepConditionsFragments(parts: seq<string>)
    ensures |KeepConditions(parts)| <= |parts|
    ensures forall i :: 0 <= i < |KeepConditions(parts)| ==> ConditionFragment(KeepConditions(parts)[i])
    decreases |parts|
  {
    if |parts| > 0 {
      KeepOneFragment(parts[0]);
      KeepConditionsFragments(parts[1..]);
      var one := KeepOne(parts[0]);
      var rest := KeepConditions(parts[1..]);
      assert KeepConditions(parts) == one + rest by {
        assert FlatMap(KeepOne, parts) == KeepOne(parts[0]) + FlatMap(KeepOne, parts[1..]);
      }
      forall i | 0 <= i < |one + rest| ensures ConditionFragment((one + rest)[i]) {
        if i < |one| { assert (one + rest)[i] == one[i]; } else { assert (one + rest)[i] == rest[i - |one|]; }
      }
    }
  }

  lemma KeepConditionsAppend(a: seq<string>, b: seq<string>)
    ensures KeepConditions(a + b) == KeepConditions(a) + KeepConditions(b)
  {
    FlatMapAppend(KeepOne, a, b);
  }

  /** The pieces the loop keeps: non-empty once trimmed, and neither an
      operator nor always true. */
  predicate Keeps(part: string) {
    var t := Trim(part);
    |t| > 0 && Lower(t) != "and" && Lower(t) != "or" && !IsTrivialCondition(t)
  }

  /** What the loop pushes for a kept piece. */
  function Cleaned(part: string): string {
    Collapse(Trim(part))
  }

  lemma {:induction false} KeepConditionsFilters(parts: seq<string>)
    ensures KeepConditions(parts) == FilterMap(Keeps, Cleaned, parts)
    decreases |parts|
  {
    if |parts| > 0 {
      KeepConditionsFilters(parts[1..]);
      assert FlatMap(KeepOne, parts) == KeepOne(parts[0]) + FlatMap(KeepOne, parts[1..]);
    }
  }

  /** `parseConditions(conditionStr)`: the pieces between the operators that
      survive the filter, trimmed and collapsed, in their order, and no
      other. */
  function ParseConditions(str: string): (r: seq<string>)
    ensures forall i :: 0 <= i < |r| ==> ConditionFragment(r[i])
    ensures |str| == 0 ==> r == []
    ensures |str| > 0 ==> exists idx :: Selects(SplitOnOperators(str), Keeps, Cleaned, r, idx)
  {
    if |str| == 0 then []
    else
      KeepConditionsFragments(SplitOnOperators(str));
      KeepConditionsFilters(SplitOnOperators(str));
      FilterMapSelects(Keeps, Cleaned, SplitOnOperators(str));
      KeepConditions(SplitOnOperators(str))
  }

  /** A run is the same wherever the same text follows. */
  lemma {:induction false} RunSuffix(s: string, p: nat, t: string, k: CharClass)
    requires p <= |s| && s[p..] == t
    ensures Run(s, p, k) == Run(t, 0, k)
    decreases |t|
  {
    if p < |s| && InClass(s[p], k) {
      assert s[p + 1..] == t[1..];
      RunSuffix(s, p + 1, t[1..], k);
      RunSuffix(t, 1, t[1..], k);
    }
  }

  /** No operator match starts at `i`. */
  predicate NoOperatorAt(s: string, i: nat) {
    i <= |s| && OperatorAt(s, i).None?
  }

  /** No operator match starts before `n`. */
  predicate NoOperatorBefore(s: string, n: nat)
    requires n <= |s|
  {
    forall k :: 0 <= k < n ==> NoOperatorAt(s, k)
  }

  /** Past a position where no operator starts, the search moves on. */
  lemma NoOperatorStep(s: string, q: nat)
    requires q < |s| && OperatorAt(s, q).None?
    ensures FirstOperator(s, q) == FirstOperator(s, q + 1)
  {
  }

  /** With no operator between `q` and `n`, the search from `q` finds what
      the search from `n` finds. */
  lemma OperatorNotBefore(s: string, n: nat, q: nat)
    requires q <= n <= |s|
    requires forall i :: q <= i < n ==> NoOperatorAt(s, i)
    ensures FirstOperator(s, q) == FirstOperator(s, n)
  {
    FirstOperatorLeftmost(s, q);
    FirstOperatorLeftmost(s, n);
    var x, y := FirstOperator(s, q), FirstOperator(s, n);
    if x.Some? {
      var m := x.value.0;
      assert !NoOperatorAt(s, m);
      assert n <= m && OperatorAt(s, m).Some?;
      assert y.Some?;
      var l := y.value.0;
      assert OperatorAt(s, l).Some? && q <= l;
      assert l == m;
    } else {
      assert forall k :: n <= k < |s| ==> OperatorAt(s, k).None?;
    }
  }

  /** A word cannot hold an operator match: one starts with whitespace. */
  lemma WordNoOperator(s: string, x: string)
    requires NoSpace(x) && |x| <= |s| && s[..|x|] == x
    ensures NoOperatorBefore(s, |x|)
  {
    forall k | 0 <= k < |x| ensures OperatorAt(s, k).None? {
      assert s[k] == x[k];
      assert Run(s, k, Space) == 0;
    }
  }

  /** ` and ` at `n`: the first operator from `n` on, ending after all the
      whitespace that follows it. */
  lemma AndAt(s: string, n: nat)
    requires n + 5 <= |s|
    requires s[n] == ' ' && s[n + 1..n + 4] == "and" && s[n + 4] == ' '
    ensures FirstOperator(s, n) == Some((n, n + 1, n + 4, n + 5 + Run(s, n + 5, Space)))
  {
    AndOperatorAt(s, n);
    assert n < |s|;
  }

  lemma AndOperatorAt(s: string, n: nat)
    requires n + 5 <= |s|
    requires s[n] == ' ' && s[n + 1..n + 4] == "and" && s[n + 4] == ' '
    ensures OperatorAt(s, n) == Some((n + 1, n + 4, n + 5 + Run(s, n + 5, Space)))
  {
    assert !IsSpace(s[n + 1]) by { assert s[n + 1] == s[n + 1..n + 4][0]; }
    RunExact(s, n, n + 1, Space);
    assert Lower(s[n + 1..n + 4]) == Lower("and");
    assert AtCI(s, n + 1, "and");
    assert Run(s, n + 4, Space) == 1 + Run(s, n + 5, Space);
  }

  /** ` or ` at `n`, likewise. */
  lemma OrAt(s: string, n: nat)
    requires n + 4 <= |s|
    requires s[n] == ' ' && s[n + 1..n + 3] == "or" && s[n + 3] == ' '
    ensures FirstOperator(s, n) == Some((n, n + 1, n + 3, n + 4 + Run(s, n + 4, Space)))
  {
    OrOperatorAt(s, n);
    assert n < |s|;
  }

  lemma OrOperatorAt(s: string, n: nat)
    requires n + 4 <= |s|
    requires s[n] == ' ' && s[n + 1..n + 3] == "or" && s[n + 3] == ' '
    ensures OperatorAt(s, n) == Some((n + 1, n + 3, n + 4 + Run(s, n + 4, Space)))
  {
    assert s[n + 1] == 'o' by { assert s[n + 1] == s[n + 1..n + 3][0]; }
    RunExact(s, n, n + 1, Space);
    NotAtCIAnd(s, n + 1);
    assert Lower(s[n + 1..n + 3]) == Lower("or");
    assert AtCI(s, n + 1, "or");
    assert Run(s, n + 3, Space) == 1 + Run(s, n + 4, Space);
  }

  /** Text starting with `o` does not start with `and`, in any case. */
  lemma NotAtCIAnd(s: string, q: nat)
    requires q < |s| && s[q] == 'o'
    ensures !AtCI(s, q, "and")
  {
    if q + 3 <= |s| {
      assert Lower(s[q..q + 3])[0] == 'o' != Lower("and")[0];
    }
  }

  /** The split of a text whose first operator match is ` and ` at `n`; `e`
      is where the operator match ends. */
  lemma SplitAfterAnd(s: string, n: nat, e: nat)
    requires n + 5 <= |s|
    requires NoOperatorBefore(s, n)
    requires s[n] == ' ' && s[n + 1..n + 4] == "and" && s[n + 4] == ' '
    requires e == n + 5 + Run(s, n + 5, Space)
    ensures e <= |s| && SplitOnOperators(s) == [s[..n], "and"] + SplitOnOperators(s[e..])
  {
    AndAt(s, n);
    SplitAtWordEnd(s, n, n + 4, e);
    assert s[n + 1..n + 4] == "and";
  }

  /** The split of a text whose first operator match is ` or ` at `n`. */
  lemma SplitAfterOr(s: string, n: nat, e: nat)
    requires n + 4 <= |s|
    requires NoOperatorBefore(s, n)
    requires s[n] == ' ' && s[n + 1..n + 3] == "or" && s[n + 3] == ' '
    requires e == n + 4 + Run(s, n + 4, Space)
    ensures e <= |s| && SplitOnOperators(s) == [s[..n], "or"] + SplitOnOperators(s[e..])
  {
    OrAt(s, n);
    SplitAtWordEnd(s, n, n + 3, e);
    assert s[n + 1..n + 3] == "or";
  }

  /** The whitespace run at `p` is that of the text `y` found there. */
  lemma RunInSuffix(s: string, p: nat, y: string)
    requires p <= |s| && s[p..] == y
    ensures var k := Run(y, 0, Space); Run(s, p, Space) == k && s[p + k..] == y[k..]
  {
    RunSuffix(s, p, y, Space);
  }

  lemma AndLetters(s: string, n: nat)
    requires n + 5 <= |s| && s[n..n + 5] == " and "
    ensures s[n] == ' ' && s[n + 1..n + 4] == "and" && s[n + 4] == ' '
  {
    var w := s[n..n + 5];
    assert s[n] == w[0] && s[n + 1] == w[1] && s[n + 2] == w[2] && s[n + 3] == w[3] && s[n + 4] == w[4];
    assert w[1] == 'a' && w[2] == 'n' && w[3] == 'd';
    assert s[n + 1..n + 4] == [w[1], w[2], w[3]];
  }

  lemma OrLetters(s: string, n: nat)
    requires n + 4 <= |s| && s[n..n + 4] == " or "
    ensures s[n] == ' ' && s[n + 1..n + 3] == "or" && s[n + 3] == ' '
  {
    var w := s[n..n + 4];
    assert s[n] == w[0] && s[n + 1] == w[1] && s[n + 2] == w[2] && s[n + 3] == w[3];
    assert w[1] == 'o' && w[2] == 'r';
    assert s[n + 1..n + 3] == [w[1], w[2]];
  }

  /** A text made of `x`, ` and ` and a rest `y`, by position. */
  lemma SplitAndParts(s: string, x: string, y: string)
    requires |x| + 5 <= |s| && NoOperatorBefore(s, |x|)
    requires s[..|x|] == x && s[|x|..|x| + 5] == " and " && s[|x| + 5..] == y
    ensures SplitOnOperators(s) == [x, "and"] + SplitOnOperators(y[Run(y, 0, Space)..])
  {
    var n, k := |x|, Run(y, 0, Space);
    var e := n + 5 + k;
    assert e <= |s| && Run(s, n + 5, Space) == k && s[e..] == y[k..] by { RunInSuffix(s, n + 5, y); }
    SplitAndAt(s, n, e);
  }

  /** ` and ` at `n` with no operator match before it. */
  lemma SplitAndAt(s: string, n: nat, e: nat)
    requires n + 5 <= |s| && NoOperatorBefore(s, n) && s[n..n + 5] == " and "
    requires e == n + 5 + Run(s, n + 5, Space)
    ensures SplitOnOperators(s) == [s[..n], "and"] + SplitOnOperators(s[e..])
  {
    AndLetters(s, n);
    SplitAfterAnd(s, n, e);
  }


  /** A text made of `x`, ` or ` and a rest `y`, by position. */
  lemma SplitOrParts(s: string, x: string, y: string)
    requires |x| + 4 <= |s| && NoOperatorBefore(s, |x|)
    requires s[..|x|] == x && s[|x|..|x| + 4] == " or " && s[|x| + 4..] == y
    ensures SplitOnOperators(s) == [x, "or"] + SplitOnOperators(y[Run(y, 0, Space)..])
  {
    var n, k := |x|, Run(y, 0, Space);
    var e := n + 4 + k;
    assert e <= |s| && Run(s, n + 4, Space) == k && s[e..] == y[k..] by { RunInSuffix(s, n + 4, y); }
    SplitOrAt(s, n, e);
  }

  /** ` or ` at `n` with no operator match before it. */
  lemma SplitOrAt(s: string, n: nat, e: nat)
    requires n + 4 <= |s| && NoOperatorBefore(s, n) && s[n..n + 4] == " or "
    requires e == n + 4 + Run(s, n + 4, Space)
    ensures SplitOnOperators(s) == [s[..n], "or"] + SplitOnOperators(s[e..])
  {
    OrLetters(s, n);
    SplitAfterOr(s, n, e);
  }


  /** Splitting `x and y` when no operator match starts inside `x`: the
      pieces `x` and `and`, then the split of `y` without its leading
      whitespace. */
  lemma SplitAnd(x: string, y: string)
    requires NoOperatorBefore(x + " and " + y, |x|)
    ensures SplitOnOperators(x + " and " + y) == [x, "and"] + SplitOnOperators(y[Run(y, 0, Space)..])
  {
    var s := x + " and " + y;
    assert s[..|x|] == x && s[|x|..|x| + 5] == " and " && s[|x| + 5..] == y;
    SplitAndParts(s, x, y);
  }

  /** Splitting `x or y` when no operator match starts inside `x`, likewise. */
  lemma SplitOr(x: string, y: string)
    requires NoOperatorBefore(x + " or " + y, |x|)
    ensures SplitOnOperators(x + " or " + y) == [x, "or"] + SplitOnOperators(y[Run(y, 0, Space)..])
  {
    var s := x + " or " + y;
    assert s[..|x|] == x && s[|x|..|x| + 4] == " or " && s[|x| + 4..] == y;
    SplitOrParts(s, x, y);
  }

  /** The split when the first operator match starts at `n`. */
  lemma SplitAtWordEnd(s: string, n: nat, b: nat, e: nat)
    requires n + 1 <= b <= e <= |s|
    requires NoOperatorBefore(s, n)
    requires FirstOperator(s, n) == Some((n, n + 1, b, e))
    ensures SplitOnOperators(s) == [s[..n], s[n + 1..b]] + SplitOnOperators(s[e..])
  {
    OperatorNotBefore(s, n, 0);
    SplitAtFirst(s, n, n + 1, b, e);
  }

  lemma SplitAtFirst(s: string, q: nat, a: nat, b: nat, e: nat)
    requires q <= a <= b <= e <= |s| && 0 < e
    requires FirstOperator(s, 0) == Some((q, a, b, e))
    ensures SplitOnOperators(s) == [s[..q], s[a..b]] + SplitOnOperators(s[e..])
  {
  }

  /** The operator pieces are filtered out. */
  lemma OperatorsDropped(op: string)
    requires op == "and" || op == "or"
    ensures KeepConditions([op]) == []
  {
    KeepOneDropsOperator(op);
    assert [op][1..] == [];
    assert FlatMap(KeepOne, [op]) == KeepOne(op) + FlatMap(KeepOne, []);
  }

  lemma KeepOneDropsOperator(op: string)
    requires op == "and" || op == "or"
    ensures KeepOne(op) == []
  {
    assert Trimmed(op);
    assert Trim(op) == op;
    LowerOfLowerCase(op);
  }

  /** `x and y` and `x or y` give the same conditions, as long as the split
      finds no operator inside `x`. */
  lemma AndOrAlike(x: string, y: string)
    requires NoOperatorBefore(x + " and " + y, |x|) && NoOperatorBefore(x + " or " + y, |x|)
    ensures ParseConditions(x + " and " + y) == ParseConditions(x + " or " + y)
  {
    AndOrAlikePieces(x, y);
    ParseConditionsUnfold(x + " and " + y);
    ParseConditionsUnfold(x + " or " + y);
  }

  lemma ParseConditionsUnfold(str: string)
    requires |str| > 0
    ensures ParseConditions(str) == KeepConditions(SplitOnOperators(str))
  {
  }

  lemma AndOrAlikePieces(x: string, y: string)
    requires NoOperatorBefore(x + " and " + y, |x|) && NoOperatorBefore(x + " or " + y, |x|)
    ensures KeepConditions(SplitOnOperators(x + " and " + y)) == KeepConditions(SplitOnOperators(x + " or " + y))
  {
    var rest := SplitOnOperators(y[Run(y, 0, Space)..]);
    SplitAnd(x, y);
    SplitOr(x, y);
    OperatorDroppedBetween(x, "and", rest);
    OperatorDroppedBetween(x, "or", rest);
  }

  /** An operator piece between `x` and the rest leaves no trace. */
  lemma OperatorDroppedBetween(x: string, op: string, rest: seq<string>)
    requires op == "and" || op == "or"
    ensures KeepConditions([x, op] + rest) == KeepConditions([x]) + KeepConditions(rest)
  {
    assert [x, op] + rest == [x] + [op] + rest;
    KeepConditionsAppend([x] + [op], rest);
    KeepConditionsAppend([x], [op]);
    OperatorsDropped(op);
  }

  /** Without the precondition the two may differ: in `a and and y` the split
      takes the first ` and `, so the second operator stays in a piece. */
  lemma AndOrDifferWhenFirstHoldsOperator()
    ensures ParseConditions("a and" + " and " + "y") == ["a", "and y"]
    ensures ParseConditions("a and" + " or " + "y") == ["a", "or y"]
  {
    AndThenAnd();
    AndThenOr();
  }

  lemma AndThenAnd()
    ensures ParseConditions("a and" + " and " + "y") == ["a", "and y"]
  {
    LiteralPieces();
    AOperatorThen("and y");
    Regrouped();
  }

  lemma AndThenOr()
    ensures ParseConditions("a and" + " or " + "y") == ["a", "or y"]
  {
    LiteralPieces();
    AOperatorThen("or y");
    Regrouped();
  }

  lemma Regrouped()
    ensures "a and" + " and " + "y" == "a" + " and " + "and y"
    ensures "a and" + " or " + "y" == "a" + " and " + "or y"
  {
  }

  /** `a and y` for the two texts `y` that hold no operator match. */
  lemma AOperatorThen(y: string)
    requires y == "and y" || y == "or y"
    requires Trimmed(y) && SingleSpaced(y) && NoUpper(y) && y !in TrivialForms
    ensures ParseConditions("a" + " and " + y) == ["a", y]
  {
    SplitAfterA(y);
    NoOperatorIn(y);
    KeepThree(y);
    assert ["a", "and"] + [y] == ["a", "and", y];
  }

  /** `a and ` followed by `y`, for a `y` starting with a letter. */
  lemma SplitAfterA(y: string)
    requires |y| > 0 && !IsSpace(y[0])
    ensures SplitOnOperators("a" + " and " + y) == ["a", "and"] + SplitOnOperators(y)
  {
    var s := "a" + " and " + y;
    assert s[..1] == "a";
    WordNoOperator(s, "a");
    SplitAnd("a", y);
    assert Run(y, 0, Space) == 0;
    assert y[0..] == y;
  }

  lemma NoOperatorIn(y: string)
    requires y == "and y" || y == "or y"
    ensures SplitOnOperators(y) == [y]
  {
    forall k | 0 <= k < |y| ensures OperatorAt(y, k).None? {
      if IsSpace(y[k]) {
        assert k == |y| - 2 && y[k + 1] == 'y';
      } else {
        assert Run(y, k, Space) == 0;
      }
    }
    OperatorNotBefore(y, |y|, 0);
  }

  lemma LiteralPieces()
    ensures Trimmed("and y") && SingleSpaced("and y") && NoUpper("and y") && "and y" !in TrivialForms
    ensures Trimmed("or y") && SingleSpaced("or y") && NoUpper("or y") && "or y" !in TrivialForms
  {
  }

  lemma KeepThree(y: string)
    requires Trimmed(y) && SingleSpaced(y) && NoUpper(y) && |y| > 0
    requires y != "and" && y != "or" && y !in TrivialForms
    ensures KeepConditions(["a", "and", y]) == ["a", y]
  {
    PieceKept("a");
    PieceKept(y);
    OperatorsDropped("and");
    KeepTriple("a", "and", y);
  }

  lemma KeepTriple(a: string, b: string, c: string)
    ensures KeepConditions([a, b, c]) == KeepConditions([a]) + KeepConditions([b]) + KeepConditions([c])
  {
    assert [a, b, c] == [a] + [b] + [c];
    KeepConditionsAppend([a] + [b], [c]);
    KeepConditionsAppend([a], [b]);
  }

  /** A lower-case, trimmed, single-spaced piece that is neither an operator
      nor always true is kept as it is. */
  lemma PieceKept(t: string)
    requires Trimmed(t) && SingleSpaced(t) && NoUpper(t) && |t| > 0
    requires t != "and" && t != "or" && t !in TrivialForms
    ensures KeepConditions([t]) == [t]
  {
    KeepOneOfPlain(t);
    assert [t][1..] == [];
    assert FlatMap(KeepOne, [t]) == KeepOne(t) + FlatMap(KeepOne, []);
  }

  lemma KeepOneOfPlain(t: string)
    requires Trimmed(t) && SingleSpaced(t) && NoUpper(t) && |t| > 0
    requires t != "and" && t != "or" && t !in TrivialForms
    ensures KeepOne(t) == [t]
  {
    LowerOfLowerCase(t);
    assert t[0] != ' ';
    CollapseOfSingleSpaced(t, 0);
    assert t[0..] == t;
    assert Trim(t) == t;
    assert Collapse(t) == t;
    assert !IsTrivialCondition(t);
  }

  /** In particular for a first condition without whitespace. */
  lemma AndOrAlikeForWord(x: string, y: string)
    requires NoSpace(x)
    ensures ParseConditions(x + " and " + y) == ParseConditions(x + " or " + y)
  {
    var s1, s2 := x + " and " + y, x + " or " + y;
    assert s1[..|x|] == x && s2[..|x|] == x;
    WordNoOperator(s1, x);
    WordNoOperator(s2, x);
    AndOrAlike(x, y);
  }

  // ---------------------------------------------------------------------------
  // Aggregate functions

  const Aggregates: seq<string> := ["count", "sum", "avg", "min", "max"]

  /** `regex.test(normalized)` for `count`, `sum`, … from the `i`-th on, in order. */
  function FunctionsFrom(n: string, i: nat): (r: seq<string>)
    requires i <= |Aggregates|
    ensures forall x :: x in r <==> x in Aggregates[i..] && HasCall(n, x)
    ensures forall a, b :: 0 <= a < b < |r| ==> r[a] != r[b]
    ensures IsSubsequence(r, Aggregates[i..])
    decreases |Aggregates| - i
  {
    if i == |Aggregates| then []
    else
      var rest := FunctionsFrom(n, i + 1);
      assert Aggregates[i..] == [Aggregates[i]] + Aggregates[i + 1..];
      assert Aggregates[i] !in Aggregates[i + 1..];
      if HasCall(n, Aggregates[i]) then [Aggregates[i]] + rest else rest
  }

  /** `r` is `s` with some elements left out. */
  predicate IsSubsequence(r: seq<string>, s: seq<string>) {
    |r| == 0 || (|s| > 0 && (if r[0] == s[0] then IsSubsequence(r[1..], s[1..]) else IsSubsequence(r, s[1..])))
  }

  /** Two statements list the same aggregates exactly when they call the same ones. */
  lemma FunctionsAgree(n1: string, n2: string)
    ensures FunctionsFrom(n1, 0) == FunctionsFrom(n2, 0)
        <==> forall k :: 0 <= k < |Aggregates| ==> (HasCall(n1, Aggregates[k]) <==> HasCall(n2, Aggregates[k]))
  {
    if forall k :: 0 <= k < |Aggregates| ==> (HasCall(n1, Aggregates[k]) <==> HasCall(n2, Aggregates[k])) {
      SameCallsSameFunctions(n1, n2, 0);
    }
    if FunctionsFrom(n1, 0) == FunctionsFrom(n2, 0) {
      assert Aggregates[0..] == Aggregates;
      forall k | 0 <= k < |Aggregates| ensures HasCall(n1, Aggregates[k]) <==> HasCall(n2, Aggregates[k]) {
        assert Aggregates[k] in Aggregates;
      }
    }
  }

  lemma {:induction false} SameCallsSameFunctions(n1: string, n2: string, i: nat)
    requires i <= |Aggregates|
    requires forall k :: i <= k < |Aggregates| ==> (HasCall(n1, Aggregates[k]) <==> HasCall(n2, Aggregates[k]))
    ensures FunctionsFrom(n1, i) == FunctionsFrom(n2, i)
    decreases |Aggregates| - i
  {
    if i < |Aggregates| {
      SameCallsSameFunctions(n1, n2, i + 1);
    }
  }

  // ---------------------------------------------------------------------------
  // FROM

  /** `fromClause`: the table list of the FROM-then-WHERE pattern when its
      WHERE text is trivial, otherwise that of the plain FROM pattern. */
  function FromText(n: string): string {
    var viaWhere := match FromWhere(n)
      case Some((tables, cond)) => if IsTrivialCondition(cond) then tables else ""
      case None => "";
    if |viaWhere| > 0 then viaWhere
    else match Capture(FromPattern, n)
      case Some(tables) => tables
      case None => ""
  }

  /** `fragment.split(',').map(t => t.trim())`: one entry per comma-separated
      piece, that piece without its surrounding whitespace. */
  function TrimmedPieces(fragment: string): (r: seq<string>)
    ensures |r| == |Split(fragment, ',')| >= 1
    ensures forall i :: 0 <= i < |r| ==> IsTrimOf(Split(fragment, ',')[i], r[i])
    ensures forall i :: 0 <= i < |r| ==> Trimmed(r[i]) && ',' !in r[i]
  {
    var pieces := Split(fragment, ',');
    var r := Map(Trim, pieces);
    assert forall i :: 0 <= i < |r| ==> r[i] == Trim(pieces[i]);
    r
  }

  // ---------------------------------------------------------------------------
  // LIMIT

  /** The leftmost LIMIT match starts at `q`. */
  predicate FirstLimitAt(n: string, q: nat) {
    q <= |n| && LimitAt(n, q).Some? && forall k :: 0 <= k < q ==> LimitAt(n, k).None?
  }

  /** `parseInt` of the digits of the leftmost `limit\s+(\d+)` match, or null. */
  function LimitValue(n: string): (r: Option<nat>)
    ensures r.None? <==> forall q :: 0 <= q <= |n| ==> LimitAt(n, q).None?
    ensures r.Some? ==> exists q :: FirstLimitAt(n, q) && r.value == DecimalValue(LimitAt(n, q).value)
  {
    match FirstLimit(n, 0)
    case Some(q) => Some(DecimalValue(LimitAt(n, q).value))
    case None => None
  }

  // ---------------------------------------------------------------------------
  // The record

  function CapturedOr<T>(c: Option<string>, f: string -> seq<T>): seq<T> {
    match c
    case Some(text) => f(text)
    case None => []
  }

  /** The components read off the normal form `n`. */
  function ParseNormalized(n: string): (r: Parsed)
    ensures r.kind.Unknown? <==> !(At(n, 0, "select") || At(n, 0, "insert") || At(n, 0, "update") || At(n, 0, "delete"))
    ensures r.kind.Select? <==> At(n, 0, "select")
    ensures r.kind.Insert? <==> At(n, 0, "insert")
    ensures r.kind.Update? <==> At(n, 0, "update")
    ensures r.kind.Delete? <==> At(n, 0, "delete")
    ensures r.distinct <==> exists p :: 0 <= p <= |n| && SelectDistinctAt(n, p)
    ensures forall i :: 0 <= i < |r.where| ==> ConditionFragment(r.where[i])
    ensures forall i :: 0 <= i < |r.having| ==> ConditionFragment(r.having[i])
    ensures |r.joins| == |JoinsFrom(n, 0)|
    ensures forall i :: 0 <= i < |r.joins| ==> Trimmed(r.joins[i]) && SingleSpaced(r.joins[i]) && RemoveSpaces(r.joins[i]) == RemoveSpaces(JoinsFrom(n, 0)[i])
    ensures forall i :: 0 <= i < |r.from| ==> Trimmed(r.from[i])
    ensures r.limit.None? <==> forall q :: 0 <= q <= |n| ==> LimitAt(n, q).None?
    ensures r.limit.Some? ==> exists q :: FirstLimitAt(n, q) && r.limit.value == DecimalValue(LimitAt(n, q).value)
    ensures forall x :: x in r.functions <==> x in Aggregates && HasCall(n, x)
    ensures IsSubsequence(r.functions, Aggregates)
    ensures forall a, b :: 0 <= a < b < |r.functions| ==> r.functions[a] != r.functions[b]
    ensures 8 * r.subqueries <= |n|
  {
    var fromText := FromText(n);
    var joins := JoinsFrom(n, 0);
    assert Aggregates[0..] == Aggregates;
    Parsed(
      kind := KindOf(n),
      distinct := HasSelectDistinct(n),
      select := CapturedOr(SelectCapture(n), SelectList),
      from := if |fromText| > 0 then TrimmedPieces(fromText) else [],
      joins := JoinFragments(joins),
      where := CapturedOr(Capture(WherePattern, n), ParseConditions),
      groupBy := CapturedOr(Capture(GroupByPattern, n), TrimmedPieces),
      having := CapturedOr(Capture(HavingPattern, n), ParseConditions),
      orderBy := CapturedOr(Capture(OrderByPattern, n), TrimmedPieces),
      limit := LimitValue(n),
      functions := FunctionsFrom(n, 0),
      subqueries := SubqueriesFrom(n, 0))
  }

  /** A clause field read off the leftmost match of `pat`: empty when the
      pattern matches nowhere, otherwise `f` of the capture of the leftmost
      match. */
  ghost predicate ClauseField<T>(pat: Pattern, n: string, field: seq<T>, f: string -> seq<T>) {
    && ((forall q: nat :: q <= |n| ==> !MatchAt(pat, n, q)) ==> field == [])
    && ((exists q: nat :: q <= |n| && MatchAt(pat, n, q)) ==>
          exists a: nat, b: nat :: LeftmostCapture(pat, n, 0, a, b) && a <= b <= |n| && field == f(n[a..b]))
  }

  lemma CapturedOrField<T>(pat: Pattern, n: string, f: string -> seq<T>)
    ensures ClauseField(pat, n, CapturedOr(Capture(pat, n), f), f)
  {
    match Capture(pat, n)
    case Some(c) =>
      var a: nat, b: nat :| LeftmostCapture(pat, n, 0, a, b) && a <= b <= |n| && c == n[a..b];
      assert CapturedOr(Capture(pat, n), f) == f(n[a..b]);
    case None =>
  }

  /** WHERE, GROUP BY, HAVING and ORDER BY: each is read off the leftmost
      match of its own pattern, and is empty when that pattern matches
      nowhere. */
  lemma ParseClauses(n: string)
    ensures ClauseField(WherePattern, n, ParseNormalized(n).where, ParseConditions)
    ensures ClauseField(GroupByPattern, n, ParseNormalized(n).groupBy, TrimmedPieces)
    ensures ClauseField(HavingPattern, n, ParseNormalized(n).having, ParseConditions)
    ensures ClauseField(OrderByPattern, n, ParseNormalized(n).orderBy, TrimmedPieces)
  {
    CapturedOrField(WherePattern, n, ParseConditions);
    CapturedOrField(GroupByPattern, n, TrimmedPieces);
    CapturedOrField(HavingPattern, n, ParseConditions);
    CapturedOrField(OrderByPattern, n, TrimmedPieces);
  }

  /** SELECT: empty when the SELECT pattern matches nowhere, otherwise the
      items of the capture of the leftmost match. */
  lemma ParseSelect(n: string)
    ensures (forall q: nat :: q <= |n| ==> !SelectMatchAt(n, q)) ==> ParseNormalized(n).select == []
    ensures (exists q: nat :: q <= |n| && SelectMatchAt(n, q)) ==>
      exists a: nat, b: nat :: SelectLeftmost(n, 0, a, b) && a <= b <= |n| && ParseNormalized(n).select == SelectList(n[a..b])
  {
    match SelectCapture(n)
    case Some(c) =>
      var a: nat, b: nat :| SelectLeftmost(n, 0, a, b) && a <= b <= |n| && c == n[a..b];
      assert ParseNormalized(n).select == SelectList(n[a..b]);
    case None =>
  }

  /** FROM: the table list of the leftmost FROM-then-WHERE match when its
      WHERE text is one of the always-true forms; otherwise read off the
      leftmost match of the plain FROM pattern. */
  lemma ParseFrom(n: string)
    ensures FromWhere(n).Some? && IsTrivialCondition(FromWhere(n).value.1) ==>
      ParseNormalized(n).from == TrimmedPieces(FromWhere(n).value.0)
    ensures !(FromWhere(n).Some? && IsTrivialCondition(FromWhere(n).value.1)) ==>
      ClauseField(FromPattern, n, ParseNormalized(n).from, TrimmedPieces)
  {
    var r := ParseNormalized(n);
    if !(FromWhere(n).Some? && IsTrivialCondition(FromWhere(n).value.1)) {
      assert FromText(n) == match Capture(FromPattern, n) case Some(t) => t case None => "";
      CapturedOrField(FromPattern, n, TrimmedPieces);
      match Capture(FromPattern, n)
      case Some(t) =>
        assert r.from == TrimmedPieces(t);
      case None =>
    }
  }

  /** `j.trim().replace(/\s+/g, ' ')`: the same text, single-spaced, with no
      whitespace at either end. */
  function JoinFragment(j: string): (r: string)
    ensures Trimmed(r) && SingleSpaced(r)
    ensures RemoveSpaces(r) == RemoveSpaces(j)
  {
    CollapseTrimmed(Trim(j));
    TrimKeepsText(j);
    Collapse(Trim(j))
  }

  /** `joins.map(j => j.trim().replace(/\s+/g, ' '))`. */
  function JoinFragments(joins: seq<string>): (r: seq<string>)
    ensures |r| == |joins|
    ensures forall i :: 0 <= i < |r| ==> Trimmed(r[i]) && SingleSpaced(r[i]) && RemoveSpaces(r[i]) == RemoveSpaces(joins[i])
  {
    Map(JoinFragment, joins)
  }

  /** `parseSQL(sql)`: the components are read off the normal form; the
      empty statement gives the initial record. */
  function ParseSQL(sql: string): (r: Parsed)
    ensures |sql| == 0 ==> r == Parsed(Unknown, false, [], [], [], [], [], [], [], None, [], 0)
    ensures r.kind.Select? <==> At(NormalizeSQL(sql), 0, "select")
    ensures r.distinct <==> HasSelectDistinct(NormalizeSQL(sql))
    ensures r.limit.None? <==> forall q :: 0 <= q <= |NormalizeSQL(sql)| ==> LimitAt(NormalizeSQL(sql), q).None?
  {
    EmptyParse();
    ParseNormalized(NormalizeSQL(sql))
  }

  lemma EmptyParse()
    ensures ParseNormalized("") == Parsed(Unknown, false, [], [], [], [], [], [], [], None, [], 0)
  {
    EmptyKind();
    EmptyCaptures();
    EmptyLists();
  }

  lemma EmptyKind()
    ensures KindOf("") == Unknown && !HasSelectDistinct("")
  {
  }

  lemma EmptyCaptures()
    ensures SelectCapture("") == None
    ensures Capture(WherePattern, "") == None && Capture(GroupByPattern, "") == None
    ensures Capture(HavingPattern, "") == None && Capture(OrderByPattern, "") == None
  {
  }

  lemma EmptyLists()
    ensures FromText("") == "" && JoinsFrom("", 0) == [] && LimitValue("") == None
    ensures FunctionsFrom("", 0) == [] && SubqueriesFrom("", 0) == 0
  {
  }

  /** The parse sees only the normal form: statements with the same normal
      form parse alike. */
  lemma ParseSeesNormalForm(a: string, b: string)
    requires NormalizeSQL(a) == NormalizeSQL(b)
    ensures ParseSQL(a) == ParseSQL(b)
  {
  }
}
