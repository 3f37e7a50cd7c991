/** `validateSQL` and `validateSQLAgainstMany`: the verdict on a submitted
    statement against one or several accepted answers. */
module Validate {
  import opened Text
  import opened Normalize
  import opened Parse
  import opened Compare

  /** The `{ isValid, feedback }` result. */
  datatype Verdict = Verdict(isValid: bool, feedback: string)

  const PerfectMatch: string := "Perfect match!"
  const Equivalent: string := "Correct! Your query is semantically equivalent."
  const NoAnswerMatches: string := "Your query does not match any of the expected answers."

  /** The clause checks, in the order they run. */
  const CheckCount: nat := 12

  /** `isTrivialWhere`: no condition at all, or only always-true ones. */
  predicate TrivialWhere(conds: seq<string>) {
    |conds| == 0 || forall i :: 0 <= i < |conds| ==> IsTrivialCondition(conds[i])
  }

  /** Check `i` finds the user's components `u` differing from the answer's `c`. */
  function Fails(i: nat, u: Parsed, c: Parsed): (r: bool)
    ensures i >= CheckCount ==> !r
    ensures i == 0 ==> (r <==> u.kind != c.kind)
    ensures i == 2 && |u.select| == |c.select| && ("*" in u.select || "*" in c.select) ==> !r
  {
    NameInjective(u.kind, c.kind);
    match i
    case 0 => u.kind.Name() != c.kind.Name()
    case 1 => u.distinct != c.distinct
    case 2 => !ArraysMatch(u.select, c.select, false, SelectList)
    case 3 => !ArraysMatch(u.from, c.from, false, FromList)
    case 4 => |u.joins| != |c.joins|
    case 5 => !(TrivialWhere(u.where) && TrivialWhere(c.where)) && !ArraysMatch(u.where, c.where, false, WhereList)
    case 6 => |u.groupBy| != |c.groupBy| || (|u.groupBy| > 0 && !ArraysMatch(u.groupBy, c.groupBy, false, GroupByList))
    case 7 => !(|u.having| == 0 && |c.having| == 0) && !ArraysMatch(u.having, c.having, false, HavingList)
    case 8 => !ArraysMatch(u.functions, c.functions, true, Other)
    case 9 => !(|u.orderBy| == 0 && |c.orderBy| == 0) && !ArraysMatch(u.orderBy, c.orderBy, false, OrderByList)
    case 10 => u.limit != c.limit
    case 11 => u.subqueries != c.subqueries
    case _ => false
  }

  /** The feedback of check `i`. */
  function Message(i: nat, c: Parsed): (r: string)
    ensures i < CheckCount ==> |r| >= 2
    ensures i >= CheckCount ==> r == ""
  {
    match i
    case 0 => "Wrong query type. Expected " + c.kind.Name()
    case 1 => "DISTINCT usage differs"
    case 2 => "SELECT clause differs"
    case 3 => "FROM clause differs"
    case 4 => "JOIN structure differs"
    case 5 => "WHERE clause differs"
    case 6 => "GROUP BY clause differs"
    case 7 => "HAVING clause differs"
    case 8 => "Aggregate functions differ"
    case 9 => "ORDER BY clause differs"
    case 10 => "LIMIT clause differs"
    case 11 => "Subquery structure differs"
    case _ => ""
  }

  /** The feedback names the check that failed: no two checks share a
      message, whatever the expected statement. */
  lemma MessageIdentifiesCheck(i: nat, j: nat, c: Parsed, d: Parsed)
    requires i < CheckCount && j < CheckCount
    requires Message(i, c) == Message(j, d)
    ensures i == j
  {
    var m, n := Message(i, c), Message(j, d);
    assert m[..2] == n[..2];
    assert MessageTag(i) == m[..2] by { TagOfMessage(i, c); }
    assert MessageTag(j) == n[..2] by { TagOfMessage(j, d); }
  }

  /** The first two characters of each message: all different. */
  function MessageTag(i: nat): string {
    match i
    case 0 => "Wr" case 1 => "DI" case 2 => "SE" case 3 => "FR"
    case 4 => "JO" case 5 => "WH" case 6 => "GR" case 7 => "HA"
    case 8 => "Ag" case 9 => "OR" case 10 => "LI" case 11 => "Su"
    case _ => ""
  }

  lemma TagOfMessage(i: nat, c: Parsed)
    requires i < CheckCount
    ensures Message(i, c)[..2] == MessageTag(i)
  {
  }

  /** The verdict on check `i` failing: its message alone (`feedback` holds
      one entry when it is joined). */
  function Reject(i: nat, c: Parsed): Verdict {
    Verdict(false, Message(i, c))
  }

  /** The first of checks `i`, `i + 1`, ... that fails, if any. */
  function FirstFailure(u: Parsed, c: Parsed, i: nat): (r: Option<nat>)
    requires i <= CheckCount
    ensures r.Some? ==> i <= r.value < CheckCount && Fails(r.value, u, c)
                        && forall j :: i <= j < r.value ==> !Fails(j, u, c)
    ensures r.None? <==> forall j :: i <= j < CheckCount ==> !Fails(j, u, c)
    decreases CheckCount - i
  {
    if i == CheckCount then None
    else if Fails(i, u, c) then Some(i)
    else FirstFailure(u, c, i + 1)
  }

  /** The checks of `validateSQL` on the parsed statements, run in order and
      stopping at the first that fails. */
  function CompareParsed(u: Parsed, c: Parsed): (r: Verdict)
    ensures r.isValid <==> forall i :: 0 <= i < CheckCount ==> !Fails(i, u, c)
    ensures r.isValid ==> r.feedback == Equivalent
    ensures !r.isValid ==> exists i :: 0 <= i < CheckCount && Fails(i, u, c) && r == Reject(i, c)
                                         && forall j :: 0 <= j < i ==> !Fails(j, u, c)
  {
    match FirstFailure(u, c, 0)
    case None => Verdict(true, Equivalent)
    case Some(i) => Reject(i, c)
  }

  /** Two comparisons whose checks fail alike give the same verdict. */
  lemma SameChecksSameVerdict(u1: Parsed, u2: Parsed, c: Parsed)
    requires forall i :: 0 <= i < CheckCount ==> Fails(i, u1, c) == Fails(i, u2, c)
    ensures CompareParsed(u1, c) == CompareParsed(u2, c)
  {
    var r1, r2 := CompareParsed(u1, c), CompareParsed(u2, c);
    if !r1.isValid {
      var i1 :| 0 <= i1 < CheckCount && Fails(i1, u1, c) && r1 == Reject(i1, c) && forall j :: 0 <= j < i1 ==> !Fails(j, u1, c);
      var i2 :| 0 <= i2 < CheckCount && Fails(i2, u2, c) && r2 == Reject(i2, c) && forall j :: 0 <= j < i2 ==> !Fails(j, u2, c);
      assert forall j :: 0 <= j < i2 ==> !Fails(j, u1, c);
      assert forall j :: 0 <= j < i1 ==> !Fails(j, u2, c);
    }
  }

  /** `validateSQL(userQuery, correctQuery)`. */
  function ValidateSQL(userQuery: string, correctQuery: string): (r: Verdict)
    ensures r.isValid <==> NormalizeSQL(userQuery) == NormalizeSQL(correctQuery)
                           || forall i :: 0 <= i < CheckCount ==> !Fails(i, ParseSQL(userQuery), ParseSQL(correctQuery))
    ensures r.isValid ==> r.feedback == PerfectMatch || r.feedback == Equivalent
    ensures r.isValid ==> (r.feedback == PerfectMatch <==> NormalizeSQL(userQuery) == NormalizeSQL(correctQuery))
    ensures !r.isValid ==> exists i :: 0 <= i < CheckCount && Fails(i, ParseSQL(userQuery), ParseSQL(correctQuery))
                             && r.feedback == Message(i, ParseSQL(correctQuery))
                             && forall j :: 0 <= j < i ==> !Fails(j, ParseSQL(userQuery), ParseSQL(correctQuery))
  {
    if NormalizeSQL(userQuery) == NormalizeSQL(correctQuery) then Verdict(true, PerfectMatch)
    else CompareParsed(ParseSQL(userQuery), ParseSQL(correctQuery))
  }

  // ---------------------------------------------------------------------------
  // Properties of one validation

  /** Statements with the same normal form are a perfect match; in particular
      every statement validates against itself. */
  lemma SameNormalFormIsPerfect(userQuery: string, correctQuery: string)
    requires NormalizeSQL(userQuery) == NormalizeSQL(correctQuery)
    ensures ValidateSQL(userQuery, correctQuery) == Verdict(true, PerfectMatch)
  {
  }

  lemma ValidateReflexive(q: string)
    ensures ValidateSQL(q, q) == Verdict(true, PerfectMatch)
  {
  }

  /** Each check is symmetric in its two statements. */
  lemma FailsSymmetric(i: nat, u: Parsed, c: Parsed)
    ensures Fails(i, u, c) == Fails(i, c, u)
  {
    match i
    case 2 => MatchSymmetric(u.select, c.select, false, SelectList);
    case 3 => MatchSymmetric(u.from, c.from, false, FromList);
    case 5 => MatchSymmetric(u.where, c.where, false, WhereList);
    case 6 => MatchSymmetric(u.groupBy, c.groupBy, false, GroupByList);
    case 7 => MatchSymmetric(u.having, c.having, false, HavingList);
    case 8 => MatchSymmetric(u.functions, c.functions, true, Other);
    case 9 => MatchSymmetric(u.orderBy, c.orderBy, false, OrderByList);
    case _ =>
  }

  /** Whether the checks accept does not depend on which side each statement
      is on. */
  lemma CompareSymmetric(u: Parsed, c: Parsed)
    ensures CompareParsed(u, c).isValid == CompareParsed(c, u).isValid
  {
    forall i | 0 <= i < CheckCount ensures Fails(i, u, c) == Fails(i, c, u) {
      FailsSymmetric(i, u, c);
    }
  }

  /** Whether a statement is accepted does not depend on which side it is on
      (the feedback may: it names the expected type). */
  lemma ValidSymmetric(a: string, b: string)
    ensures ValidateSQL(a, b).isValid == ValidateSQL(b, a).isValid
  {
    CompareSymmetric(ParseSQL(a), ParseSQL(b));
  }

  /** The JOIN clauses are compared by their number alone. */
  lemma JoinsOnlyCounted(u: Parsed, c: Parsed, joins: seq<string>)
    requires |joins| == |u.joins|
    ensures CompareParsed(u.(joins := joins), c) == CompareParsed(u, c)
  {
    var v := u.(joins := joins);
    assert forall i :: 0 <= i < CheckCount ==> Fails(i, v, c) == Fails(i, u, c);
    SameChecksSameVerdict(v, u, c);
  }

  /** A DISTINCT mismatch is reported before anything that comes later, a
      GROUP BY difference for one. */
  lemma DistinctReportedFirst(u: Parsed, c: Parsed)
    requires u.kind == c.kind && u.distinct != c.distinct
    ensures CompareParsed(u, c) == Verdict(false, "DISTINCT usage differs")
  {
    NameInjective(u.kind, c.kind);
  }

  /** A kind mismatch names the expected kind. */
  lemma WrongTypeNamesExpected(u: Parsed, c: Parsed)
    requires u.kind != c.kind
    ensures CompareParsed(u, c) == Verdict(false, "Wrong query type. Expected " + c.kind.Name())
  {
    NameInjective(u.kind, c.kind);
  }

  /** LIMIT is compared exactly: two statements without LIMIT agree, and a
      statement with one never agrees with one without. */
  lemma LimitComparedExactly(u: Parsed, c: Parsed)
    ensures Fails(10, u, c) <==> (u.limit.Some? != c.limit.Some? || (u.limit.Some? && u.limit.value != c.limit.value))
  {
  }

  // ---------------------------------------------------------------------------
  // `validateSQLAgainstMany`

  /** The accepted answers: one statement (a legacy single string) or a list. */
  datatype Answers = Single(query: string) | Several(queries: seq<string>)

  /** `possibleQueries`, a single answer wrapped in a one-element list. */
  function Candidates(answers: Answers): (r: seq<string>)
    ensures answers.Single? ==> r == [answers.query]
    ensures answers.Several? ==> r == answers.queries
  {
    match answers
    case Single(q) => [q]
    case Several(qs) => qs
  }

  /** The loop of `validateSQLAgainstMany` over the candidates, `check`
      validating the user's statement against one of them. */
  function FirstValid(check: string -> Verdict, queries: seq<string>): (r: Verdict)
    ensures r.isValid <==> exists i :: 0 <= i < |queries| && check(queries[i]).isValid
    ensures r.isValid ==> exists i :: 0 <= i < |queries| && r == check(queries[i])
                                        && forall j :: 0 <= j < i ==> !check(queries[j]).isValid
    ensures !r.isValid ==> r == Verdict(false, NoAnswerMatches)
  {
    if |queries| == 0 then Verdict(false, NoAnswerMatches)
    else
      var result := check(queries[0]);
      if result.isValid then result
      else
        var rest := FirstValid(check, queries[1..]);
        assert forall i :: 1 <= i < |queries| ==> queries[i] == queries[1..][i - 1];
        if rest.isValid then
          var k :| 0 <= k < |queries| - 1 && rest == check(queries[1..][k])
                   && forall j :: 0 <= j < k ==> !check(queries[1..][j]).isValid;
          assert rest == check(queries[k + 1]);
          rest
        else rest
  }

  /** `validateSQLAgainstMany(userQuery, possibleQueries)`. */
  function ValidateAgainstMany(userQuery: string, answers: Answers): (r: Verdict)
    ensures r.isValid <==> exists q :: q in Candidates(answers) && ValidateSQL(userQuery, q).isValid
    ensures !r.isValid ==> r.feedback == NoAnswerMatches
    ensures r.isValid ==> r.feedback == PerfectMatch || r.feedback == Equivalent
    ensures r.isValid ==> exists i :: 0 <= i < |Candidates(answers)| && r == ValidateSQL(userQuery, Candidates(answers)[i])
                                        && forall j :: 0 <= j < i ==> !ValidateSQL(userQuery, Candidates(answers)[j]).isValid
  {
    FirstValid(q => ValidateSQL(userQuery, q), Candidates(answers))
  }

  /** A single answer behaves like `validateSQL` when it accepts, and gives
      the fixed message when it does not. */
  lemma SingleAnswer(userQuery: string, q: string)
    ensures ValidateAgainstMany(userQuery, Single(q)) ==
      if ValidateSQL(userQuery, q).isValid then ValidateSQL(userQuery, q) else Verdict(false, NoAnswerMatches)
  {
    assert Candidates(Single(q))[1..] == [];
  }

  /** No answers at all: always the fixed failure. */
  lemma NoAnswers(userQuery: string)
    ensures ValidateAgainstMany(userQuery, Several([])) == Verdict(false, NoAnswerMatches)
  {
  }

  /** The statement itself among the answers is always accepted. */
  lemma SelfAmongAnswers(q: string, queries: seq<string>)
    requires q in queries
    ensures ValidateAgainstMany(q, Several(queries)).isValid
  {
    var i :| 0 <= i < |queries| && queries[i] == q;
    ValidateReflexive(q);
  }
}
