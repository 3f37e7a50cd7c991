/** `arraysMatch`: comparing one clause's item lists of two statements. */
module Compare {
  import opened Text
  import opened Normalize
  import opened Sorting
  import opened Fragments

  /** The `type` argument; `Other` is the empty default. */
  datatype ClauseKind = SelectList | FromList | WhereList | HavingList | GroupByList | OrderByList | Other

  /** `x.every((val, idx) => val === y[idx])`. */
  predicate EveryAt(x: seq<string>, y: seq<string>) {
    forall i :: 0 <= i < |x| ==> i < |y| && x[i] == y[i]
  }

  /** Sort both lists, then compare them position by position. */
  predicate SortedAgree(x: seq<string>, y: seq<string>) {
    EveryAt(Sort(x), Sort(y))
  }

  /** `x.every(val => y.some(v => v.includes(val) || val.includes(v)))`. */
  predicate FuzzyAgree(x: seq<string>, y: seq<string>) {
    forall i :: 0 <= i < |x| ==> exists j :: 0 <= j < |y| && (Contains(y[j], x[i]) || Contains(x[i], y[j]))
  }

  predicate NonTrivial(cond: string) {
    !IsTrivialCondition(cond)
  }

  function Same(cond: string): string {
    cond
  }

  /** `arr.filter(cond => !isTrivial(cond))`: exactly the conditions that are
      not always true, in their order. */
  function DropTrivial(a: seq<string>): (r: seq<string>)
    ensures exists idx :: Selects(a, NonTrivial, Same, r, idx)
    ensures |r| <= |a|
    ensures forall i :: 0 <= i < |r| ==> !IsTrivialCondition(r[i]) && r[i] in a
  {
    var r := FilterMap(NonTrivial, Same, a);
    FilterMapSelects(NonTrivial, Same, a);
    FilterMapLength(NonTrivial, Same, a);
    r
  }

  /** `arraysMatch(a1, a2, strict, type)`. */
  function ArraysMatch(a1: seq<string>, a2: seq<string>, strict: bool, kind: ClauseKind): (r: bool)
    ensures r ==> |a1| == |a2|
    ensures kind == SelectList && |a1| == |a2| && ("*" in a1 || "*" in a2) ==> r
  {
    if |a1| != |a2| then false
    else match kind
      case SelectList =>
        if "*" in a1 || "*" in a2 then true
        else SortedAgree(Map(NormalizeColumn, a1), Map(NormalizeColumn, a2))
      case FromList => SortedAgree(Map(NormalizeTable, a1), Map(NormalizeTable, a2))
      case WhereList => ConditionsAgree(a1, a2)
      case HavingList => ConditionsAgree(a1, a2)
      case GroupByList => SortedAgree(Map(NormalizeColumn, a1), Map(NormalizeColumn, a2))
      case OrderByList => EveryAt(Map(NormalizeColumn, a1), Map(NormalizeColumn, a2))
      case Other =>
        if strict then SortedAgree(a1, a2) else FuzzyAgree(Sort(a1), Sort(a2))
  }

  /** The WHERE/HAVING branch: trivial conditions dropped, then compared as
      normalised conditions. */
  predicate ConditionsAgree(a1: seq<string>, a2: seq<string>) {
    var f1 := DropTrivial(a1);
    var f2 := DropTrivial(a2);
    if |f1| == 0 && |f2| == 0 then true
    else if |f1| != |f2| then false
    else SortedAgree(Map(NormalizeCondition, f1), Map(NormalizeCondition, f2))
  }

  // ---------------------------------------------------------------------------
  // Sort-then-compare is multiset equality

  lemma EveryAtIff(x: seq<string>, y: seq<string>)
    requires |x| == |y|
    ensures EveryAt(x, y) <==> x == y
  {
  }

  /** On lists of equal length, sort-then-compare is multiset equality. */
  lemma SortedAgreeIff(x: seq<string>, y: seq<string>)
    requires |x| == |y|
    ensures SortedAgree(x, y) <==> multiset(x) == multiset(y)
  {
    SortEqualIff(x, y);
    EveryAtIff(Sort(x), Sort(y));
  }

  lemma MapAppend(f: string -> string, x: seq<string>, y: seq<string>)
    ensures Map(f, x + y) == Map(f, x) + Map(f, y)
  {
  }

  /** `b` without its item at `k`. */
  lemma RemoveAt(b: seq<string>, k: nat)
    requires k < |b|
    ensures b == b[..k] + [b[k]] + b[k + 1..]
    ensures multiset(b[..k] + b[k + 1..]) == multiset(b) - multiset{b[k]}
  {
    assert b == b[..k] + [b[k]] + b[k + 1..];
  }

  /** Where the head of `a` sits in `b`, for lists with the same multiset. */
  lemma HeadInPermutation(a: seq<string>, b: seq<string>) returns (k: nat)
    requires |a| > 0 && multiset(a) == multiset(b)
    ensures k < |b| && b[k] == a[0]
    ensures multiset(b[..k] + b[k + 1..]) == multiset(a[1..])
    ensures b == b[..k] + [b[k]] + b[k + 1..]
  {
    assert a[0] in multiset(b);
    k :| 0 <= k < |b| && b[k] == a[0];
    RemoveAt(b, k);
    TailMultiset(a);
  }

  /** The image of `x + [c] + y`, split the same way. */
  lemma MapSplit(f: string -> string, x: seq<string>, c: string, y: seq<string>)
    ensures multiset(Map(f, x + [c] + y)) == multiset(Map(f, x + y)) + multiset{f(c)}
  {
    MapAppend(f, x + [c], y);
    MapAppend(f, x, [c]);
    MapAppend(f, x, y);
  }

  /** The multiset of images depends only on the multiset of items. */
  lemma {:induction false} MapMultiset(f: string -> string, a: seq<string>, b: seq<string>)
    requires multiset(a) == multiset(b)
    ensures multiset(Map(f, a)) == multiset(Map(f, b))
    decreases |a|
  {
    if |a| == 0 {
      assert |b| == |multiset(b)| == 0;
    } else {
      var k := HeadInPermutation(a, b);
      var rest := b[..k] + b[k + 1..];
      MapMultiset(f, a[1..], rest);
      MapSplit(f, b[..k], b[k], b[k + 1..]);
      MapSplit(f, [], a[0], a[1..]);
      assert [] + [a[0]] + a[1..] == a && [] + a[1..] == a[1..];
    }
  }

  lemma DropTrivialAppend(x: seq<string>, y: seq<string>)
    ensures DropTrivial(x + y) == DropTrivial(x) + DropTrivial(y)
  {
    FilterMapAppend(NonTrivial, Same, x, y);
  }

  lemma DropTrivialSplit(x: seq<string>, c: string, y: seq<string>)
    ensures multiset(DropTrivial(x + [c] + y)) == multiset(DropTrivial(x + y)) + multiset(DropTrivial([c]))
  {
    DropTrivialAppend(x + [c], y);
    DropTrivialAppend(x, [c]);
    DropTrivialAppend(x, y);
  }

  /** Dropping the trivial conditions respects multisets. */
  lemma {:induction false} DropTrivialMultiset(a: seq<string>, b: seq<string>)
    requires multiset(a) == multiset(b)
    ensures multiset(DropTrivial(a)) == multiset(DropTrivial(b))
    decreases |a|
  {
    if |a| == 0 {
      assert |b| == |multiset(b)| == 0;
    } else {
      var k := HeadInPermutation(a, b);
      var rest := b[..k] + b[k + 1..];
      DropTrivialMultiset(a[1..], rest);
      DropTrivialSplit(b[..k], b[k], b[k + 1..]);
      DropTrivialSplit([], a[0], a[1..]);
      assert [] + [a[0]] + a[1..] == a && [] + a[1..] == a[1..];
    }
  }

  // ---------------------------------------------------------------------------
  // What each branch decides

  /** Lists of different lengths never match, whatever the branch; so a `*`
      does not rescue `[*]` against a two-item list. */
  lemma LengthsMustAgree(a1: seq<string>, a2: seq<string>, strict: bool, kind: ClauseKind)
    requires |a1| != |a2|
    ensures !ArraysMatch(a1, a2, strict, kind)
  {
  }

  /** SELECT lists: a `*` on either side matches any list of the same length;
      otherwise the normalised columns must agree as multisets. */
  lemma SelectMatchIff(a1: seq<string>, a2: seq<string>)
    ensures ArraysMatch(a1, a2, false, SelectList) <==>
      |a1| == |a2| && ("*" in a1 || "*" in a2 || multiset(Map(NormalizeColumn, a1)) == multiset(Map(NormalizeColumn, a2)))
  {
    if |a1| == |a2| {
      SortedAgreeIff(Map(NormalizeColumn, a1), Map(NormalizeColumn, a2));
    }
  }

  /** A sort-then-compare branch on lists of equal length. */
  lemma SortedBranchIff(x: seq<string>, y: seq<string>)
    ensures (|x| == |y| && SortedAgree(x, y)) <==> multiset(x) == multiset(y)
  {
    MultisetSameLength(x, y);
    if |x| == |y| {
      SortedAgreeIff(x, y);
    }
  }

  /** FROM lists: the normalised tables agree as multisets. */
  lemma FromMatchIff(a1: seq<string>, a2: seq<string>)
    ensures ArraysMatch(a1, a2, false, FromList) <==> multiset(Map(NormalizeTable, a1)) == multiset(Map(NormalizeTable, a2))
  {
    var x, y := Map(NormalizeTable, a1), Map(NormalizeTable, a2);
    assert ArraysMatch(a1, a2, false, FromList) == (|a1| == |a2| && SortedAgree(x, y));
    assert |x| == |a1| && |y| == |a2|;
    SortedBranchIff(x, y);
  }

  /** GROUP BY lists: the normalised columns agree as multisets. */
  lemma GroupByMatchIff(a1: seq<string>, a2: seq<string>)
    ensures ArraysMatch(a1, a2, false, GroupByList) <==> multiset(Map(NormalizeColumn, a1)) == multiset(Map(NormalizeColumn, a2))
  {
    assert ArraysMatch(a1, a2, false, GroupByList) == (|a1| == |a2| && SortedAgree(Map(NormalizeColumn, a1), Map(NormalizeColumn, a2)));
    MappedBranchIff(NormalizeColumn, a1, a2);
  }

  /** The sorted branch after the same normalisation on both sides. */
  lemma MappedBranchIff(f: string -> string, a1: seq<string>, a2: seq<string>)
    ensures (|a1| == |a2| && SortedAgree(Map(f, a1), Map(f, a2))) <==> multiset(Map(f, a1)) == multiset(Map(f, a2))
  {
    var x, y := Map(f, a1), Map(f, a2);
    assert |x| == |a1| && |y| == |a2|;
    SortedBranchIff(x, y);
  }

  lemma MultisetSameLength(x: seq<string>, y: seq<string>)
    ensures multiset(x) == multiset(y) ==> |x| == |y|
  {
    if multiset(x) == multiset(y) {
      assert |x| == |multiset(x)| == |multiset(y)| == |y|;
      assert |Sort(x)| == |Sort(y)|;
      EveryAtIff(Sort(x), Sort(y));
    }
  }

  /** WHERE and HAVING lists: once the trivial conditions are dropped, both
      are empty or the normalised conditions agree as multisets. */
  lemma ConditionsMatchIff(a1: seq<string>, a2: seq<string>, kind: ClauseKind)
    requires kind == WhereList || kind == HavingList
    ensures ArraysMatch(a1, a2, false, kind) <==>
      |a1| == |a2| &&
      ((|DropTrivial(a1)| == 0 && |DropTrivial(a2)| == 0) ||
       multiset(Map(NormalizeCondition, DropTrivial(a1))) == multiset(Map(NormalizeCondition, DropTrivial(a2))))
  {
    var f1, f2 := DropTrivial(a1), DropTrivial(a2);
    SortedBranchIff(Map(NormalizeCondition, f1), Map(NormalizeCondition, f2));
  }

  /** The strict default branch: the items agree as multisets. */
  lemma StrictMatchIff(a1: seq<string>, a2: seq<string>)
    ensures ArraysMatch(a1, a2, true, Other) <==> multiset(a1) == multiset(a2)
  {
    assert ArraysMatch(a1, a2, true, Other) == (|a1| == |a2| && SortedAgree(a1, a2));
    SortedBranchIff(a1, a2);
  }

  /** ORDER BY lists: the normalised columns agree position by position. */
  lemma OrderByMatchIff(a1: seq<string>, a2: seq<string>)
    ensures ArraysMatch(a1, a2, false, OrderByList) <==> Map(NormalizeColumn, a1) == Map(NormalizeColumn, a2)
  {
    var x, y := Map(NormalizeColumn, a1), Map(NormalizeColumn, a2);
    assert ArraysMatch(a1, a2, false, OrderByList) == (|a1| == |a2| && EveryAt(x, y));
    if |x| == |y| {
      EveryAtIff(x, y);
    }
  }

  /** `a` with the items at `i` and `j` exchanged. */
  function Swap(a: seq<string>, i: nat, j: nat): (r: seq<string>)
    requires i < |a| && j < |a|
    ensures |r| == |a| && r[i] == a[j] && r[j] == a[i]
    ensures forall k :: 0 <= k < |a| && k != i && k != j ==> r[k] == a[k]
  {
    a[i := a[j]][j := a[i]]
  }

  /** Exchanging two ORDER BY items that normalise differently breaks a match. */
  lemma OrderBySwapFails(a1: seq<string>, a2: seq<string>, i: nat, j: nat)
    requires i < |a1| && j < |a1|
    requires ArraysMatch(a1, a2, false, OrderByList)
    requires NormalizeColumn(a1[i]) != NormalizeColumn(a1[j])
    ensures !ArraysMatch(Swap(a1, i, j), a2, false, OrderByList)
  {
    OrderByMatchIff(a1, a2);
    OrderByMatchIff(Swap(a1, i, j), a2);
  }

  // ---------------------------------------------------------------------------
  // Order and symmetry

  /** Every branch but ORDER BY ignores the order of either list. */
  lemma PermutationInvariant(a1: seq<string>, b1: seq<string>, a2: seq<string>, kind: ClauseKind, strict: bool)
    requires multiset(a1) == multiset(b1)
    requires kind != OrderByList && kind != Other
    ensures ArraysMatch(a1, a2, strict, kind) == ArraysMatch(b1, a2, strict, kind)
  {
    MultisetSameLength(a1, b1);
    assert ("*" in a1) == ("*" in b1) by {
      assert ("*" in a1) == ("*" in multiset(a1));
    }
    match kind
    case SelectList =>
      MapMultiset(NormalizeColumn, a1, b1);
      SelectMatchIff(a1, a2);
      SelectMatchIff(b1, a2);
    case FromList =>
      MapMultiset(NormalizeTable, a1, b1);
      FromMatchIff(a1, a2);
      FromMatchIff(b1, a2);
    case GroupByList =>
      MapMultiset(NormalizeColumn, a1, b1);
      GroupByMatchIff(a1, a2);
      GroupByMatchIff(b1, a2);
    case _ =>
      DropTrivialMultiset(a1, b1);
      MultisetSameLength(DropTrivial(a1), DropTrivial(b1));
      MapMultiset(NormalizeCondition, DropTrivial(a1), DropTrivial(b1));
      ConditionsMatchIff(a1, a2, kind);
      ConditionsMatchIff(b1, a2, kind);
  }

  /** The strict default branch ignores order too. */
  lemma StrictPermutationInvariant(a1: seq<string>, b1: seq<string>, a2: seq<string>)
    requires multiset(a1) == multiset(b1)
    ensures ArraysMatch(a1, a2, true, Other) == ArraysMatch(b1, a2, true, Other)
  {
    StrictMatchIff(a1, a2);
    StrictMatchIff(b1, a2);
  }

  /** Every branch but the fuzzy one is symmetric. */
  lemma MatchSymmetric(a1: seq<string>, a2: seq<string>, strict: bool, kind: ClauseKind)
    requires kind != Other || strict
    ensures ArraysMatch(a1, a2, strict, kind) == ArraysMatch(a2, a1, strict, kind)
  {
    if kind == Other {
      StrictMatchIff(a1, a2);
      StrictMatchIff(a2, a1);
    } else {
      StrictIrrelevant(a1, a2, strict, kind);
      StrictIrrelevant(a2, a1, strict, kind);
      LenientSymmetric(a1, a2, kind);
    }
  }

  /** The strict flag only matters to the default branch. */
  lemma StrictIrrelevant(a1: seq<string>, a2: seq<string>, strict: bool, kind: ClauseKind)
    requires kind != Other
    ensures ArraysMatch(a1, a2, strict, kind) == ArraysMatch(a1, a2, false, kind)
  {
  }

  lemma LenientSymmetric(a1: seq<string>, a2: seq<string>, kind: ClauseKind)
    requires kind != Other
    ensures ArraysMatch(a1, a2, false, kind) == ArraysMatch(a2, a1, false, kind)
  {
    match kind
    case SelectList =>
      SelectMatchIff(a1, a2);
      SelectMatchIff(a2, a1);
    case FromList =>
      FromMatchIff(a1, a2);
      FromMatchIff(a2, a1);
    case GroupByList =>
      GroupByMatchIff(a1, a2);
      GroupByMatchIff(a2, a1);
    case OrderByList =>
    case _ =>
      ConditionsMatchIff(a1, a2, kind);
      ConditionsMatchIff(a2, a1, kind);
  }
}
