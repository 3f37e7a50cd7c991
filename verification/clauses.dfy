/** The clause-extraction patterns of `parseSQL`, each written as a scanner that
    finds the same (leftmost) match a JavaScript regular expression finds.

    Backtracking order is followed literally where it can change the outcome:
    a greedy `\s+` directly before a lazy group is retried from its longest run
    down to one character, and a lazy group is grown one character at a time.
    A greedy `\s+` or `\w+` that is followed by a character it cannot match can
    only succeed at its longest run, so there the scanners take that run.
    Every pattern carries the `i` flag, so keywords compare ignoring ASCII case.
 */
module Clauses {
  import opened Text

  /** `head₁\s+head₂…\s+(body)\s+(?:stop₁|stop₂|…|$)`: a keyword (or two), a
      lazy capture of characters of one class (`*?` when `minLen` is 0, `+?`
      when it is 1), then whitespace and one of the stop words, or the end of
      the text when `atEnd` holds. */
  datatype Pattern = Pattern(head: seq<string>, body: CharClass, minLen: nat, stops: seq<string>, atEnd: bool)

  /** `/select\s+(?:distinct\s+)?(.*?)\s+from/i` without its optional `distinct`. */
  const SelectPattern := Pattern(["select"], NotLineEnd, 0, ["from"], false)
  /** `/from\s+([\w\s,]+?)(?:\s+(?:where|join|left|right|inner|group|order|limit|having|;|$))/i` */
  const FromPattern := Pattern(["from"], TableChar, 1,
                               ["where", "join", "left", "right", "inner", "group", "order", "limit", "having", ";"], true)
  /** `/where\s+(.*?)(?:\s+(?:group|order|limit|;|$))/i` */
  const WherePattern := Pattern(["where"], NotLineEnd, 0, ["group", "order", "limit", ";"], true)
  /** `/group\s+by\s+([\w\s,\.]+?)(?:\s+(?:having|order|limit|;|$))/i` */
  const GroupByPattern := Pattern(["group", "by"], GroupChar, 1, ["having", "order", "limit", ";"], true)
  /** `/having\s+(.*?)(?:\s+(?:order|limit|;|$))/i` */
  const HavingPattern := Pattern(["having"], NotLineEnd, 0, ["order", "limit", ";"], true)
  /** `/order\s+by\s+(.*?)(?:\s+(?:limit|;|$))/i` */
  const OrderByPattern := Pattern(["order", "by"], NotLineEnd, 0, ["limit", ";"], true)
  /** The second group of the FROM-then-WHERE pattern and what follows it:
      `([^;]+?)(?:\s+(?:group|order|limit|having|;|$))`. */
  const TrivialWhereTail := Pattern(["where"], NotSemicolon, 1, ["group", "order", "limit", "having", ";"], true)

  /** `\s+(?:stop₁|…|$)` matches at `e`.  The stop words start with a character
      that is not whitespace, so only the longest whitespace run can work. */
  predicate TailAt(pat: Pattern, s: string, e: nat)
    requires e <= |s|
  {
    var v := Run(s, e, Space);
    v >= 1 && ((exists i :: 0 <= i < |pat.stops| && AtCI(s, e + v, pat.stops[i])) || (pat.atEnd && e + v == |s|))
  }

  /** The body may run from `q` to `b`: long enough, every character of the
      body class, and the tail matches at `b`. */
  predicate BodyEnds(pat: Pattern, s: string, q: nat, b: nat) {
    q <= b <= |s| && b - q >= pat.minLen && (forall i :: q <= i < b ==> InClass(s[i], pat.body)) && TailAt(pat, s, b)
  }

  /** After a head ending at `h`, the match can go on with `\s+` over
      `s[h..a]` and the capture `s[a..b]`. */
  predicate Fits(pat: Pattern, s: string, h: nat, a: nat, b: nat) {
    h < a && SpacesBetween(s, h, a) && BodyEnds(pat, s, a, b)
  }

  /** The capture a backtracking matcher reports after a head ending at `h`:
      it fits, no fitting capture starts later (the `\s+` before it is
      greedy) and none with the same start ends earlier (the body is lazy). */
  ghost predicate Chosen(pat: Pattern, s: string, h: nat, a: nat, b: nat) {
    && Fits(pat, s, h, a, b)
    && (forall a': nat, b': nat :: Fits(pat, s, h, a', b') ==> a' <= a)
    && (forall b': nat :: BodyEnds(pat, s, a, b') ==> b <= b')
  }

  /** The pattern matches at `p`. */
  ghost predicate MatchAt(pat: Pattern, s: string, p: nat) {
    p <= |s| && HeadEnd(s, p, pat.head).Some? && exists a: nat, b: nat :: Fits(pat, s, HeadEnd(s, p, pat.head).value, a, b)
  }

  /** `s[a..b]` is the capture of the leftmost match at or after `p`. */
  ghost predicate LeftmostCapture(pat: Pattern, s: string, p: nat, a: nat, b: nat) {
    exists q: nat :: p <= q <= |s| && (forall k: nat :: p <= k < q ==> !MatchAt(pat, s, k))
                && HeadEnd(s, q, pat.head).Some? && Chosen(pat, s, HeadEnd(s, q, pat.head).value, a, b)
  }

  /** The lazy capture starting at `q`, already grown to `e`: the first end,
      trying `e`, `e + 1`, …, at which the capture is long enough and the tail
      matches. */
  function LazyBody(pat: Pattern, s: string, q: nat, e: nat): (r: Option<nat>)
    requires q <= e <= |s|
    requires forall i :: q <= i < e ==> InClass(s[i], pat.body)
    ensures r.Some? ==> e <= r.value <= |s| && r.value - q >= pat.minLen && TailAt(pat, s, r.value)
    ensures r.Some? ==> forall i :: q <= i < r.value ==> InClass(s[i], pat.body)
    ensures r.Some? ==> BodyEnds(pat, s, q, r.value) && forall b: nat :: e <= b < r.value ==> !BodyEnds(pat, s, q, b)
    ensures r.None? ==> forall b: nat :: e <= b ==> !BodyEnds(pat, s, q, b)
    decreases |s| - e
  {
    if e - q >= pat.minLen && TailAt(pat, s, e) then Some(e)
    else if e < |s| && InClass(s[e], pat.body) then
      LazyBodyPasses(pat, s, q, e);
      LazyBody(pat, s, q, e + 1)
    else
      LazyBodyStops(pat, s, q, e);
      None
  }

  /** The capture cannot end at `e` when the tail does not match there. */
  lemma LazyBodyPasses(pat: Pattern, s: string, q: nat, e: nat)
    requires q <= e < |s| && InClass(s[e], pat.body)
    requires forall i :: q <= i < e ==> InClass(s[i], pat.body)
    requires !(e - q >= pat.minLen && TailAt(pat, s, e))
    ensures !BodyEnds(pat, s, q, e)
    ensures forall i :: q <= i < e + 1 ==> InClass(s[i], pat.body)
  {
  }

  /** Nor can it end anywhere from `e` on when it cannot grow past `e`. */
  lemma LazyBodyStops(pat: Pattern, s: string, q: nat, e: nat)
    requires q <= e <= |s|
    requires e == |s| || !InClass(s[e], pat.body)
    requires !(e - q >= pat.minLen && TailAt(pat, s, e))
    ensures forall b: nat :: e <= b ==> !BodyEnds(pat, s, q, b)
  {
  }

  /** The keywords of the head, separated by whitespace, matched at `p`: where
      the last keyword ends. */
  function HeadEnd(s: string, p: nat, words: seq<string>): (r: Option<nat>)
    requires p <= |s|
    ensures r.Some? ==> p <= r.value <= |s|
    ensures r.Some? && |words| > 0 ==> p + |words[0]| <= r.value
    decreases words
  {
    if |words| == 0 then Some(p)
    else if !AtCI(s, p, words[0]) then None
    else if |words| == 1 then Some(p + |words[0]|)
    else
      var w := Run(s, p + |words[0]|, Space);
      if w == 0 then None else HeadEnd(s, p + |words[0]| + w, words[1..])
  }

  /** The `\s+` before the capture, tried with `k`, `k - 1`, …, 1 characters. */
  function SpaceThenBody(pat: Pattern, s: string, h: nat, k: nat): (r: Option<(nat, nat)>)
    requires h + k <= |s|
    requires SpacesBetween(s, h, h + k)
    ensures r.Some? ==> h < r.value.0 <= h + k && r.value.0 <= r.value.1 <= |s|
    ensures r.Some? ==> r.value.1 - r.value.0 >= pat.minLen && TailAt(pat, s, r.value.1)
    ensures r.Some? ==> Fits(pat, s, h, r.value.0, r.value.1)
    ensures r.Some? ==> forall a: nat, b: nat :: r.value.0 < a <= h + k ==> !BodyEnds(pat, s, a, b)
    ensures r.Some? ==> forall b: nat :: b < r.value.1 ==> !BodyEnds(pat, s, r.value.0, b)
    ensures r.None? ==> forall a: nat, b: nat :: h < a <= h + k ==> !BodyEnds(pat, s, a, b)
    decreases k
  {
    if k == 0 then None
    else match LazyBody(pat, s, h + k, h + k)
      case Some(e) =>
        SpaceBodyHere(pat, s, h, k, e);
        Some((h + k, e))
      case None =>
        assert SpacesBetween(s, h, h + k - 1);
        var r := SpaceThenBody(pat, s, h, k - 1);
        SpaceBodyShorter(pat, s, h, k, r);
        r
  }

  /** What the search over whitespace runs of at most `k` characters after `h`
      reports: a capture `a..b` that fits, with no capture starting later
      within the run and none from `a` ending earlier; or nothing, when no
      capture starts anywhere in `h + 1..h + k`. */
  ghost predicate SpaceBodyReport(pat: Pattern, s: string, h: nat, k: nat, r: Option<(nat, nat)>)
    requires h + k <= |s|
  {
    && (r.Some? ==> && h < r.value.0 <= h + k && r.value.0 <= r.value.1 <= |s|
                    && r.value.1 - r.value.0 >= pat.minLen && TailAt(pat, s, r.value.1)
                    && Fits(pat, s, h, r.value.0, r.value.1)
                    && (forall a: nat, b: nat :: r.value.0 < a <= h + k ==> !BodyEnds(pat, s, a, b))
                    && (forall b: nat :: b < r.value.1 ==> !BodyEnds(pat, s, r.value.0, b)))
    && (r.None? ==> forall a: nat, b: nat :: h < a <= h + k ==> !BodyEnds(pat, s, a, b))
  }

  /** The longest run tried first: a capture starting right after it is reported. */
  lemma SpaceBodyHere(pat: Pattern, s: string, h: nat, k: nat, e: nat)
    requires 0 < k && h + k <= |s| && SpacesBetween(s, h, h + k)
    requires LazyBody(pat, s, h + k, h + k) == Some(e)
    ensures SpaceBodyReport(pat, s, h, k, Some((h + k, e)))
  {
    BodyNotBefore(pat, s, h + k, e);
  }

  /** No capture starts right after the longest run: the report for the
      shorter runs stands. */
  lemma SpaceBodyShorter(pat: Pattern, s: string, h: nat, k: nat, r: Option<(nat, nat)>)
    requires 0 < k && h + k <= |s|
    requires LazyBody(pat, s, h + k, h + k).None?
    requires SpaceBodyReport(pat, s, h, k - 1, r)
    ensures SpaceBodyReport(pat, s, h, k, r)
  {
    NoBodyFrom(pat, s, h + k);
    var lo := if r.Some? then r.value.0 else h;
    assert forall a: nat, b: nat :: lo < a <= h + k - 1 ==> !BodyEnds(pat, s, a, b);
    forall a: nat, b: nat | lo < a <= h + k ensures !BodyEnds(pat, s, a, b) {
      if a == h + k {
        assert !BodyEnds(pat, s, h + k, b);
      }
    }
  }

  /** A capture starting at `a` ends at or after its first end `e`. */
  lemma BodyNotBefore(pat: Pattern, s: string, a: nat, e: nat)
    requires a <= |s| && LazyBody(pat, s, a, a) == Some(e)
    ensures forall b: nat :: b < e ==> !BodyEnds(pat, s, a, b)
  {
  }

  /** No capture starts at `a` when the lazy search from `a` finds none. */
  lemma NoBodyFrom(pat: Pattern, s: string, a: nat)
    requires a <= |s| && LazyBody(pat, s, a, a).None?
    ensures forall b: nat :: !BodyEnds(pat, s, a, b)
  {
  }

  /** Tried from the longest whitespace run, the capture found is the chosen
      one, and none is found only when none fits. */
  lemma SpaceThenBodyChosen(pat: Pattern, s: string, h: nat)
    requires h <= |s|
    ensures var r := SpaceThenBody(pat, s, h, Run(s, h, Space));
      && (r.Some? ==> Chosen(pat, s, h, r.value.0, r.value.1))
      && (r.None? <==> forall a: nat, b: nat :: !Fits(pat, s, h, a, b))
  {
    var k := Run(s, h, Space);
    var r := SpaceThenBody(pat, s, h, k);
    forall a: nat, b: nat | Fits(pat, s, h, a, b) ensures a <= h + k {
      RunBound(s, h, a);
    }
  }

  /** A match of the pattern starting at `p`: the bounds of the capture. */
  function CaptureAt(pat: Pattern, s: string, p: nat): (r: Option<(nat, nat)>)
    requires p <= |s|
    ensures r.Some? && |pat.head| > 0 ==> p + |pat.head[0]| < r.value.0
    ensures r.Some? ==> r.value.0 <= r.value.1 <= |s| && r.value.1 - r.value.0 >= pat.minLen
    ensures r.Some? ==> TailAt(pat, s, r.value.1)
    ensures r.Some? ==> HeadEnd(s, p, pat.head).Some? && Chosen(pat, s, HeadEnd(s, p, pat.head).value, r.value.0, r.value.1)
    ensures r.None? <==> !MatchAt(pat, s, p)
  {
    match HeadEnd(s, p, pat.head)
    case None => None
    case Some(h) =>
      SpaceThenBodyChosen(pat, s, h);
      SpaceThenBody(pat, s, h, Run(s, h, Space))
  }

  /** `text.match(pattern)[1]`: the capture of the leftmost match from `p` on. */
  function CaptureFrom(pat: Pattern, s: string, p: nat): (r: Option<(nat, nat)>)
    requires p <= |s|
    ensures r.Some? ==> r.value.0 <= r.value.1 <= |s| && r.value.1 - r.value.0 >= pat.minLen
    ensures r.Some? ==> TailAt(pat, s, r.value.1)
    ensures r.Some? ==> LeftmostCapture(pat, s, p, r.value.0, r.value.1)
    ensures r.None? <==> forall q: nat :: p <= q <= |s| ==> !MatchAt(pat, s, q)
    decreases |s| - p
  {
    match CaptureAt(pat, s, p)
    case Some(g) =>
      LeftmostHere(pat, s, p, g.0, g.1);
      Some(g)
    case None =>
      if p == |s| then None
      else
        var r := CaptureFrom(pat, s, p + 1);
        LeftmostStep(pat, s, p, r);
        r
  }

  lemma LeftmostHere(pat: Pattern, s: string, p: nat, a: nat, b: nat)
    requires p <= |s| && HeadEnd(s, p, pat.head).Some? && Chosen(pat, s, HeadEnd(s, p, pat.head).value, a, b)
    ensures LeftmostCapture(pat, s, p, a, b)
  {
  }

  lemma LeftmostStep(pat: Pattern, s: string, p: nat, r: Option<(nat, nat)>)
    requires p < |s| && !MatchAt(pat, s, p)
    requires r.Some? ==> LeftmostCapture(pat, s, p + 1, r.value.0, r.value.1)
    ensures r.Some? ==> LeftmostCapture(pat, s, p, r.value.0, r.value.1)
  {
    if r.Some? {
      var (a, b) := r.value;
      LeftmostStepAt(pat, s, p, a, b);
    }
  }

  lemma LeftmostStepAt(pat: Pattern, s: string, p: nat, a: nat, b: nat)
    requires p < |s| && !MatchAt(pat, s, p) && LeftmostCapture(pat, s, p + 1, a, b)
    ensures LeftmostCapture(pat, s, p, a, b)
  {
    var q :| p + 1 <= q <= |s| && (forall k :: p + 1 <= k < q ==> !MatchAt(pat, s, k))
             && HeadEnd(s, q, pat.head).Some? && Chosen(pat, s, HeadEnd(s, q, pat.head).value, a, b);
    assert forall k :: p <= k < q ==> !MatchAt(pat, s, k);
  }

  /** The leftmost capture is unique: the rules above leave one choice. */
  lemma LeftmostUnique(pat: Pattern, s: string, p: nat, a: nat, b: nat, a': nat, b': nat)
    requires LeftmostCapture(pat, s, p, a, b) && LeftmostCapture(pat, s, p, a', b')
    ensures a == a' && b == b'
  {
    var q :| p <= q <= |s| && (forall k :: p <= k < q ==> !MatchAt(pat, s, k))
             && HeadEnd(s, q, pat.head).Some? && Chosen(pat, s, HeadEnd(s, q, pat.head).value, a, b);
    var q' :| p <= q' <= |s| && (forall k :: p <= k < q' ==> !MatchAt(pat, s, k))
             && HeadEnd(s, q', pat.head).Some? && Chosen(pat, s, HeadEnd(s, q', pat.head).value, a', b');
    assert MatchAt(pat, s, q) && MatchAt(pat, s, q');
    assert q == q';
  }

  /** The captured text of the leftmost match, if any. */
  function Capture(pat: Pattern, s: string): (r: Option<string>)
    ensures r.Some? ==> |r.value| >= pat.minLen
    ensures r.Some? ==> exists a: nat, b: nat :: LeftmostCapture(pat, s, 0, a, b) && a <= b <= |s| && r.value == s[a..b]
    ensures r.None? <==> forall q: nat :: q <= |s| ==> !MatchAt(pat, s, q)
  {
    match CaptureFrom(pat, s, 0)
    case Some((a, b)) => Some(s[a..b])
    case None => None
  }

  /** A capture is always followed by whitespace, so a clause that runs to the
      end of a text with no trailing whitespace is never captured. */
  lemma CaptureNeedsSpaceAfter(pat: Pattern, s: string)
    requires CaptureFrom(pat, s, 0).Some?
    ensures var b := CaptureFrom(pat, s, 0).value.1; b < |s| && IsSpace(s[b])
  {
  }

  /** A clause is captured only where whitespace is followed by one of the
      pattern's stop words, or, for a pattern that allows `$`, where the text
      ends in whitespace. So a clause that ends a statement without trailing
      whitespace is not captured, wherever its keyword is. */
  lemma NoStopNoCapture(pat: Pattern, s: string)
    requires forall e: nat, i: nat :: 0 < e <= |s| && IsSpace(s[e - 1]) && i < |pat.stops| ==> !AtCI(s, e, pat.stops[i])
    requires pat.atEnd ==> |s| == 0 || !IsSpace(s[|s| - 1])
    ensures Capture(pat, s).None?
  {
    forall e: nat | e <= |s| ensures !TailAt(pat, s, e) {
      var v := Run(s, e, Space);
      if v >= 1 {
        assert IsSpace(s[e + v - 1]);
      }
    }
    assert CaptureFrom(pat, s, 0).None?;
  }

  // ---------------------------------------------------------------------------
  // `/select\s+(?:distinct\s+)?(.*?)\s+from/i`

  /** Where `select\s+(?:distinct\s+)?` at `p` leaves the capture when its
      first `\s+` takes `k` characters and the `\s+` after `distinct` takes
      `m`; `m == 0` stands for the way without `distinct`. */
  function SelectBodyStart(p: nat, k: nat, m: nat): nat {
    if m > 0 then p + 6 + k + 8 + m else p + 6 + k
  }

  /** The SELECT pattern goes on that way from the keyword at `p`, with the
      capture ending at `b`. */
  predicate SelectFits(s: string, p: nat, k: nat, m: nat, b: nat) {
    && 1 <= k && SpacesBetween(s, p + 6, p + 6 + k)
    && (m > 0 ==> AtCI(s, p + 6 + k, "distinct") && SpacesBetween(s, p + 6 + k + 8, p + 6 + k + 8 + m))
    && BodyEnds(SelectPattern, s, SelectBodyStart(p, k, m), b)
  }

  /** Among the ways whose first `\s+` takes at most `top` characters,
      `(k, m)` is the first that fits in the backtracking order (the first
      `\s+` longest first; `distinct` before none; the second `\s+` longest
      first), and `b` is the first end of its lazy capture. */
  ghost predicate SelectFirstFit(s: string, p: nat, top: nat, k: nat, m: nat, b: nat) {
    && k <= top && SelectFits(s, p, k, m, b)
    && (forall k': nat, m': nat, b': nat :: k < k' <= top ==> !SelectFits(s, p, k', m', b'))
    && (forall m': nat, b': nat :: m < m' ==> !SelectFits(s, p, k, m', b'))
    && (forall b': nat :: b' < b ==> !BodyEnds(SelectPattern, s, SelectBodyStart(p, k, m), b'))
  }

  /** The SELECT pattern matches at `p`. */
  ghost predicate SelectMatchAt(s: string, p: nat) {
    AtCI(s, p, "select") && exists k: nat, m: nat, b: nat :: SelectFits(s, p, k, m, b)
  }

  /** `s[a..b]` is the capture of the leftmost SELECT match at or after `p`. */
  ghost predicate SelectLeftmost(s: string, p: nat, a: nat, b: nat) {
    exists q: nat, k: nat, m: nat ::
      && p <= q <= |s| && (forall j: nat :: p <= j < q ==> !SelectMatchAt(s, j))
      && AtCI(s, q, "select") && SelectFirstFit(s, q, |s|, k, m, b) && a == SelectBodyStart(q, k, m)
  }

  /** The `\s+` after `select` (which ends at `h`) with `k` characters: the
      optional `distinct\s+` is tried first, then the capture straight away. */
  function SelectSpace(s: string, h: nat, k: nat): (r: Option<(nat, nat)>)
    requires h + k <= |s|
    requires SpacesBetween(s, h, h + k)
    ensures r.Some? ==> h < r.value.0 <= r.value.1 <= |s| && TailAt(SelectPattern, s, r.value.1)
    decreases k
  {
    if k == 0 then None
    else
      var q := h + k;
      var viaDistinct := if AtCI(s, q, "distinct") then SpaceThenBody(SelectPattern, s, q + 8, Run(s, q + 8, Space)) else None;
      if viaDistinct.Some? then viaDistinct
      else match LazyBody(SelectPattern, s, q, q)
        case Some(e) => Some((q, e))
        case None => SelectSpace(s, h, k - 1)
  }

  /** `r`, the result of the search whose first `\s+` takes at most `k`
      characters, is the first fit in the backtracking order, and is `None`
      only when nothing fits. */
  ghost predicate SelectSpaceSpec(s: string, p: nat, k: nat, r: Option<(nat, nat)>) {
    && (r.Some? ==> exists k': nat, m: nat :: SelectFirstFit(s, p, k, k', m, r.value.1) && r.value.0 == SelectBodyStart(p, k', m))
    && (r.None? ==> forall k': nat, m: nat, b: nat :: k' <= k ==> !SelectFits(s, p, k', m, b))
  }

  lemma {:induction false} SelectSpaceFirstFit(s: string, p: nat, k: nat)
    requires p + 6 + k <= |s| && SpacesBetween(s, p + 6, p + 6 + k)
    ensures SelectSpaceSpec(s, p, k, SelectSpace(s, p + 6, k))
    decreases k, 1
  {
    if k > 0 {
      var q := p + 6 + k;
      var viaDistinct := if AtCI(s, q, "distinct") then SpaceThenBody(SelectPattern, s, q + 8, Run(s, q + 8, Space)) else None;
      var e := LazyBody(SelectPattern, s, q, q);
      SelectSpaceUnfold(s, p + 6, k, viaDistinct, e);
      SelectDistinctAtK(s, p, k, viaDistinct);
      if viaDistinct.None? {
        SelectPlainAtK(s, p, k, e);
        if e.None? {
          SelectSpaceNext(s, p, k);
        }
      }
    }
  }

  /** With nothing fitting at `k`, the search at `k - 1` meets the
      specification at `k`. */
  lemma {:induction false} SelectSpaceNext(s: string, p: nat, k: nat)
    requires 1 <= k && p + 6 + k <= |s| && SpacesBetween(s, p + 6, p + 6 + k)
    requires forall m: nat, b: nat :: !SelectFits(s, p, k, m, b)
    ensures SelectSpaceSpec(s, p, k, SelectSpace(s, p + 6, k - 1))
    decreases k, 0
  {
    SpacesShorter(s, p + 6, p + 6 + k);
    SelectSpaceFirstFit(s, p, k - 1);
    SelectBelowK(s, p, k, SelectSpace(s, p + 6, k - 1));
  }

  /** One step of `SelectSpace`, as an equation. */
  lemma SelectSpaceUnfold(s: string, h: nat, k: nat, viaDistinct: Option<(nat, nat)>, e: Option<nat>)
    requires 1 <= k && h + k <= |s| && SpacesBetween(s, h, h + k)
    requires viaDistinct == if AtCI(s, h + k, "distinct") then SpaceThenBody(SelectPattern, s, h + k + 8, Run(s, h + k + 8, Space)) else None
    requires e == LazyBody(SelectPattern, s, h + k, h + k)
    ensures viaDistinct.Some? ==> SelectSpace(s, h, k) == viaDistinct
    ensures viaDistinct.None? && e.Some? ==> SelectSpace(s, h, k) == Some((h + k, e.value))
    ensures viaDistinct.None? && e.None? ==> SelectSpace(s, h, k) == SelectSpace(s, h, k - 1)
  {
  }

  /** The fits at exactly `k` that go through `distinct`. */
  lemma SelectDistinctAtK(s: string, p: nat, k: nat, viaDistinct: Option<(nat, nat)>)
    requires 1 <= k && p + 6 + k <= |s| && SpacesBetween(s, p + 6, p + 6 + k)
    requires viaDistinct == if AtCI(s, p + 6 + k, "distinct") then SpaceThenBody(SelectPattern, s, p + 6 + k + 8, Run(s, p + 6 + k + 8, Space)) else None
    ensures viaDistinct.Some? ==> SelectSpaceSpec(s, p, k, viaDistinct)
    ensures viaDistinct.None? ==> forall m: nat, b: nat :: 0 < m ==> !SelectFits(s, p, k, m, b)
  {
    var q := p + 6 + k;
    if !AtCI(s, q, "distinct") {
      assert viaDistinct == None;
    } else if viaDistinct.Some? {
      var m := viaDistinct.value.0 - q - 8;
      SelectDistinctSome(s, p, k, viaDistinct.value.0, viaDistinct.value.1);
      assert SelectBodyStart(p, k, m) == viaDistinct.value.0;
    } else {
      SelectDistinctNone(s, p, k);
    }
  }

  /** The `distinct` way fits: its capture is the first fit at exactly `k`. */
  lemma SelectDistinctSome(s: string, p: nat, k: nat, a: nat, b: nat)
    requires 1 <= k && p + 6 + k <= |s| && SpacesBetween(s, p + 6, p + 6 + k)
    requires AtCI(s, p + 6 + k, "distinct")
    requires SpaceThenBody(SelectPattern, s, p + 6 + k + 8, Run(s, p + 6 + k + 8, Space)) == Some((a, b))
    ensures p + 6 + k + 8 < a && SelectFirstFit(s, p, k, k, a - (p + 6 + k + 8), b)
  {
    var h := p + 6 + k + 8;
    var m := a - h;
    SelectDistinctBound(s, p, k);
    assert SelectBodyStart(p, k, m) == a;
    assert SelectFits(s, p, k, m, b);
    forall m': nat, b': nat | m < m' ensures !SelectFits(s, p, k, m', b') {
      assert SelectBodyStart(p, k, m') == h + m';
    }
  }

  /** The `distinct` way does not fit: no fit at exactly `k` goes through it. */
  lemma SelectDistinctNone(s: string, p: nat, k: nat)
    requires 1 <= k && p + 6 + k <= |s| && SpacesBetween(s, p + 6, p + 6 + k)
    requires AtCI(s, p + 6 + k, "distinct")
    requires SpaceThenBody(SelectPattern, s, p + 6 + k + 8, Run(s, p + 6 + k + 8, Space)).None?
    ensures forall m: nat, b: nat :: 0 < m ==> !SelectFits(s, p, k, m, b)
  {
    var h := p + 6 + k + 8;
    SelectDistinctBound(s, p, k);
    forall m: nat, b: nat | 0 < m ensures !SelectFits(s, p, k, m, b) {
      assert SelectBodyStart(p, k, m) == h + m;
    }
  }

  /** The `\s+` after `distinct` cannot take more than the run of spaces. */
  lemma SelectDistinctBound(s: string, p: nat, k: nat)
    requires p + 6 + k + 8 <= |s|
    ensures forall m: nat, b: nat :: 0 < m && SelectFits(s, p, k, m, b) ==> m <= Run(s, p + 6 + k + 8, Space)
  {
    var h := p + 6 + k + 8;
    forall m: nat, b: nat | 0 < m && SelectFits(s, p, k, m, b) ensures m <= Run(s, h, Space) {
      RunBound(s, h, h + m);
    }
  }

  /** The fit at exactly `k` without `distinct`, once the `distinct` way has
      failed. */
  lemma SelectPlainAtK(s: string, p: nat, k: nat, e: Option<nat>)
    requires 1 <= k && p + 6 + k <= |s| && SpacesBetween(s, p + 6, p + 6 + k)
    requires forall m: nat, b: nat :: 0 < m ==> !SelectFits(s, p, k, m, b)
    requires e == LazyBody(SelectPattern, s, p + 6 + k, p + 6 + k)
    ensures e.Some? ==> SelectSpaceSpec(s, p, k, Some((p + 6 + k, e.value)))
    ensures e.None? ==> forall m: nat, b: nat :: !SelectFits(s, p, k, m, b)
  {
    var q := p + 6 + k;
    assert SelectBodyStart(p, k, 0) == q;
    if e.Some? {
      SelectPlainSome(s, p, k, e.value);
    } else {
      forall m: nat, b: nat ensures !SelectFits(s, p, k, m, b) {
        if m == 0 {
          assert !BodyEnds(SelectPattern, s, q, b);
        }
      }
    }
  }

  /** The capture straight after the first `\s+` is the first fit at `k`. */
  lemma SelectPlainSome(s: string, p: nat, k: nat, b: nat)
    requires 1 <= k && p + 6 + k <= |s| && SpacesBetween(s, p + 6, p + 6 + k)
    requires forall m: nat, b: nat :: 0 < m ==> !SelectFits(s, p, k, m, b)
    requires BodyEnds(SelectPattern, s, SelectBodyStart(p, k, 0), b)
    requires forall b': nat :: b' < b ==> !BodyEnds(SelectPattern, s, SelectBodyStart(p, k, 0), b')
    ensures SelectSpaceSpec(s, p, k, Some((p + 6 + k, b)))
  {
    assert SelectFirstFit(s, p, k, k, 0, b);
  }

  /** Nothing at `k` fits, so the search at `k` meets the specification as
      the search at `k - 1` does. */
  lemma SelectBelowK(s: string, p: nat, k: nat, r: Option<(nat, nat)>)
    requires 1 <= k
    requires forall m: nat, b: nat :: !SelectFits(s, p, k, m, b)
    requires SelectSpaceSpec(s, p, k - 1, r)
    ensures SelectSpaceSpec(s, p, k, r)
  {
    if r.Some? {
      var k', m :| SelectFirstFit(s, p, k - 1, k', m, r.value.1) && r.value.0 == SelectBodyStart(p, k', m);
      SelectFirstFitRaise(s, p, k, k', m, r.value.1);
    } else {
      forall k': nat, m: nat, b: nat | k' <= k ensures !SelectFits(s, p, k', m, b) {
        if k' < k {
          assert k' <= k - 1;
        }
      }
    }
  }

  /** A first fit below `top - 1` stays the first fit below `top` when
      nothing fits at `top`. */
  lemma SelectFirstFitRaise(s: string, p: nat, top: nat, k: nat, m: nat, b: nat)
    requires 1 <= top
    requires forall m': nat, b': nat :: !SelectFits(s, p, top, m', b')
    requires SelectFirstFit(s, p, top - 1, k, m, b)
    ensures SelectFirstFit(s, p, top, k, m, b)
  {
    forall k': nat, m': nat, b': nat | k < k' <= top ensures !SelectFits(s, p, k', m', b') {
      if k' < top {
        assert k < k' <= top - 1;
      }
    }
  }

  /** The leftmost SELECT match from `p` on: the bounds of its capture. */
  function SelectFrom(s: string, p: nat): (r: Option<(nat, nat)>)
    requires p <= |s|
    ensures r.Some? ==> r.value.0 <= r.value.1 <= |s| && TailAt(SelectPattern, s, r.value.1)
    ensures r.Some? ==> SelectLeftmost(s, p, r.value.0, r.value.1)
    ensures r.None? <==> forall q: nat :: p <= q <= |s| ==> !SelectMatchAt(s, q)
    decreases |s| - p
  {
    var here := if AtCI(s, p, "select") then SelectSpace(s, p + 6, Run(s, p + 6, Space)) else None;
    SelectHere(s, p);
    if here.Some? then here
    else if p == |s| then None
    else
      var r := SelectFrom(s, p + 1);
      SelectStep(s, p, r);
      r
  }

  /** The search at one position: it succeeds exactly when the pattern
      matches there, and then with the chosen capture. */
  lemma SelectHere(s: string, p: nat)
    requires p <= |s|
    ensures var here := if AtCI(s, p, "select") then SelectSpace(s, p + 6, Run(s, p + 6, Space)) else None;
      && (here.Some? ==> SelectLeftmost(s, p, here.value.0, here.value.1))
      && (here.None? <==> !SelectMatchAt(s, p))
  {
    if AtCI(s, p, "select") {
      var top := Run(s, p + 6, Space);
      SelectSpaceFirstFit(s, p, top);
      assert SelectSpaceSpec(s, p, top, SelectSpace(s, p + 6, top));
      forall k: nat, m: nat, b: nat | SelectFits(s, p, k, m, b) ensures k <= top {
        RunBound(s, p + 6, p + 6 + k);
      }
      var r := SelectSpace(s, p + 6, top);
      if r.Some? {
        var k, m :| SelectFirstFit(s, p, top, k, m, r.value.1) && r.value.0 == SelectBodyStart(p, k, m);
        assert SelectFirstFit(s, p, |s|, k, m, r.value.1);
        assert forall j: nat :: p <= j < p ==> !SelectMatchAt(s, j);
      }
    }
  }

  lemma SelectStep(s: string, p: nat, r: Option<(nat, nat)>)
    requires p < |s| && !SelectMatchAt(s, p)
    requires r.Some? ==> SelectLeftmost(s, p + 1, r.value.0, r.value.1)
    ensures r.Some? ==> SelectLeftmost(s, p, r.value.0, r.value.1)
  {
    if r.Some? {
      var (a, b) := r.value;
      var q: nat, k: nat, m: nat :| p + 1 <= q <= |s| && (forall j: nat :: p + 1 <= j < q ==> !SelectMatchAt(s, j))
        && AtCI(s, q, "select") && SelectFirstFit(s, q, |s|, k, m, b) && a == SelectBodyStart(q, k, m);
      assert forall j: nat :: p <= j < q ==> !SelectMatchAt(s, j);
    }
  }

  /** The select-list text: what lies between `select [distinct]` and ` from`
      in the leftmost match. */
  function SelectCapture(s: string): (r: Option<string>)
    ensures r.Some? ==> exists a: nat, b: nat :: SelectLeftmost(s, 0, a, b) && a <= b <= |s| && r.value == s[a..b]
    ensures r.None? <==> forall q: nat :: q <= |s| ==> !SelectMatchAt(s, q)
  {
    match SelectFrom(s, 0)
    case Some((a, b)) => Some(s[a..b])
    case None => None
  }

  /** `/select\s+distinct/i` matches at `p` (only the longest `\s+` can be
      followed by a `d`). */
  predicate SelectDistinctAt(s: string, p: nat)
    requires p <= |s|
  {
    AtCI(s, p, "select") && Run(s, p + 6, Space) >= 1 && AtCI(s, p + 6 + Run(s, p + 6, Space), "distinct")
  }

  /** `/select\s+distinct/i.test(s)`. */
  predicate HasSelectDistinct(s: string) {
    exists p :: 0 <= p <= |s| && SelectDistinctAt(s, p)
  }

  /** After `select` at `p`, `k` whitespace characters and then `distinct`. */
  predicate DistinctAfter(s: string, p: nat, k: nat) {
    1 <= k && SpacesBetween(s, p + 6, p + 6 + k) && AtCI(s, p + 6 + k, "distinct")
  }

  /** The scanner test at `p` is the pattern: `select`, whitespace of any
      length, `distinct`. */
  lemma SelectDistinctAtIff(s: string, p: nat)
    requires p <= |s|
    ensures SelectDistinctAt(s, p) <==> AtCI(s, p, "select") && exists k: nat :: DistinctAfter(s, p, k)
  {
    if AtCI(s, p, "select") {
      var n := Run(s, p + 6, Space);
      assert Lower("distinct")[0] == 'd';
      forall k: nat | DistinctAfter(s, p, k) ensures k == n {
        WordRunUnique(s, p + 6, k, "distinct");
      }
      if SelectDistinctAt(s, p) {
        assert DistinctAfter(s, p, n);
      }
    }
  }

  // ---------------------------------------------------------------------------
  // `/from\s+([\w\s,]+?)\s+where\s+([^;]+?)(?:\s+(?:group|order|limit|having|;|$))/i`

  /** What must follow the first group when it ends at `e1`: `\s+where\s+`, then
      the second group and its tail.  The bounds of the second group. */
  function WhereAfterTables(s: string, e1: nat): (r: Option<(nat, nat)>)
    requires e1 <= |s|
    ensures r.Some? ==> e1 < r.value.0 <= r.value.1 <= |s|
  {
    var v := Run(s, e1, Space);
    if v == 0 || !AtCI(s, e1 + v, "where") then None
    else
      var f := e1 + v + 5;
      SpaceThenBody(TrivialWhereTail, s, f, Run(s, f, Space))
  }

  /** The lazy first group `[\w\s,]+?` from `q`, already grown to `e1`. */
  function TablesThenWhere(s: string, q: nat, e1: nat): (r: Option<(nat, nat, nat, nat)>)
    requires q <= e1 <= |s|
    requires forall i :: q <= i < e1 ==> InClass(s[i], TableChar)
    ensures r.Some? ==> q == r.value.0 < r.value.1 < r.value.2 <= r.value.3 <= |s|
    decreases |s| - e1
  {
    var rest := if e1 > q then WhereAfterTables(s, e1) else None;
    if rest.Some? then Some((q, e1, rest.value.0, rest.value.1))
    else if e1 < |s| && InClass(s[e1], TableChar) then TablesThenWhere(s, q, e1 + 1)
    else None
  }

  function FromWhereSpace(s: string, h: nat, k: nat): (r: Option<(nat, nat, nat, nat)>)
    requires h + k <= |s|
    ensures r.Some? ==> r.value.0 < r.value.1 <= r.value.2 <= r.value.3 <= |s|
    decreases k
  {
    if k == 0 then None
    else match TablesThenWhere(s, h + k, h + k)
      case Some(g) => Some(g)
      case None => FromWhereSpace(s, h, k - 1)
  }

  /** The first group may run from `q` to `e`: `[\w\s,]+`. */
  predicate TableRun(s: string, q: nat, e: nat) {
    q < e <= |s| && forall i :: q <= i < e ==> InClass(s[i], TableChar)
  }

  /** After a first group ending at `e`, `\s+where` takes `v` whitespace
      characters and the second group and its tail fit at `a..b`. */
  predicate WhereFits(s: string, e: nat, v: nat, a: nat, b: nat) {
    WhereStarts(s, e, v) && Fits(TrivialWhereTail, s, e + v + 5, a, b)
  }

  /** `\s+where` takes `v` whitespace characters after `e`. */
  predicate WhereStarts(s: string, e: nat, v: nat) {
    1 <= v && SpacesBetween(s, e, e + v) && AtCI(s, e + v, "where")
  }

  /** The same, with `a..b` the capture a backtracking matcher picks there. */
  ghost predicate WhereChosen(s: string, e: nat, v: nat, a: nat, b: nat) {
    1 <= v && SpacesBetween(s, e, e + v) && AtCI(s, e + v, "where") && Chosen(TrivialWhereTail, s, e + v + 5, a, b)
  }

  /** The whole pattern fits at `from` at `p`: its first `\s+` takes `k`
      characters, the first group ends at `e`, and so on. */
  predicate FromWhereFits(s: string, p: nat, k: nat, e: nat, v: nat, a: nat, b: nat) {
    1 <= k && SpacesBetween(s, p + 4, p + 4 + k) && TableRun(s, p + 4 + k, e) && WhereFits(s, e, v, a, b)
  }

  /** Among the ways whose first `\s+` takes at most `top` characters, the
      one a backtracking matcher reports: the first `\s+` longest first, then
      the lazy first group shortest first, then the chosen second group. */
  ghost predicate FromWhereFirstFit(s: string, p: nat, top: nat, k: nat, e: nat, v: nat, a: nat, b: nat) {
    && k <= top && FromWhereFits(s, p, k, e, v, a, b) && WhereChosen(s, e, v, a, b)
    && (forall k': nat, e': nat, v': nat, a': nat, b': nat :: k < k' <= top ==> !FromWhereFits(s, p, k', e', v', a', b'))
    && (forall e': nat, v': nat, a': nat, b': nat :: e' < e ==> !FromWhereFits(s, p, k, e', v', a', b'))
  }

  /** The FROM-then-WHERE pattern matches at `p`. */
  ghost predicate FromWhereMatchAt(s: string, p: nat) {
    AtCI(s, p, "from") && exists k: nat, e: nat, v: nat, a: nat, b: nat :: FromWhereFits(s, p, k, e, v, a, b)
  }

  /** `g` holds the bounds of both captures of the leftmost FROM-then-WHERE
      match at or after `p`. */
  ghost predicate FromWhereLeftmost(s: string, p: nat, g: (nat, nat, nat, nat)) {
    exists q: nat, k: nat, v: nat ::
      && p <= q <= |s| && (forall j: nat :: p <= j < q ==> !FromWhereMatchAt(s, j))
      && AtCI(s, q, "from") && FromWhereFirstFit(s, q, |s|, k, g.1, v, g.2, g.3) && g.0 == q + 4 + k
  }

  /** Whitespace followed by a word that does not start with whitespace:
      only the longest run can be followed by the word. */
  lemma WordRunUnique(s: string, e: nat, v: nat, w: string)
    requires e <= |s| && SpacesBetween(s, e, e + v) && AtCI(s, e + v, w)
    requires |w| > 0 && !IsSpace(Lower(w)[0])
    ensures v == Run(s, e, Space)
  {
    RunBound(s, e, e + v);
    assert Lower(s[e + v..e + v + |w|])[0] == ToLower(s[e + v]);
    assert !IsSpace(s[e + v]);
  }

  /** `\s+where` after the first group takes the whole run. */
  lemma WhereRunUnique(s: string, e: nat, v: nat)
    requires e <= |s| && SpacesBetween(s, e, e + v) && AtCI(s, e + v, "where")
    ensures v == Run(s, e, Space)
  {
    assert Lower("where")[0] == 'w';
    WordRunUnique(s, e, v, "where");
  }

  lemma WhereFitsRun(s: string, e: nat)
    requires e <= |s|
    ensures forall v: nat, a: nat, b: nat :: WhereFits(s, e, v, a, b) ==> v == Run(s, e, Space)
  {
    forall v: nat, a: nat, b: nat | WhereFits(s, e, v, a, b) ensures v == Run(s, e, Space) {
      WhereRunUnique(s, e, v);
    }
  }

  lemma WhereAfterTablesChosen(s: string, e: nat)
    requires e <= |s|
    ensures var r := WhereAfterTables(s, e);
      && (r.Some? ==> WhereChosen(s, e, Run(s, e, Space), r.value.0, r.value.1))
      && (r.None? ==> forall v: nat, a: nat, b: nat :: !WhereFits(s, e, v, a, b))
  {
    var n := Run(s, e, Space);
    WhereFitsRun(s, e);
    if n >= 1 && AtCI(s, e + n, "where") {
      WhereAfterTablesBody(s, e, n);
    } else {
      assert WhereAfterTables(s, e) == None;
      NoWhereAfterTables(s, e, n);
    }
  }

  lemma NoWhereAfterTables(s: string, e: nat, n: nat)
    requires e <= |s| && n == Run(s, e, Space) && (n == 0 || !AtCI(s, e + n, "where"))
    ensures forall v: nat, a: nat, b: nat :: !WhereFits(s, e, v, a, b)
  {
    forall v: nat | WhereStarts(s, e, v) ensures false {
      WhereRunUnique(s, e, v);
    }
  }

  lemma WhereAfterTablesBody(s: string, e: nat, n: nat)
    requires e <= |s| && n == Run(s, e, Space) && n >= 1 && AtCI(s, e + n, "where")
    requires forall v: nat, a: nat, b: nat :: WhereFits(s, e, v, a, b) ==> v == n
    ensures var r := WhereAfterTables(s, e);
      && (r.Some? ==> WhereChosen(s, e, n, r.value.0, r.value.1))
      && (r.None? ==> forall v: nat, a: nat, b: nat :: !WhereFits(s, e, v, a, b))
  {
    var f := e + n + 5;
    SpaceThenBodyChosen(TrivialWhereTail, s, f);
    var r := SpaceThenBody(TrivialWhereTail, s, f, Run(s, f, Space));
    assert WhereAfterTables(s, e) == r;
    assert SpacesBetween(s, e, e + n);
  }

  /** `r`, the result of the lazy first group from `q` already grown to `e`,
      is the shortest group from `e` on that lets the rest fit. */
  ghost predicate TablesSpec(s: string, q: nat, e: nat, r: Option<(nat, nat, nat, nat)>) {
    && (r.Some? ==> && r.value.0 == q && e <= r.value.1 && TableRun(s, q, r.value.1)
                    && (exists v: nat :: WhereChosen(s, r.value.1, v, r.value.2, r.value.3))
                    && forall e': nat, v: nat, a: nat, b: nat :: e <= e' < r.value.1 ==> !(TableRun(s, q, e') && WhereFits(s, e', v, a, b)))
    && (r.None? ==> forall e': nat, v: nat, a: nat, b: nat :: e <= e' ==> !(TableRun(s, q, e') && WhereFits(s, e', v, a, b)))
  }

  lemma {:induction false} TablesThenWhereFirst(s: string, q: nat, e: nat)
    requires q <= e <= |s|
    requires forall i :: q <= i < e ==> InClass(s[i], TableChar)
    ensures TablesSpec(s, q, e, TablesThenWhere(s, q, e))
    decreases |s| - e, 1
  {
    if e > q && WhereAfterTables(s, e).Some? {
      TablesFound(s, q, e);
    } else if e < |s| && InClass(s[e], TableChar) {
      TablesGrow(s, q, e);
    } else {
      TablesEnd(s, q, e);
    }
  }

  /** Nothing fits at `e` and the first group grows by one character. */
  lemma {:induction false} TablesGrow(s: string, q: nat, e: nat)
    requires q <= e < |s| && forall i :: q <= i < e ==> InClass(s[i], TableChar)
    requires InClass(s[e], TableChar) && !(e > q && WhereAfterTables(s, e).Some?)
    ensures TablesSpec(s, q, e, TablesThenWhere(s, q, e))
    decreases |s| - e, 0
  {
    TablesThenWhereFirst(s, q, e + 1);
    TablesMissAt(s, q, e);
    assert TablesThenWhere(s, q, e) == TablesThenWhere(s, q, e + 1);
    TablesStep(s, q, e, TablesThenWhere(s, q, e + 1));
  }

  /** The rest fits after a first group ending at `e`. */
  lemma TablesFound(s: string, q: nat, e: nat)
    requires q < e <= |s| && forall i :: q <= i < e ==> InClass(s[i], TableChar)
    requires WhereAfterTables(s, e).Some?
    ensures TablesSpec(s, q, e, TablesThenWhere(s, q, e))
  {
    WhereAfterTablesChosen(s, e);
    var r := WhereAfterTables(s, e).value;
    assert TablesThenWhere(s, q, e) == Some((q, e, r.0, r.1));
    assert WhereChosen(s, e, Run(s, e, Space), r.0, r.1);
    assert TableRun(s, q, e);
  }

  /** The rest does not fit after a first group ending at `e`. */
  lemma TablesMissAt(s: string, q: nat, e: nat)
    requires q <= e <= |s|
    requires !(e > q && WhereAfterTables(s, e).Some?)
    ensures forall v: nat, a: nat, b: nat :: !(TableRun(s, q, e) && WhereFits(s, e, v, a, b))
  {
    if e > q {
      WhereAfterTablesChosen(s, e);
    }
  }

  /** The first group can grow no further from `e` and nothing fits at `e`. */
  lemma TablesEnd(s: string, q: nat, e: nat)
    requires q <= e <= |s| && forall i :: q <= i < e ==> InClass(s[i], TableChar)
    requires !(e > q && WhereAfterTables(s, e).Some?)
    requires !(e < |s| && InClass(s[e], TableChar))
    ensures TablesSpec(s, q, e, TablesThenWhere(s, q, e))
  {
    TablesMissAt(s, q, e);
    assert TablesThenWhere(s, q, e) == None;
    forall e': nat, v: nat, a: nat, b: nat | e <= e' ensures !(TableRun(s, q, e') && WhereFits(s, e', v, a, b)) {
      if e < e' {
        TableRunStops(s, q, e, e');
      }
    }
  }

  lemma TableRunStops(s: string, q: nat, e: nat, e': nat)
    requires q <= e < e' && !(e < |s| && InClass(s[e], TableChar))
    ensures !TableRun(s, q, e')
  {
  }

  /** No fit ends the first group at `e`, so the search from `e` meets the
      specification as the search from `e + 1` does. */
  lemma TablesStep(s: string, q: nat, e: nat, r: Option<(nat, nat, nat, nat)>)
    requires e < |s|
    requires forall v: nat, a: nat, b: nat :: !(TableRun(s, q, e) && WhereFits(s, e, v, a, b))
    requires TablesSpec(s, q, e + 1, r)
    ensures TablesSpec(s, q, e, r)
  {
    if r.Some? {
      forall e': nat, v: nat, a: nat, b: nat | e <= e' < r.value.1 ensures !(TableRun(s, q, e') && WhereFits(s, e', v, a, b)) {
        if e' > e {
          assert e + 1 <= e' < r.value.1;
        }
      }
    } else {
      forall e': nat, v: nat, a: nat, b: nat | e <= e' ensures !(TableRun(s, q, e') && WhereFits(s, e', v, a, b)) {
        if e' > e {
          assert e + 1 <= e';
        }
      }
    }
  }

  /** `r`, the result of the search whose first `\s+` takes at most `k`
      characters, is the way a backtracking matcher reports, and is `None`
      only when nothing fits. */
  ghost predicate FromWhereSpaceSpec(s: string, p: nat, k: nat, r: Option<(nat, nat, nat, nat)>) {
    && (r.Some? ==> exists k': nat, v: nat :: FromWhereFirstFit(s, p, k, k', r.value.1, v, r.value.2, r.value.3) && r.value.0 == p + 4 + k')
    && (r.None? ==> forall k': nat, e: nat, v: nat, a: nat, b: nat :: k' <= k ==> !FromWhereFits(s, p, k', e, v, a, b))
  }

  lemma {:induction false} FromWhereSpaceFirstFit(s: string, p: nat, k: nat)
    requires p + 4 + k <= |s| && SpacesBetween(s, p + 4, p + 4 + k)
    ensures FromWhereSpaceSpec(s, p, k, FromWhereSpace(s, p + 4, k))
    decreases k, 1
  {
    if k > 0 {
      var q := p + 4 + k;
      TablesThenWhereFirst(s, q, q);
      var g := TablesThenWhere(s, q, q);
      FromWhereAtK(s, p, k, g);
      if g.None? {
        FromWhereSpaceNext(s, p, k);
      }
    }
  }

  /** The fits at exactly `k`. */
  lemma FromWhereAtK(s: string, p: nat, k: nat, g: Option<(nat, nat, nat, nat)>)
    requires 1 <= k && p + 4 + k <= |s| && SpacesBetween(s, p + 4, p + 4 + k)
    requires g == TablesThenWhere(s, p + 4 + k, p + 4 + k) && TablesSpec(s, p + 4 + k, p + 4 + k, g)
    ensures g.Some? ==> FromWhereSpace(s, p + 4, k) == g && FromWhereSpaceSpec(s, p, k, g)
    ensures g.None? ==> FromWhereSpace(s, p + 4, k) == FromWhereSpace(s, p + 4, k - 1)
    ensures g.None? ==> forall e: nat, v: nat, a: nat, b: nat :: !FromWhereFits(s, p, k, e, v, a, b)
  {
    var q := p + 4 + k;
    if g.Some? {
      var v: nat :| WhereChosen(s, g.value.1, v, g.value.2, g.value.3);
      assert FromWhereFits(s, p, k, g.value.1, v, g.value.2, g.value.3);
      assert FromWhereFirstFit(s, p, k, k, g.value.1, v, g.value.2, g.value.3);
    } else {
      forall e: nat, v: nat, a: nat, b: nat ensures !FromWhereFits(s, p, k, e, v, a, b) {
        if TableRun(s, q, e) {
          assert q <= e;
        }
      }
    }
  }

  /** With nothing fitting at `k`, the search at `k - 1` meets the
      specification at `k`. */
  lemma {:induction false} FromWhereSpaceNext(s: string, p: nat, k: nat)
    requires 1 <= k && p + 4 + k <= |s| && SpacesBetween(s, p + 4, p + 4 + k)
    requires forall e: nat, v: nat, a: nat, b: nat :: !FromWhereFits(s, p, k, e, v, a, b)
    ensures FromWhereSpaceSpec(s, p, k, FromWhereSpace(s, p + 4, k - 1))
    decreases k, 0
  {
    SpacesShorter(s, p + 4, p + 4 + k);
    FromWhereSpaceFirstFit(s, p, k - 1);
    FromWhereBelowK(s, p, k, FromWhereSpace(s, p + 4, k - 1));
  }

  lemma FromWhereBelowK(s: string, p: nat, k: nat, r: Option<(nat, nat, nat, nat)>)
    requires 1 <= k
    requires forall e: nat, v: nat, a: nat, b: nat :: !FromWhereFits(s, p, k, e, v, a, b)
    requires FromWhereSpaceSpec(s, p, k - 1, r)
    ensures FromWhereSpaceSpec(s, p, k, r)
  {
    if r.Some? {
      var k', v :| FromWhereFirstFit(s, p, k - 1, k', r.value.1, v, r.value.2, r.value.3) && r.value.0 == p + 4 + k';
      FromWhereFirstFitRaise(s, p, k, k', r.value.1, v, r.value.2, r.value.3);
    } else {
      forall k': nat, e: nat, v: nat, a: nat, b: nat | k' <= k ensures !FromWhereFits(s, p, k', e, v, a, b) {
        if k' < k {
          assert k' <= k - 1;
        }
      }
    }
  }

  lemma FromWhereFirstFitRaise(s: string, p: nat, top: nat, k: nat, e: nat, v: nat, a: nat, b: nat)
    requires 1 <= top
    requires forall e': nat, v': nat, a': nat, b': nat :: !FromWhereFits(s, p, top, e', v', a', b')
    requires FromWhereFirstFit(s, p, top - 1, k, e, v, a, b)
    ensures FromWhereFirstFit(s, p, top, k, e, v, a, b)
  {
    forall k': nat, e': nat, v': nat, a': nat, b': nat | k < k' <= top ensures !FromWhereFits(s, p, k', e', v', a', b') {
      if k' < top {
        assert k < k' <= top - 1;
      }
    }
  }

  /** The leftmost FROM-then-WHERE match from `p` on: the bounds of both
      captures. */
  function FromWhereFrom(s: string, p: nat): (r: Option<(nat, nat, nat, nat)>)
    requires p <= |s|
    ensures r.Some? ==> r.value.0 < r.value.1 <= r.value.2 <= r.value.3 <= |s|
    ensures r.Some? ==> FromWhereLeftmost(s, p, r.value)
    ensures r.None? <==> forall q: nat :: p <= q <= |s| ==> !FromWhereMatchAt(s, q)
    decreases |s| - p
  {
    var here := if AtCI(s, p, "from") then FromWhereSpace(s, p + 4, Run(s, p + 4, Space)) else None;
    FromWhereHere(s, p);
    if here.Some? then here
    else if p == |s| then None
    else
      var r := FromWhereFrom(s, p + 1);
      FromWhereStep(s, p, r);
      r
  }

  lemma FromWhereHere(s: string, p: nat)
    requires p <= |s|
    ensures var here := if AtCI(s, p, "from") then FromWhereSpace(s, p + 4, Run(s, p + 4, Space)) else None;
      && (here.Some? ==> FromWhereLeftmost(s, p, here.value))
      && (here.None? <==> !FromWhereMatchAt(s, p))
  {
    if AtCI(s, p, "from") {
      var top := Run(s, p + 4, Space);
      FromWhereSpaceFirstFit(s, p, top);
      assert FromWhereSpaceSpec(s, p, top, FromWhereSpace(s, p + 4, top));
      forall k: nat, e: nat, v: nat, a: nat, b: nat | FromWhereFits(s, p, k, e, v, a, b) ensures k <= top {
        RunBound(s, p + 4, p + 4 + k);
      }
      var r := FromWhereSpace(s, p + 4, top);
      if r.Some? {
        var k, v :| FromWhereFirstFit(s, p, top, k, r.value.1, v, r.value.2, r.value.3) && r.value.0 == p + 4 + k;
        assert FromWhereFirstFit(s, p, |s|, k, r.value.1, v, r.value.2, r.value.3);
        assert forall j: nat :: p <= j < p ==> !FromWhereMatchAt(s, j);
      }
    }
  }

  lemma FromWhereStep(s: string, p: nat, r: Option<(nat, nat, nat, nat)>)
    requires p < |s| && !FromWhereMatchAt(s, p)
    requires r.Some? ==> FromWhereLeftmost(s, p + 1, r.value)
    ensures r.Some? ==> FromWhereLeftmost(s, p, r.value)
  {
    if r.Some? {
      var g := r.value;
      var q: nat, k: nat, v: nat :| p + 1 <= q <= |s| && (forall j: nat :: p + 1 <= j < q ==> !FromWhereMatchAt(s, j))
        && AtCI(s, q, "from") && FromWhereFirstFit(s, q, |s|, k, g.1, v, g.2, g.3) && g.0 == q + 4 + k;
      assert forall j: nat :: p <= j < q ==> !FromWhereMatchAt(s, j);
    }
  }

  /** The two captures (table list, WHERE text) of the leftmost match. */
  function FromWhere(s: string): (r: Option<(string, string)>)
    ensures r.Some? ==> |r.value.0| > 0
    ensures r.Some? ==> exists g: (nat, nat, nat, nat) :: FromWhereLeftmost(s, 0, g) && g.0 <= g.1 <= g.2 <= g.3 <= |s| && r.value == (s[g.0..g.1], s[g.2..g.3])
    ensures r.None? <==> forall q: nat :: q <= |s| ==> !FromWhereMatchAt(s, q)
  {
    match FromWhereFrom(s, 0)
    case Some((a, b, c, d)) => Some((s[a..b], s[c..d]))
    case None => None
  }

  // ---------------------------------------------------------------------------
  // `/((?:left|right|inner|full)?\s*(?:outer\s+)?join\s+\w+(?:\s+\w+)?\s+on\s+[^join|where|group|order|limit]+)/gi`

  const JoinKinds: seq<string> := ["left", "right", "inner", "full"]

  /** `\s+on\s+[^join|where|group|order|limit]+` at `k`: where the match ends.
      The class admits whitespace, so when no admitted character follows the
      longest run, giving back one whitespace character to the class works
      provided the run is at least two long. */
  function JoinOnAt(s: string, k: nat): (r: Option<nat>)
    requires k <= |s|
    ensures r.Some? ==> k + 4 <= r.value <= |s|
    ensures r.Some? ==> r.value == |s| || !InClass(s[r.value], JoinTailChar)
  {
    var e := Run(s, k, Space);
    if e == 0 || !AtCI(s, k + e, "on") then None
    else
      var m := k + e + 2;
      var f := Run(s, m, Space);
      if f == 0 then None
      else
        var c := Run(s, m + f, JoinTailChar);
        if c >= 1 then Some(m + f + c)
        else if f >= 2 then Some(m + f)
        else None
  }

  /** `\s+\w+(?:\s+\w+)?\s+on…` right after `join` at `j`: the optional alias
      is tried first. */
  function JoinTargetAt(s: string, j: nat): (r: Option<nat>)
    requires j <= |s|
    ensures r.Some? ==> j < r.value <= |s|
    ensures r.Some? ==> r.value == |s| || !InClass(s[r.value], JoinTailChar)
  {
    var a := Run(s, j, Space);
    var b := Run(s, j + a, Word);
    if a == 0 || b == 0 then None
    else
      var t := j + a + b;
      var c := Run(s, t, Space);
      var d := Run(s, t + c, Word);
      var withAlias := if c >= 1 && d >= 1 then JoinOnAt(s, t + c + d) else None;
      if withAlias.Some? then withAlias else JoinOnAt(s, t)
  }

  /** `\s*(?:outer\s+)?join…` from `p1`, after the optional join kind. */
  function JoinAfterKind(s: string, p1: nat): (r: Option<nat>)
    requires p1 <= |s|
    ensures r.Some? ==> p1 < r.value <= |s|
    ensures r.Some? ==> r.value == |s| || !InClass(s[r.value], JoinTailChar)
  {
    var p2 := p1 + Run(s, p1, Space);
    var o := if p2 + 5 <= |s| then Run(s, p2 + 5, Space) else 0;
    var viaOuter := if AtCI(s, p2, "outer") && o >= 1 && AtCI(s, p2 + 5 + o, "join")
                    then JoinTargetAt(s, p2 + 5 + o + 4) else None;
    if viaOuter.Some? then viaOuter
    else if AtCI(s, p2, "join") then JoinTargetAt(s, p2 + 4)
    else None
  }

  /** `(?:left|right|inner|full)?`: each kind in turn, then none. */
  function JoinKindFrom(s: string, p: nat, i: nat): (r: Option<nat>)
    requires p <= |s| && i <= |JoinKinds|
    ensures r.Some? ==> p < r.value <= |s|
    ensures r.Some? ==> r.value == |s| || !InClass(s[r.value], JoinTailChar)
    decreases |JoinKinds| - i
  {
    if i == |JoinKinds| then JoinAfterKind(s, p)
    else
      var viaKind := if AtCI(s, p, JoinKinds[i]) then JoinAfterKind(s, p + |JoinKinds[i]|) else None;
      if viaKind.Some? then viaKind else JoinKindFrom(s, p, i + 1)
  }

  /** The end of a JOIN match starting at `p`. */
  function JoinAt(s: string, p: nat): (r: Option<nat>)
    requires p <= |s|
    ensures r.Some? ==> p < r.value <= |s|
    ensures r.Some? ==> r.value == |s| || !InClass(s[r.value], JoinTailChar)
  {
    JoinKindFrom(s, p, 0)
  }

  /** `text.match(joinPattern)` from `p` on: every match, left to right. */
  function JoinsFrom(s: string, p: nat): (r: seq<string>)
    requires p <= |s|
    ensures forall i :: 0 <= i < |r| ==> |r[i]| > 0
    decreases |s| - p
  {
    if p == |s| then []
    else match JoinAt(s, p)
      case Some(e) => [s[p..e]] + JoinsFrom(s, e)
      case None => JoinsFrom(s, p + 1)
  }

  /** No JOIN match starts from `p` on exactly when the list is empty. */
  lemma {:induction false} JoinsFromEmpty(s: string, p: nat)
    requires p <= |s|
    ensures JoinsFrom(s, p) == [] <==> forall q :: p <= q < |s| ==> JoinAt(s, q).None?
    decreases |s| - p
  {
    if p == |s| {
    } else if JoinAt(s, p).Some? {
      var e := JoinAt(s, p).value;
      assert JoinsFrom(s, p) == [s[p..e]] + JoinsFrom(s, e);
      assert |JoinsFrom(s, p)| > 0;
      assert p <= p < |s| && !JoinAt(s, p).None?;
    } else {
      assert JoinsFrom(s, p) == JoinsFrom(s, p + 1);
      JoinsFromEmpty(s, p + 1);
      NoJoinStep(s, p);
    }
  }

  lemma NoJoinStep(s: string, p: nat)
    requires p < |s| && JoinAt(s, p).None?
    ensures (forall q :: p <= q < |s| ==> JoinAt(s, q).None?) <==> (forall q :: p + 1 <= q < |s| ==> JoinAt(s, q).None?)
  {
  }

  /** Otherwise the first entry is the text of the leftmost match, and the
      search goes on where that match ends (the matches do not overlap). */
  lemma JoinsFromFirst(s: string, p: nat)
    requires p <= |s|
    ensures JoinsFrom(s, p) != [] ==> exists q: nat, e: nat ::
      && p <= q < e <= |s| && (forall j :: p <= j < q ==> JoinAt(s, j).None?)
      && JoinAt(s, q) == Some(e) && JoinsFrom(s, p) == [s[q..e]] + JoinsFrom(s, e)
  {
    if JoinsFrom(s, p) != [] {
      var q, e := FirstJoin(s, p);
    }
  }

  /** The leftmost JOIN match from `p` on, when the list is not empty. */
  lemma {:induction false} FirstJoin(s: string, p: nat) returns (q: nat, e: nat)
    requires p <= |s| && JoinsFrom(s, p) != []
    ensures p <= q < e <= |s| && (forall j :: p <= j < q ==> JoinAt(s, j).None?)
    ensures JoinAt(s, q) == Some(e) && JoinsFrom(s, p) == [s[q..e]] + JoinsFrom(s, e)
    decreases |s| - p
  {
    assert p < |s|;
    if JoinAt(s, p).Some? {
      q, e := p, JoinAt(s, p).value;
      assert JoinsFrom(s, p) == [s[q..e]] + JoinsFrom(s, e);
    } else {
      assert JoinsFrom(s, p) == JoinsFrom(s, p + 1);
      q, e := FirstJoin(s, p + 1);
      forall j | p <= j < q ensures JoinAt(s, j).None? {
        if j == p {
          assert JoinAt(s, p).None?;
        }
      }
    }
  }


  // ---------------------------------------------------------------------------
  // `/limit\s+(\d+)/i`

  /** The digits of a LIMIT match at `p`. */
  function LimitAt(s: string, p: nat): (r: Option<string>)
    requires p <= |s|
    ensures r.Some? ==> |r.value| > 0 && AllIn(r.value, Digit)
  {
    if !AtCI(s, p, "limit") then None
    else
      var w := Run(s, p + 5, Space);
      var d := Run(s, p + 5 + w, Digit);
      if w == 0 || d == 0 then None
      else Some(s[p + 5 + w..p + 5 + w + d])
  }

  /** Where the leftmost LIMIT match at or after `p` starts. */
  function FirstLimit(s: string, p: nat): (r: Option<nat>)
    requires p <= |s|
    ensures r.Some? ==> p <= r.value <= |s| && LimitAt(s, r.value).Some?
    ensures r.Some? ==> forall k :: p <= k < r.value ==> LimitAt(s, k).None?
    ensures r.None? <==> forall k :: p <= k <= |s| ==> LimitAt(s, k).None?
    decreases |s| - p
  {
    if LimitAt(s, p).Some? then Some(p)
    else if p == |s| then None
    else FirstLimit(s, p + 1)
  }

  /** `parseInt` of a digit string. */
  function DecimalValue(ds: string): (n: nat)
    requires AllIn(ds, Digit)
  {
    if |ds| == 0 then 0
    else DecimalValue(ds[..|ds| - 1]) * 10 + (ds[|ds| - 1] as int - '0' as int)
  }

  // ---------------------------------------------------------------------------
  // `new RegExp(name + '\\s*\\(', 'gi').test(s)` and `/\(\s*select\s+/gi`

  /** `name\s*\(` matches at `p`. */
  predicate CallAt(s: string, p: nat, name: string)
    requires p <= |s|
  {
    AtCI(s, p, name) && At(s, p + |name| + Run(s, p + |name|, Space), "(")
  }

  predicate HasCall(s: string, name: string) {
    exists p :: 0 <= p <= |s| && CallAt(s, p, name)
  }

  /** After `name` at `p`, `k` whitespace characters and then `(`. */
  predicate ParenAfter(s: string, p: nat, name: string, k: nat) {
    SpacesBetween(s, p + |name|, p + |name| + k) && At(s, p + |name| + k, "(")
  }

  /** The scanner test at `p` is the pattern: the name in any case,
      whitespace of any length (none included), `(`. */
  lemma CallAtIff(s: string, p: nat, name: string)
    requires p <= |s|
    ensures CallAt(s, p, name) <==> AtCI(s, p, name) && exists k: nat :: ParenAfter(s, p, name, k)
  {
    if AtCI(s, p, name) {
      var h := p + |name|;
      var n := Run(s, h, Space);
      forall k: nat | ParenAfter(s, p, name, k) ensures k == n {
        RunBound(s, h, h + k);
        assert s[h + k] == "("[0];
      }
      if CallAt(s, p, name) {
        assert ParenAfter(s, p, name, n);
      }
    }
  }

  /** The end of a `\(\s*select\s+` match at `p`. */
  function SubqueryAt(s: string, p: nat): (r: Option<nat>)
    requires p <= |s|
    ensures r.Some? ==> p + 8 <= r.value <= |s|
  {
    if !At(s, p, "(") then None
    else
      var w := Run(s, p + 1, Space);
      if !AtCI(s, p + 1 + w, "select") then None
      else
        var v := Run(s, p + 7 + w, Space);
        if v == 0 then None else Some(p + 7 + w + v)
  }

  /** The number of subquery openings, counting non-overlapping matches from
      `p` on; each one takes at least eight characters. */
  function SubqueriesFrom(s: string, p: nat): (n: nat)
    requires p <= |s|
    ensures 8 * n <= |s| - p
    decreases |s| - p
  {
    if p == |s| then 0
    else match SubqueryAt(s, p)
      case Some(e) => 1 + SubqueriesFrom(s, e)
      case None => SubqueriesFrom(s, p + 1)
  }

  /** The count is zero exactly when no subquery opening starts from `p` on. */
  lemma {:induction false} SubqueriesFromZero(s: string, p: nat)
    requires p <= |s|
    ensures SubqueriesFrom(s, p) == 0 <==> forall q :: p <= q < |s| ==> SubqueryAt(s, q).None?
    decreases |s| - p
  {
    if p < |s| && SubqueryAt(s, p).None? {
      SubqueriesFromZero(s, p + 1);
    }
  }

  /** Otherwise it counts the leftmost opening and then those from where that
      one ends. */
  lemma {:induction false} SubqueriesFromFirst(s: string, p: nat)
    requires p <= |s|
    ensures SubqueriesFromSplit(s, p)
    decreases |s| - p
  {
    if p < |s| {
      var r := SubqueryAt(s, p);
      if r.Some? {
        SubqueryFirstHere(s, p, r.value);
      } else {
        SubqueriesFromFirst(s, p + 1);
        SubqueryFirstLater(s, p);
      }
    }
  }

  /** A positive count from `p` counts the leftmost opening and then those
      from where that one ends. */
  ghost predicate SubqueriesFromSplit(s: string, p: nat)
    requires p <= |s|
  {
    SubqueriesFrom(s, p) > 0 ==> exists q: nat, e: nat ::
      && p <= q < e <= |s| && (forall j :: p <= j < q ==> SubqueryAt(s, j).None?)
      && SubqueryAt(s, q) == Some(e) && SubqueriesFrom(s, p) == 1 + SubqueriesFrom(s, e)
  }

  lemma SubqueryFirstHere(s: string, p: nat, e: nat)
    requires p < |s| && SubqueryAt(s, p) == Some(e)
    ensures SubqueriesFromSplit(s, p)
  {
    assert SubqueriesFrom(s, p) == 1 + SubqueriesFrom(s, e);
  }

  lemma SubqueryFirstLater(s: string, p: nat)
    requires p < |s| && SubqueryAt(s, p).None?
    requires SubqueriesFromSplit(s, p + 1)
    ensures SubqueriesFromSplit(s, p)
  {
    assert SubqueriesFrom(s, p) == SubqueriesFrom(s, p + 1);
    if SubqueriesFrom(s, p + 1) > 0 {
      var q: nat, e: nat :| p + 1 <= q < e <= |s| && (forall j :: p + 1 <= j < q ==> SubqueryAt(s, j).None?)
        && SubqueryAt(s, q) == Some(e) && SubqueriesFrom(s, p + 1) == 1 + SubqueriesFrom(s, e);
      forall j | p <= j < q ensures SubqueryAt(s, j).None? {
        if j == p {
          assert SubqueryAt(s, p).None?;
        }
      }
      assert SubqueriesFrom(s, p) == 1 + SubqueriesFrom(s, e);
    }
  }

  // ---------------------------------------------------------------------------
  // `\s+as\s+`, shared by the SELECT items and the fragment normalisers

  /** `\s+as\s+` at `p`: where the match ends. */
  function AsAt(s: string, p: nat): (r: Option<nat>)
    requires p <= |s|
    ensures r.Some? ==> p + 4 <= r.value <= |s|
  {
    var w := Run(s, p, Space);
    if w == 0 || !AtCI(s, p + w, "as") then None
    else
      var v := Run(s, p + w + 2, Space);
      if v == 0 then None else Some(p + w + 2 + v)
  }
}
