/** Character classes and string primitives shared by the validator.

    Strings are `seq<char>`.  Case mapping and the whitespace class are those
    JavaScript uses for ASCII text (`\s`, `String.prototype.trim`).
 */
module Text {

  datatype Option<T> = None | Some(value: T)

  /** The `\s` class on ASCII text: tab, line feed, vertical tab, form feed,
      carriage return and space.  (JavaScript also counts the Unicode space
      separators, which ASCII text does not contain.) */
  predicate IsSpace(c: char) {
    c == ' ' || ('\t' <= c <= '\r')
  }

  /** The characters a regular-expression `.` refuses to match. */
  predicate IsLineTerminator(c: char) {
    c == '\n' || c == '\r' || c == '\U{2028}' || c == '\U{2029}'
  }

  /** The `\w` class. */
  predicate IsWord(c: char) {
    ('a' <= c <= 'z') || ('A' <= c <= 'Z') || ('0' <= c <= '9') || c == '_'
  }

  /** The `\d` class. */
  predicate IsDigit(c: char) {
    '0' <= c <= '9'
  }

  predicate IsUpper(c: char) {
    'A' <= c <= 'Z'
  }

  /** The three quote characters the fragment normalisers strip: `"`, `'` and backtick. */
  predicate IsQuote(c: char) {
    c == '"' || c == '\'' || c == '`'
  }

  /** The character classes the scanners run over. */
  datatype CharClass =
    | Space        // \s
    | Word         // \w
    | Digit        // \d
    | Semicolon    // ;
    | NotLineEnd   // .
    | NotSemicolon // [^;]
    | TableChar    // [\w\s,]
    | GroupChar    // [\w\s,\.]
    | JoinTailChar // [^join|where|group|order|limit] under the i flag

  predicate InClass(c: char, k: CharClass) {
    match k
    case Space => IsSpace(c)
    case Word => IsWord(c)
    case Digit => IsDigit(c)
    case Semicolon => c == ';'
    case NotLineEnd => !IsLineTerminator(c)
    case NotSemicolon => c != ';'
    case TableChar => IsWord(c) || IsSpace(c) || c == ','
    case GroupChar => IsWord(c) || IsSpace(c) || c == ',' || c == '.'
    case JoinTailChar => ToLower(c) !in JoinExcluded
  }

  /** The members of the class `[join|where|group|order|limit]`: letters (the
      `i` flag adds their capitals) and the bar. */
  const JoinExcluded: set<char> := {'j', 'o', 'i', 'n', 'w', 'h', 'e', 'r', 'g', 'u', 'p', 'd', 'l', 'm', 't', '|'}

  function ToLower(c: char): (d: char)
    ensures !IsUpper(d)
    ensures IsUpper(c) ==> d as int == c as int + 32
    ensures !IsUpper(c) ==> d == c
  {
    if IsUpper(c) then (c as int + 32) as char else c
  }

  predicate NoUpper(s: string) {
    forall i :: 0 <= i < |s| ==> !IsUpper(s[i])
  }

  /** `toLowerCase`, restricted to ASCII letters. */
  function Lower(s: string): (r: string)
    ensures |r| == |s|
    ensures forall i :: 0 <= i < |s| ==> r[i] == ToLower(s[i])
    ensures NoUpper(r)
  {
    seq(|s|, i requires 0 <= i < |s| => ToLower(s[i]))
  }

  lemma LowerOfLowerCase(s: string)
    requires NoUpper(s)
    ensures Lower(s) == s
  {
  }

  lemma LowerAppend(a: string, b: string)
    ensures Lower(a + b) == Lower(a) + Lower(b)
  {
  }

  /** `s` has the literal `w` at position `p`. */
  predicate At(s: string, p: nat, w: string) {
    p + |w| <= |s| && s[p..p + |w|] == w
  }

  /** A piece of a word found at `p` is found at the matching offset. */
  lemma AtPart(s: string, p: nat, w: string, i: nat, j: nat)
    requires At(s, p, w) && i <= j <= |w|
    ensures s[p + i..p + j] == w[i..j]
  {
    var u := s[p..p + |w|];
    assert u == w;
    assert forall k :: 0 <= k < j - i ==> s[p + i..p + j][k] == u[i..j][k];
  }

  /** A prefix of a word found at `p` is found at `p`. */
  lemma AtPrefix(s: string, p: nat, w: string, v: string)
    requires At(s, p, w) && |v| <= |w| && w[..|v|] == v
    ensures At(s, p, v)
  {
    AtPart(s, p, w, 0, |v|);
  }

  /** A character of a word found at `p` is found at the matching offset. */
  lemma AtChar(s: string, p: nat, w: string, i: nat)
    requires At(s, p, w) && i < |w|
    ensures s[p + i] == w[i]
  {
    assert s[p..p + |w|][i] == w[i];
  }

  /** `s` has `w` at position `p`, ignoring ASCII case (a pattern under the `i` flag). */
  predicate AtCI(s: string, p: nat, w: string) {
    p + |w| <= |s| && Lower(s[p..p + |w|]) == Lower(w)
  }

  lemma AtCIOfLowerCase(s: string, p: nat, w: string)
    requires NoUpper(s) && NoUpper(w)
    ensures AtCI(s, p, w) <==> At(s, p, w)
  {
    if p + |w| <= |s| {
      LowerOfLowerCase(w);
      LowerOfLowerCase(s[p..p + |w|]);
    }
  }

  /** Length of the longest run of characters of class `k` starting at `p`
      (what a greedy `k*` consumes). */
  function Run(s: string, p: nat, k: CharClass): (n: nat)
    requires p <= |s|
    ensures p + n <= |s|
    ensures forall i :: p <= i < p + n ==> InClass(s[i], k)
    ensures p + n == |s| || !InClass(s[p + n], k)
    decreases |s| - p
  {
    if p < |s| && InClass(s[p], k) then 1 + Run(s, p + 1, k) else 0
  }

  /** `s[i..j]` is all whitespace. */
  predicate SpacesBetween(s: string, i: nat, j: nat) {
    i <= j <= |s| && forall k :: i <= k < j ==> IsSpace(s[k])
  }

  /** A whitespace stretch less its last character is one too. */
  lemma SpacesShorter(s: string, i: nat, j: nat)
    requires i < j && SpacesBetween(s, i, j)
    ensures SpacesBetween(s, i, j - 1)
  {
  }

  /** A whitespace stretch from `i` lies within the longest run there. */
  lemma RunBound(s: string, i: nat, j: nat)
    requires SpacesBetween(s, i, j)
    ensures j <= i + Run(s, i, Space)
  {
    var n := Run(s, i, Space);
    assert i + n == |s| || !IsSpace(s[i + n]);
  }

  predicate AllIn(s: string, k: CharClass) {
    forall i :: 0 <= i < |s| ==> InClass(s[i], k)
  }

  /** A run that stops where the class stops has exactly that length. */
  lemma {:induction false} RunExact(s: string, p: nat, q: nat, k: CharClass)
    requires p <= q <= |s|
    requires forall i :: p <= i < q ==> InClass(s[i], k)
    requires q == |s| || !InClass(s[q], k)
    ensures Run(s, p, k) == q - p
    decreases q - p
  {
    if p < q {
      RunExact(s, p + 1, q, k);
    }
  }

  /** Values that never change from one index to the next are the same
      across the whole range. */
  lemma {:induction false} Steady<T>(f: nat -> T, q: nat, n: nat)
    requires q <= n
    requires forall i :: q <= i < n ==> f(i) == f(i + 1)
    ensures f(q) == f(n)
    decreases n - q
  {
    if q < n {
      Steady(f, q + 1, n);
    }
  }

  predicate NoSpace(s: string) {
    forall i :: 0 <= i < |s| ==> !IsSpace(s[i])
  }

  /** The only whitespace is ' ' and no two spaces are adjacent. */
  predicate SingleSpaced(s: string) {
    && (forall i :: 0 <= i < |s| && IsSpace(s[i]) ==> s[i] == ' ')
    && (forall i, j :: 0 <= i < |s| && 0 <= j < |s| && j == i + 1 && s[i] == ' ' ==> s[j] != ' ')
  }

  /** Neither end of `s` is whitespace. */
  predicate Trimmed(s: string) {
    |s| == 0 || (!IsSpace(s[0]) && !IsSpace(s[|s| - 1]))
  }

  /** `replace(/\s/g, '')`. */
  function RemoveSpaces(s: string): (r: string)
    ensures NoSpace(r)
    ensures NoSpace(s) ==> r == s
  {
    if |s| == 0 then ""
    else if IsSpace(s[0]) then RemoveSpaces(s[1..])
    else [s[0]] + RemoveSpaces(s[1..])
  }

  /** Removing whitespace introduces no character. */
  lemma {:induction false} RemoveSpacesChars(s: string)
    ensures forall i :: 0 <= i < |RemoveSpaces(s)| ==> RemoveSpaces(s)[i] in s
  {
    if |s| > 0 {
      RemoveSpacesChars(s[1..]);
      assert forall c :: c in s[1..] ==> c in s;
    }
  }

  /** Lower-casing neither makes nor unmakes whitespace, so it commutes with
      deleting whitespace. */
  lemma {:induction false} LowerRemoveSpaces(s: string)
    ensures RemoveSpaces(Lower(s)) == Lower(RemoveSpaces(s))
  {
    if |s| > 0 {
      var t := Lower(s);
      LowerRemoveSpaces(s[1..]);
      assert t[1..] == Lower(s[1..]);
      assert IsSpace(t[0]) <==> IsSpace(s[0]);
      if !IsSpace(s[0]) {
        LowerAppend([s[0]], RemoveSpaces(s[1..]));
        assert Lower([s[0]]) == [t[0]];
      }
    }
  }

  lemma RemoveSpacesAppend(a: string, b: string)
    ensures RemoveSpaces(a + b) == RemoveSpaces(a) + RemoveSpaces(b)
  {
    if |a| > 0 {
      assert (a + b)[1..] == a[1..] + b;
      RemoveSpacesAppend(a[1..], b);
    } else {
      assert a + b == b;
    }
  }

  /** `replace(/["'`]/g, '')`. */
  function RemoveQuotes(s: string): (r: string)
    ensures forall i :: 0 <= i < |r| ==> !IsQuote(r[i])
    ensures (forall i :: 0 <= i < |s| ==> !IsQuote(s[i])) ==> r == s
  {
    if |s| == 0 then ""
    else if IsQuote(s[0]) then RemoveQuotes(s[1..])
    else [s[0]] + RemoveQuotes(s[1..])
  }

  lemma RemoveQuotesAppend(a: string, b: string)
    ensures RemoveQuotes(a + b) == RemoveQuotes(a) + RemoveQuotes(b)
  {
    if |a| > 0 {
      assert (a + b)[1..] == a[1..] + b;
      RemoveQuotesAppend(a[1..], b);
    } else {
      assert a + b == b;
    }
  }

  /** Removing quotes introduces no character. */
  lemma {:induction false} RemoveQuotesChars(s: string)
    ensures forall i :: 0 <= i < |RemoveQuotes(s)| ==> RemoveQuotes(s)[i] in s
  {
    if |s| > 0 {
      RemoveQuotesChars(s[1..]);
      assert forall c :: c in s[1..] ==> c in s;
    }
  }

  /** `r` is `s` without its leading and trailing whitespace: a slice of `s`
      with nothing but whitespace outside it, and none at its own ends. */
  predicate IsTrimOf(s: string, r: string) {
    exists i, j :: 0 <= i <= j <= |s| && r == s[i..j] && AllIn(s[..i], Space) && AllIn(s[j..], Space) && Trimmed(r)
  }

  /** `trim()`: drops leading and trailing whitespace. */
  function Trim(s: string): (r: string)
    ensures IsTrimOf(s, r)
    ensures Trimmed(r)
    ensures |r| <= |s|
    ensures forall i :: 0 <= i < |r| ==> r[i] in s
    ensures Trimmed(s) ==> r == s
  {
    var i := Run(s, 0, Space);
    var j := TrailingSpaces(s, i);
    assert AllIn(s[..i], Space) by {
      forall k | 0 <= k < i ensures InClass(s[..i][k], Space) { assert s[..i][k] == s[k]; }
    }
    assert IsTrimOf(s, s[i..j]);
    s[i..j]
  }

  /** Trimming removes nothing but whitespace. */
  lemma TrimKeepsText(s: string)
    ensures RemoveSpaces(Trim(s)) == RemoveSpaces(s)
  {
    var r := Trim(s);
    var i, j :| 0 <= i <= j <= |s| && r == s[i..j] && AllIn(s[..i], Space) && AllIn(s[j..], Space) && Trimmed(r);
    PaddedText(s, i, j);
  }

  /** Whitespace on both sides of `s[i..j]` is all that `s` adds to it. */
  lemma PaddedText(s: string, i: nat, j: nat)
    requires i <= j <= |s| && AllIn(s[..i], Space) && AllIn(s[j..], Space)
    ensures RemoveSpaces(s[i..j]) == RemoveSpaces(s)
  {
    assert RemoveSpaces(s[i..]) == RemoveSpaces(s) by {
      forall k | 0 <= k < i ensures IsSpace(s[k]) { assert InClass(s[..i][k], Space); }
      SpacesOnly(s, 0, i);
      assert s[0..] == s;
    }
    var w := s[i..];
    assert w[..j - i] == s[i..j] && w[j - i..] == s[j..];
    TrailingSpacesDropped(w, j - i);
  }

  lemma TrailingSpacesDropped(t: string, m: nat)
    requires m <= |t| && AllIn(t[m..], Space)
    ensures RemoveSpaces(t[..m]) == RemoveSpaces(t)
  {
    assert t == t[..m] + t[m..];
    RemoveSpacesAppend(t[..m], t[m..]);
    AllSpacesRemoved(t[m..]);
  }

  lemma {:induction false} AllSpacesRemoved(w: string)
    requires AllIn(w, Space)
    ensures RemoveSpaces(w) == ""
    decreases |w|
  {
    if |w| > 0 {
      assert InClass(w[0], Space);
      AllSpacesRemoved(w[1..]);
    }
  }

  /** The end of `s` once its trailing whitespace (after position `lo`) is dropped. */
  function TrailingSpaces(s: string, lo: nat): (j: nat)
    requires lo <= |s|
    ensures lo <= j <= |s|
    ensures AllIn(s[j..], Space)
    ensures j == lo || !IsSpace(s[j - 1])
  {
    TrailingFrom(s, lo, |s|)
  }

  function TrailingFrom(s: string, lo: nat, j: nat): (r: nat)
    requires lo <= j <= |s|
    requires AllIn(s[j..], Space)
    ensures lo <= r <= j
    ensures AllIn(s[r..], Space)
    ensures r == lo || !IsSpace(s[r - 1])
    decreases j
  {
    if j > lo && IsSpace(s[j - 1]) then TrailingFrom(s, lo, j - 1) else j
  }

  /** `replace(/\s+/g, ' ')` applied to `s[p..]`: every maximal whitespace run
      becomes one space. */
  function CollapseFrom(s: string, p: nat): (r: string)
    requires p <= |s|
    ensures p < |s| ==> |r| > 0 && (if IsSpace(s[p]) then r[0] == ' ' else r[0] == s[p])
    ensures p == |s| ==> r == ""
    decreases |s| - p
  {
    if p >= |s| then ""
    else if IsSpace(s[p]) then " " + CollapseFrom(s, p + Run(s, p, Space))
    else [s[p]] + CollapseFrom(s, p + 1)
  }

  /** The collapsed text has only single spaces. */
  lemma {:induction false} CollapseFromSingleSpaced(s: string, p: nat)
    requires p <= |s|
    ensures SingleSpaced(CollapseFrom(s, p))
    decreases |s| - p
  {
    if p < |s| {
      var r := CollapseFrom(s, p);
      var next := if IsSpace(s[p]) then p + Run(s, p, Space) else p + 1;
      var rest := CollapseFrom(s, next);
      CollapseFromSingleSpaced(s, next);
      var c := if IsSpace(s[p]) then ' ' else s[p];
      assert r == [c] + rest;
      forall i | 0 <= i < |r| && IsSpace(r[i]) ensures r[i] == ' ' {
        if i > 0 { assert r[i] == rest[i - 1]; }
      }
      forall i, j | 0 <= i < |r| && 0 <= j < |r| && j == i + 1 && r[i] == ' ' ensures r[j] != ' ' {
        if i > 0 {
          assert r[i] == rest[i - 1] && r[j] == rest[j - 1];
        }
      }
    }
  }

  /** Collapsing introduces no character other than the space. */
  lemma {:induction false} CollapseFromChars(s: string, p: nat)
    requires p <= |s|
    ensures forall i :: 0 <= i < |CollapseFrom(s, p)| ==> CollapseFrom(s, p)[i] == ' ' || CollapseFrom(s, p)[i] in s
    decreases |s| - p
  {
    if p < |s| {
      var r := CollapseFrom(s, p);
      var next := if IsSpace(s[p]) then p + Run(s, p, Space) else p + 1;
      var rest := CollapseFrom(s, next);
      CollapseFromChars(s, next);
      assert forall k :: 0 <= k < |rest| ==> rest[k] == ' ' || rest[k] in s;
      var c := if IsSpace(s[p]) then ' ' else s[p];
      assert r == [c] + rest;
      assert c == ' ' || c in s;
      forall i | 0 <= i < |r| ensures r[i] == ' ' || r[i] in s {
        if i > 0 {
          assert r[i] == rest[i - 1];
          assert rest[i - 1] == ' ' || rest[i - 1] in s;
        } else {
          assert r[0] == c;
        }
      }
    }
  }

  /** Collapsing keeps every non-whitespace character, in order. */
  lemma {:induction false} CollapseKeepsText(s: string, p: nat)
    requires p <= |s|
    ensures RemoveSpaces(CollapseFrom(s, p)) == RemoveSpaces(s[p..])
    decreases |s| - p
  {
    if p == |s| {
      assert s[p..] == "";
    } else if IsSpace(s[p]) {
      var q := p + Run(s, p, Space);
      CollapseKeepsText(s, q);
      CollapseSpaceCase(s, p, q);
    } else {
      CollapseKeepsText(s, p + 1);
      CollapseCharCase(s, p);
    }
  }

  lemma CollapseSpaceCase(s: string, p: nat, q: nat)
    requires p < |s| && IsSpace(s[p]) && q == p + Run(s, p, Space)
    requires RemoveSpaces(CollapseFrom(s, q)) == RemoveSpaces(s[q..])
    ensures RemoveSpaces(CollapseFrom(s, p)) == RemoveSpaces(s[p..])
  {
    var r, rest := CollapseFrom(s, p), CollapseFrom(s, q);
    assert r == [' '] + rest by { CollapseFromSpace(s, p, q); }
    assert forall i :: p <= i < q ==> IsSpace(s[i]) by {
      forall i | p <= i < q ensures IsSpace(s[i]) { assert InClass(s[i], Space); }
    }
    SpaceStep(s, p, q, r, rest);
  }

  lemma CollapseCharCase(s: string, p: nat)
    requires p < |s| && !IsSpace(s[p])
    requires RemoveSpaces(CollapseFrom(s, p + 1)) == RemoveSpaces(s[p + 1..])
    ensures RemoveSpaces(CollapseFrom(s, p)) == RemoveSpaces(s[p..])
  {
    CollapseFromChar(s, p);
    SliceCons(s, p);
    RemoveSpacesCons(s[p], s[p + 1..]);
    KeepStep(CollapseFrom(s, p), s[p], CollapseFrom(s, p + 1), s[p..], s[p + 1..]);
  }

  lemma CollapseFromSpace(s: string, p: nat, q: nat)
    requires p < |s| && IsSpace(s[p]) && q == p + Run(s, p, Space)
    ensures CollapseFrom(s, p) == [' '] + CollapseFrom(s, q)
  {
  }

  lemma CollapseFromChar(s: string, p: nat)
    requires p < |s| && !IsSpace(s[p])
    ensures CollapseFrom(s, p) == [s[p]] + CollapseFrom(s, p + 1)
  {
  }

  lemma SliceSplit(s: string, i: nat, j: nat)
    requires i <= j <= |s|
    ensures s[i..] == s[i..j] + s[j..]
  {
  }

  lemma SliceCons(s: string, p: nat)
    requires p < |s|
    ensures s[p..] == [s[p]] + s[p + 1..]
  {
  }

  /** One step of `CollapseKeepsText`: `r` is `c` before `rest`, and `rest`
      keeps the text of `u`, which `t` shares once `c` is accounted for. */
  lemma KeepStep(r: string, c: char, rest: string, t: string, u: string)
    requires r == [c] + rest
    requires RemoveSpaces(rest) == RemoveSpaces(u)
    requires RemoveSpaces(t) == if IsSpace(c) then RemoveSpaces(u) else [c] + RemoveSpaces(u)
    ensures RemoveSpaces(r) == RemoveSpaces(t)
  {
    RemoveSpacesCons(c, rest);
  }

  /** The whitespace step of `CollapseKeepsText`: the run `s[p..q]` became
      the one space in front of `rest`. */
  lemma SpaceStep(s: string, p: nat, q: nat, r: string, rest: string)
    requires p <= q <= |s|
    requires forall i :: p <= i < q ==> IsSpace(s[i])
    requires r == [' '] + rest
    requires RemoveSpaces(rest) == RemoveSpaces(s[q..])
    ensures RemoveSpaces(r) == RemoveSpaces(s[p..])
  {
    SpacesOnly(s, p, q);
    KeepStep(r, ' ', rest, s[p..], s[q..]);
  }

  lemma RemoveSpacesCons(c: char, t: string)
    ensures RemoveSpaces([c] + t) == if IsSpace(c) then RemoveSpaces(t) else [c] + RemoveSpaces(t)
  {
    assert ([c] + t)[1..] == t;
  }

  /** A last character that is not whitespace survives collapsing. */
  lemma {:induction false} CollapseKeepsLast(s: string, p: nat)
    requires p < |s| && !IsSpace(s[|s| - 1])
    ensures var r := CollapseFrom(s, p); |r| > 0 && r[|r| - 1] == s[|s| - 1]
    decreases |s| - p
  {
    if IsSpace(s[p]) {
      CollapseKeepsLast(s, p + Run(s, p, Space));
    } else if p + 1 < |s| {
      CollapseKeepsLast(s, p + 1);
    }
  }

  /** Text without whitespace is left alone. */
  lemma {:induction false} CollapseNoSpace(s: string, p: nat)
    requires p <= |s| && forall j :: p <= j < |s| ==> !IsSpace(s[j])
    ensures CollapseFrom(s, p) == s[p..]
    decreases |s| - p
  {
    if p < |s| {
      CollapseNoSpace(s, p + 1);
      assert s[p..] == [s[p]] + s[p + 1..];
    }
  }

  /** Collapsing gives text without whitespace only when there was none to collapse. */
  lemma {:induction false} CollapseSpaceFree(s: string, p: nat)
    requires p <= |s| && NoSpace(CollapseFrom(s, p))
    ensures CollapseFrom(s, p) == s[p..]
    decreases |s| - p
  {
    if p < |s| {
      var r := CollapseFrom(s, p);
      if IsSpace(s[p]) {
        assert false;
      } else {
        var rest := CollapseFrom(s, p + 1);
        assert r == [s[p]] + rest;
        assert NoSpace(rest) by {
          forall i | 0 <= i < |rest| ensures !IsSpace(rest[i]) {
            assert rest[i] == r[i + 1];
          }
        }
        CollapseSpaceFree(s, p + 1);
        assert s[p..] == [s[p]] + s[p + 1..];
      }
    }
  }

  /** Removing whitespace from a run of whitespace followed by more text leaves the text. */
  lemma SpacesOnly(s: string, p: nat, q: nat)
    requires p <= q <= |s|
    requires forall i :: p <= i < q ==> IsSpace(s[i])
    ensures RemoveSpaces(s[p..]) == RemoveSpaces(s[q..])
    decreases q - p
  {
    if p < q {
      assert s[p..] == [s[p]] + s[p + 1..];
      RemoveSpacesAppend([s[p]], s[p + 1..]);
      SpacesOnly(s, p + 1, q);
    }
  }

  /** `replace(/\s+/g, ' ')`. */
  function Collapse(s: string): (r: string)
    ensures SingleSpaced(r)
    ensures |r| == 0 <==> |s| == 0
    ensures RemoveSpaces(r) == RemoveSpaces(s)
  {
    CollapseFromSingleSpaced(s, 0);
    CollapseKeepsText(s, 0);
    assert s[0..] == s;
    CollapseFrom(s, 0)
  }

  /** A run is the same wherever the same text follows. */
  lemma {:induction false} RunShift(s: string, p: nat, k: nat, c: CharClass)
    requires p + k <= |s|
    ensures Run(s, p + k, c) == Run(s[p..], k, c)
    decreases |s| - p - k
  {
    if p + k < |s| {
      assert s[p..][k] == s[p + k];
      RunShift(s, p, k + 1, c);
    }
  }

  /** A run inside `a` that stops before the end of `a` is not affected by
      what follows `a`. */
  lemma RunPrefix(a: string, t: string, i: nat, c: CharClass)
    requires i < |a| && !InClass(a[|a| - 1], c)
    ensures i + Run(a, i, c) < |a| && Run(a + t, i, c) == Run(a, i, c)
  {
    var n := Run(a, i, c);
    var s := a + t;
    assert i + n < |a|;
    assert s[i + n] == a[i + n];
    forall k | i <= k < i + n ensures InClass(s[k], c) { assert s[k] == a[k]; }
    RunExact(s, i, i + n, c);
  }

  /** Collapsing from `p + k` in `s` is collapsing from `k` in `s[p..]`. */
  lemma {:induction false} CollapseShift(s: string, p: nat, k: nat)
    requires p + k <= |s|
    ensures CollapseFrom(s, p + k) == CollapseFrom(s[p..], k)
    decreases |s| - p - k, 1
  {
    if p + k < |s| {
      if IsSpace(s[p + k]) {
        ShiftSpaceStep(s, p, k);
      } else {
        ShiftCharStep(s, p, k);
      }
    }
  }

  lemma {:induction false} ShiftSpaceStep(s: string, p: nat, k: nat)
    requires p + k < |s| && IsSpace(s[p + k])
    ensures CollapseFrom(s, p + k) == CollapseFrom(s[p..], k)
    decreases |s| - p - k, 0
  {
    var t, n := s[p..], Run(s, p + k, Space);
    assert k < |t| && IsSpace(t[k]) && n == Run(t, k, Space) by {
      assert t[k] == s[p + k];
      RunShift(s, p, k, Space);
    }
    CollapseShift(s, p, k + n);
    CollapseFromSpace(s, p + k, p + (k + n));
    CollapseFromSpace(t, k, k + n);
  }

  lemma {:induction false} ShiftCharStep(s: string, p: nat, k: nat)
    requires p + k < |s| && !IsSpace(s[p + k])
    ensures CollapseFrom(s, p + k) == CollapseFrom(s[p..], k)
    decreases |s| - p - k, 0
  {
    assert s[p..][k] == s[p + k];
    CollapseShift(s, p, k + 1);
    CollapseFromChar(s, p + k);
    CollapseFromChar(s[p..], k);
  }

  lemma {:induction false} CollapseFromAppend(a: string, t: string, i: nat)
    requires i <= |a| && (|a| == 0 || !IsSpace(a[|a| - 1]))
    ensures CollapseFrom(a + t, i) == CollapseFrom(a, i) + CollapseFrom(t, 0)
    decreases |a| - i
  {
    var s := a + t;
    if i == |a| {
      CollapseShift(s, |a|, 0);
      assert s[|a|..] == t;
    } else {
      assert s[i] == a[i];
      if IsSpace(a[i]) {
        RunPrefix(a, t, i, Space);
        var j := i + Run(a, i, Space);
        CollapseFromAppend(a, t, j);
        CollapseFromSpace(s, i, j);
        CollapseFromSpace(a, i, j);
      } else {
        CollapseFromAppend(a, t, i + 1);
        CollapseFromChar(s, i);
        CollapseFromChar(a, i);
      }
    }
  }

  /** Collapsing works piece by piece across a cut that does not follow
      whitespace. */
  lemma CollapseAppend(a: string, b: string)
    requires |a| == 0 || !IsSpace(a[|a| - 1])
    ensures Collapse(a + b) == Collapse(a) + Collapse(b)
  {
    CollapseFromAppend(a, b, 0);
  }

  /** A whole whitespace run, however long and of whatever kind, becomes one
      space. */
  lemma CollapseRun(w: string, b: string)
    requires |w| > 0 && AllIn(w, Space) && (|b| == 0 || !IsSpace(b[0]))
    ensures Collapse(w + b) == " " + Collapse(b)
  {
    var s := w + b;
    forall k | 0 <= k < |w| ensures InClass(s[k], Space) { assert s[k] == w[k]; }
    if |b| > 0 { assert s[|w|] == b[0]; }
    RunExact(s, 0, |w|, Space);
    CollapseFromSpace(s, 0, |w|);
    CollapseShift(s, |w|, 0);
    assert s[|w|..] == b;
  }

  /** Text without whitespace is left alone. */
  lemma CollapseWord(x: string)
    requires NoSpace(x)
    ensures Collapse(x) == x
  {
    CollapseNoSpace(x, 0);
    assert x[0..] == x;
  }

  /** Collapsing introduces no character other than the space. */
  lemma CollapseChars(s: string)
    ensures forall i :: 0 <= i < |Collapse(s)| ==> Collapse(s)[i] == ' ' || Collapse(s)[i] in s
  {
    var r := Collapse(s);
    assert r == CollapseFrom(s, 0);
    CollapseFromChars(s, 0);
  }

  /** Collapsing a string with no whitespace at either end leaves none at either end. */
  lemma CollapseTrimmed(s: string)
    requires Trimmed(s)
    ensures Trimmed(Collapse(s))
  {
    if |s| > 0 {
      CollapseKeepsLast(s, 0);
    }
  }

  /** A single-spaced string is left alone (from a position that is not a space). */
  lemma {:induction false} CollapseOfSingleSpaced(s: string, p: nat)
    requires p <= |s| && SingleSpaced(s) && (p == |s| || s[p] != ' ')
    ensures CollapseFrom(s, p) == s[p..]
    decreases |s| - p
  {
    if p < |s| {
      assert !IsSpace(s[p]);
      if p + 1 < |s| && s[p + 1] == ' ' {
        assert Run(s, p + 1, Space) == 1 by {
          assert p + 2 == |s| || s[p + 2] != ' ';
          assert p + 2 == |s| || !IsSpace(s[p + 2]);
          assert Run(s, p + 2, Space) == 0;
        }
        CollapseOfSingleSpaced(s, p + 2);
        assert s[p..] == [s[p]] + " " + s[p + 2..];
      } else {
        if p + 1 < |s| { assert !IsSpace(s[p + 1]); }
        CollapseOfSingleSpaced(s, p + 1);
        assert s[p..] == [s[p]] + s[p + 1..];
      }
    }
  }

  /** `"x".split(sep)` for a one-character separator: the pieces between separators. */
  function Split(s: string, sep: char): (r: seq<string>)
    ensures |r| >= 1
    ensures forall i :: 0 <= i < |r| ==> sep !in r[i]
    ensures Join(r, sep) == s
  {
    SplitFrom(s, sep, 0, 0)
  }

  /** Split of `s[start..]`, with `s[start..i]` already known to be free of `sep`. */
  function SplitFrom(s: string, sep: char, start: nat, i: nat): (r: seq<string>)
    requires start <= i <= |s|
    requires sep !in s[start..i]
    ensures |r| >= 1
    ensures forall k :: 0 <= k < |r| ==> sep !in r[k]
    ensures Join(r, sep) == s[start..]
    decreases |s| - i
  {
    if i == |s| then [s[start..]]
    else if s[i] == sep then
      var rest := SplitFrom(s, sep, i + 1, i + 1);
      assert s[start..] == s[start..i] + [sep] + s[i + 1..];
      [s[start..i]] + rest
    else
      assert s[start..i + 1] == s[start..i] + [s[i]];
      SplitFrom(s, sep, start, i + 1)
  }

  /** `pieces.join(sep)`. */
  function Join(pieces: seq<string>, sep: char): string {
    if |pieces| == 0 then ""
    else if |pieces| == 1 then pieces[0]
    else pieces[0] + [sep] + Join(pieces[1..], sep)
  }

  lemma {:induction false} SplitJoin(pieces: seq<string>, sep: char)
    requires |pieces| >= 1
    requires forall i :: 0 <= i < |pieces| ==> sep !in pieces[i]
    ensures Split(Join(pieces, sep), sep) == pieces
  {
    SplitJoinFrom(pieces, sep, "");
  }

  lemma {:induction false} SplitJoinFrom(pieces: seq<string>, sep: char, pre: string)
    requires |pieces| >= 1
    requires forall i :: 0 <= i < |pieces| ==> sep !in pieces[i]
    ensures forall s: string, start: nat | start <= |s| && s[start..] == Join(pieces, sep) ::
              SplitFrom(s, sep, start, start) == pieces
    decreases |pieces|
  {
    forall s: string, start: nat | start <= |s| && s[start..] == Join(pieces, sep)
      ensures SplitFrom(s, sep, start, start) == pieces
    {
      var p := pieces[0];
      ScanPiece(s, sep, start, start, |p|, p);
      if |pieces| == 1 {
        assert s[start..] == p;
      } else {
        var rest := pieces[1..];
        assert s[start..] == p + [sep] + Join(rest, sep);
        assert s[start + |p|] == sep;
        assert s[start + |p| + 1..] == Join(rest, sep);
        SplitJoinFrom(rest, sep, pre);
      }
    }
  }

  /** Scanning over a separator-free piece reaches the piece's end unchanged. */
  lemma ScanPiece(s: string, sep: char, start: nat, i: nat, n: nat, p: string)
    requires start <= i <= start + n <= |s| && |p| == n
    requires s[start..start + n] == p && sep !in p
    requires sep !in s[start..i]
    ensures SplitFrom(s, sep, start, i) == SplitFrom(s, sep, start, start + n)
    decreases start + n - i
  {
    if i < start + n {
      assert s[i] == p[i - start];
      assert s[start..i + 1] == s[start..i] + [s[i]];
      ScanPiece(s, sep, start, i + 1, n, p);
    }
  }

  /** `hay.includes(needle)`. */
  predicate Contains(hay: string, needle: string) {
    exists i :: 0 <= i <= |hay| - |needle| && At(hay, i, needle)
  }

  /** Each element's list, concatenated in order. */
  function FlatMap(f: string -> seq<string>, s: seq<string>): seq<string> {
    if |s| == 0 then [] else f(s[0]) + FlatMap(f, s[1..])
  }

  lemma {:induction false} FlatMapAppend(f: string -> seq<string>, a: seq<string>, b: seq<string>)
    ensures FlatMap(f, a + b) == FlatMap(f, a) + FlatMap(f, b)
    decreases |a|
  {
    if |a| > 0 {
      assert (a + b)[0] == a[0];
      assert (a + b)[1..] == a[1..] + b;
      FlatMapAppend(f, a[1..], b);
      assert FlatMap(f, a + b) == f(a[0]) + FlatMap(f, a[1..] + b);
      assert FlatMap(f, a) == f(a[0]) + FlatMap(f, a[1..]);
    } else {
      assert a + b == b;
    }
  }

  /** `map` over a sequence of strings. */
  function Map(f: string -> string, s: seq<string>): (r: seq<string>)
    ensures |r| == |s|
    ensures forall i :: 0 <= i < |s| ==> r[i] == f(s[i])
  {
    seq(|s|, i requires 0 <= i < |s| => f(s[i]))
  }

  /** `r` is the image under `f` of the elements of `s` that `keep` admits,
      in their order: `idx` lists their positions, strictly increasing, and
      misses no admitted position. */
  ghost predicate Selects<A, B>(s: seq<A>, keep: A -> bool, f: A -> B, r: seq<B>, idx: seq<nat>) {
    && |idx| == |r|
    && (forall k :: 0 <= k < |idx| ==> idx[k] < |s| && keep(s[idx[k]]) && r[k] == f(s[idx[k]]))
    && (forall k, l :: 0 <= k < l < |idx| ==> idx[k] < idx[l])
    && (forall i :: 0 <= i < |s| && keep(s[i]) ==> i in idx)
  }

  /** A filter followed by a map, element by element. */
  function FilterMap<A, B>(keep: A -> bool, f: A -> B, s: seq<A>): seq<B> {
    if |s| == 0 then [] else (if keep(s[0]) then [f(s[0])] else []) + FilterMap(keep, f, s[1..])
  }

  lemma {:induction false} FilterMapSelects<A, B>(keep: A -> bool, f: A -> B, s: seq<A>)
    ensures exists idx :: Selects(s, keep, f, FilterMap(keep, f, s), idx)
    decreases |s|
  {
    if |s| == 0 {
      assert FilterMap(keep, f, s) == [];
      assert Selects(s, keep, f, [], []);
    } else {
      FilterMapSelects(keep, f, s[1..]);
      var rest := FilterMap(keep, f, s[1..]);
      var idx' :| Selects(s[1..], keep, f, rest, idx');
      if keep(s[0]) {
        assert FilterMap(keep, f, s) == [f(s[0])] + rest;
        SelectsKeep(s, keep, f, rest, idx');
        assert Selects(s, keep, f, FilterMap(keep, f, s), [0] + Shift(idx'));
      } else {
        assert FilterMap(keep, f, s) == rest;
        SelectsSkip(s, keep, f, rest, idx');
        assert Selects(s, keep, f, FilterMap(keep, f, s), Shift(idx'));
      }
    }
  }

  predicate NotQuote(c: char) {
    !IsQuote(c)
  }

  function SameChar(c: char): char {
    c
  }

  /** Removing quotes keeps every other character, in order. */
  lemma RemoveQuotesFilters(s: string)
    ensures exists idx :: Selects(s, NotQuote, SameChar, RemoveQuotes(s), idx)
  {
    RemoveQuotesIsFilter(s);
    FilterMapSelects(NotQuote, SameChar, s);
  }

  lemma {:induction false} RemoveQuotesIsFilter(s: string)
    ensures RemoveQuotes(s) == FilterMap(NotQuote, SameChar, s)
  {
    if |s| > 0 {
      RemoveQuotesIsFilter(s[1..]);
    }
  }

  lemma {:induction false} FilterMapAppend<A, B>(keep: A -> bool, f: A -> B, x: seq<A>, y: seq<A>)
    ensures FilterMap(keep, f, x + y) == FilterMap(keep, f, x) + FilterMap(keep, f, y)
    decreases |x|
  {
    if |x| > 0 {
      assert (x + y)[0] == x[0];
      assert (x + y)[1..] == x[1..] + y;
      FilterMapAppend(keep, f, x[1..], y);
    } else {
      assert x + y == y;
    }
  }

  lemma {:induction false} FilterMapLength<A, B>(keep: A -> bool, f: A -> B, s: seq<A>)
    ensures |FilterMap(keep, f, s)| <= |s|
    decreases |s|
  {
    if |s| > 0 {
      FilterMapLength(keep, f, s[1..]);
    }
  }

  function Shift(idx: seq<nat>): (r: seq<nat>)
    ensures |r| == |idx| && forall k :: 0 <= k < |idx| ==> r[k] == idx[k] + 1
  {
    seq(|idx|, k requires 0 <= k < |idx| => idx[k] + 1)
  }

  lemma SelectsSkip<A, B>(s: seq<A>, keep: A -> bool, f: A -> B, rest: seq<B>, idx': seq<nat>)
    requires |s| > 0 && !keep(s[0]) && Selects(s[1..], keep, f, rest, idx')
    ensures Selects(s, keep, f, rest, Shift(idx'))
  {
    var idx := Shift(idx');
    forall k | 0 <= k < |idx| ensures idx[k] < |s| && keep(s[idx[k]]) && rest[k] == f(s[idx[k]]) {
      assert s[idx[k]] == s[1..][idx'[k]];
    }
    forall i | 0 <= i < |s| && keep(s[i]) ensures i in idx {
      assert s[1..][i - 1] == s[i];
      var k :| 0 <= k < |idx'| && idx'[k] == i - 1;
      assert idx[k] == i;
    }
  }

  lemma SelectsKeep<A, B>(s: seq<A>, keep: A -> bool, f: A -> B, rest: seq<B>, idx': seq<nat>)
    requires |s| > 0 && keep(s[0]) && Selects(s[1..], keep, f, rest, idx')
    ensures Selects(s, keep, f, [f(s[0])] + rest, [0] + Shift(idx'))
  {
    KeepPicks(s, keep, f, rest, idx');
    KeepOrders(idx');
    KeepCovers(s, keep, idx');
  }

  lemma KeepPicks<A, B>(s: seq<A>, keep: A -> bool, f: A -> B, rest: seq<B>, idx': seq<nat>)
    requires |s| > 0 && keep(s[0]) && Selects(s[1..], keep, f, rest, idx')
    ensures forall k :: 0 <= k < |idx'| + 1 ==> ([0] + Shift(idx'))[k] < |s| && keep(s[([0] + Shift(idx'))[k]]) && ([f(s[0])] + rest)[k] == f(s[([0] + Shift(idx'))[k]])
  {
    var idx := [0] + Shift(idx');
    var r := [f(s[0])] + rest;
    forall k | 0 <= k < |idx| ensures idx[k] < |s| && keep(s[idx[k]]) && r[k] == f(s[idx[k]]) {
      if k > 0 {
        assert idx[k] == idx'[k - 1] + 1 && r[k] == rest[k - 1];
        assert s[idx[k]] == s[1..][idx'[k - 1]];
      }
    }
  }

  lemma KeepOrders(idx': seq<nat>)
    requires forall k, l :: 0 <= k < l < |idx'| ==> idx'[k] < idx'[l]
    ensures forall k, l :: 0 <= k < l < |idx'| + 1 ==> ([0] + Shift(idx'))[k] < ([0] + Shift(idx'))[l]
  {
    var idx := [0] + Shift(idx');
    forall k, l | 0 <= k < l < |idx| ensures idx[k] < idx[l] {
      assert idx[l] == idx'[l - 1] + 1;
      if k > 0 { assert idx[k] == idx'[k - 1] + 1; }
    }
  }

  lemma KeepCovers<A>(s: seq<A>, keep: A -> bool, idx': seq<nat>)
    requires |s| > 0
    requires forall i :: 0 <= i < |s[1..]| && keep(s[1..][i]) ==> i in idx'
    ensures forall i :: 0 <= i < |s| && keep(s[i]) ==> i in [0] + Shift(idx')
  {
    var idx := [0] + Shift(idx');
    forall i | 0 <= i < |s| && keep(s[i]) ensures i in idx {
      if i > 0 {
        assert s[1..][i - 1] == s[i];
        var k :| 0 <= k < |idx'| && idx'[k] == i - 1;
        assert idx[k + 1] == i;
      } else {
        assert idx[0] == 0;
      }
    }
  }
}
