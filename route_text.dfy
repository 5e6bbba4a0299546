/** Character-level vocabulary of route-template text shared by every scan of the
    route-pattern lexer: the comparison behind `TextAt`, the `{{`/`}}` escaping
    convention and the lookahead for a trailing optional `?`.

    The lexer decides "is this brace escaped?" locally (IsUnescapedChar looks at one
    following character) while walking left to right and consuming an escaped pair
    as a unit. `UnescapedFrom` states the same notion without the walk: read from a
    scan's start `s`, the brace at `k` is unescaped exactly when it closes a run of
    that brace of odd length. The alignment lemmas below connect the two. */
module RouteText {

  predicate IsBrace(c: char) { c == '{' || c == '}' }

  /** The characters the lexer refuses inside a parameter name. */
  const InvalidParameterNameChars: string := "/{}?*"

  /** The test TryScanParameterName applies to each character it consumes: it refuses
      exactly the listed characters. */
  predicate IsInvalidNameChar(c: char): (r: bool)
    ensures r <==> c in InvalidParameterNameChars
  {
    assert InvalidParameterNameChars == ['/', '{', '}', '?', '*'];
    c == '/' || c == '{' || c == '}' || c == '?' || c == '*'
  }

  /** The first `n` characters of `val` line up with those of `text` from `pos`. */
  predicate MatchesPrefix(text: string, pos: nat, val: string, n: nat)
    requires n <= |val|
  {
    forall j :: 0 <= j < n ==> pos + j < |text| && text[pos + j] == val[j]
  }

  /** `val` occurs in `text` at `pos`: every character of `val` lines up with one of
      `text` (an empty `val` occurs everywhere). */
  predicate Matches(text: string, pos: nat, val: string) {
    MatchesPrefix(text, pos, val, |val|)
  }

  /** For a position inside the text, `Matches` is a slice comparison. */
  lemma MatchesIsSliceEquality(text: string, pos: nat, val: string)
    requires pos <= |text|
    ensures Matches(text, pos, val) <==> pos + |val| <= |text| && text[pos..pos + |val|] == val
  {
    if Matches(text, pos, val) && |val| > 0 {
      MatchedCharacter(text, pos, val, |val| - 1);
      var slice := text[pos..pos + |val|];
      forall j | 0 <= j < |val| ensures slice[j] == val[j] {
        MatchedCharacter(text, pos, val, j);
      }
      assert slice == val;
    }
    if pos + |val| <= |text| && text[pos..pos + |val|] == val {
      forall j | 0 <= j < |val| ensures pos + j < |text| && text[pos + j] == val[j] {
        assert text[pos..pos + |val|][j] == text[pos + j];
      }
    }
  }

  /** The answer IsUnescapedChar gives at `i`: `c` stands there and the next character,
      if any, is not another `c`. */
  predicate UnescapedAt(text: string, i: nat, c: char)
    requires i < |text|
  {
    text[i] == c && (i + 1 == |text| || text[i + 1] != c)
  }

  /** Characters a scan that collapses doubled `c` consumes at `i`: 2 across `cc`, else 1. */
  function PairWidth(text: string, i: nat, c: char): (w: nat)
    requires i < |text|
    ensures 1 <= w <= 2 && i + w <= |text|
    ensures w == 2 <==> text[i] == c && i + 1 < |text| && text[i + 1] == c
  {
    if text[i] == c && i + 1 < |text| && text[i + 1] == c then 2 else 1
  }

  /** Characters a scan that collapses both `{{` and `}}` consumes at `i`. */
  function Width(text: string, i: nat): (w: nat)
    requires i < |text|
    ensures 1 <= w <= 2 && i + w <= |text|
    ensures w == 2 <==> IsBrace(text[i]) && i + 1 < |text| && text[i + 1] == text[i]
  {
    if IsBrace(text[i]) then PairWidth(text, i, text[i]) else 1
  }

  /** Number of consecutive `c` ending at index `k`, counting no further back than `s`. */
  function RunLength(text: string, s: nat, k: int, c: char): nat
    decreases k - s + 1
  {
    if k < s || k >= |text| || text[k] != c then 0 else 1 + RunLength(text, s, k - 1, c)
  }

  /** Read from `s` on, the `c` at `k` is unescaped: it closes a run of `c` of odd
      length, so pairing the run as `cc` leaves this one over. */
  predicate UnescapedFrom(text: string, s: nat, k: nat, c: char) {
    s <= k < |text| && text[k] == c && (k + 1 == |text| || text[k + 1] != c)
    && RunLength(text, s, k, c) % 2 == 1
  }

  /** A scan that started at `s` and pairs `c` can stand at `k`: `k` is not the
      second half of a `cc` pair. */
  predicate AlignedFor(text: string, s: nat, k: nat, c: char) {
    k < |text| && text[k] == c ==> RunLength(text, s, k - 1, c) % 2 == 0
  }

  predicate AlignedFrom(text: string, s: nat, k: nat) {
    AlignedFor(text, s, k, '{') && AlignedFor(text, s, k, '}')
  }

  /** One step of a scan keeps its cursor aligned for `c`: across a `cc` pair when it
      stands on `c`, and one character, or a pair of some other character, otherwise. */
  lemma StepKeepsAlignment(text: string, s: nat, p: nat, w: nat, c: char)
    requires s <= p && p + w <= |text| && (w == 1 || w == 2)
    requires AlignedFor(text, s, p, c)
    requires text[p] == c ==> w == PairWidth(text, p, c)
    requires w == 2 ==> text[p + 1] == text[p]
    ensures AlignedFor(text, s, p + w, c)
  {
    var q := p + w;
    if q < |text| && text[q] == c {
      if text[p] == c {
        assert w == 2;
        assert RunLength(text, s, p + 1, c) == 1 + RunLength(text, s, p, c);
        assert RunLength(text, s, p, c) == 1 + RunLength(text, s, p - 1, c);
      } else {
        assert text[q - 1] != c;
      }
    }
  }

  /** At an aligned cursor the local test of IsUnescapedChar is the declarative one. */
  lemma AlignedUnescaped(text: string, s: nat, p: nat, c: char)
    requires s <= p < |text| && AlignedFor(text, s, p, c)
    ensures UnescapedAt(text, p, c) <==> UnescapedFrom(text, s, p, c)
  {
    if text[p] == c {
      assert RunLength(text, s, p, c) == 1 + RunLength(text, s, p - 1, c);
    }
  }

  /** The second half of an escaped pair is never an unescaped character. */
  lemma PairHalfNotUnescaped(text: string, s: nat, p: nat, d: char)
    requires s <= p && p + 1 < |text| && text[p + 1] == text[p]
    requires AlignedFor(text, s, p, text[p])
    ensures !UnescapedFrom(text, s, p + 1, d)
  {
    if text[p + 1] == d {
      assert RunLength(text, s, p + 1, d) == 1 + RunLength(text, s, p, d);
      assert RunLength(text, s, p, d) == 1 + RunLength(text, s, p - 1, d);
    }
  }

  /** A `?` that marks its parameter optional: it is followed by `}` but not by `}}`
      (which would be an escaped brace). */
  predicate TrailingQuestionMarkAt(text: string, p: nat) {
    p + 1 < |text| && text[p] == '?' && text[p + 1] == '}'
    && (p + 2 == |text| || text[p + 2] != '}')
  }

  /** The lexer's form of the test, `IsAt("?}") && !IsAt("?}}")`, says the same. */
  lemma TrailingQuestionMarkByMatches(text: string, p: nat)
    requires p < |text|
    ensures TrailingQuestionMarkAt(text, p)
        <==> text[p] == '?' && Matches(text, p, "?}") && !Matches(text, p, "?}}")
  {
    var short, long := "?}", "?}}";
    if Matches(text, p, short) {
      MatchedCharacter(text, p, short, 1);
    }
    if Matches(text, p, long) {
      MatchedCharacter(text, p, long, 2);
    }
    if p + 1 < |text| && text[p] == '?' && text[p + 1] == '}' {
      assert forall j :: 0 <= j < |short| ==> p + j < |text| && text[p + j] == short[j];
      if p + 2 < |text| && text[p + 2] == '}' {
        assert forall j :: 0 <= j < |long| ==> p + j < |text| && text[p + j] == long[j];
      }
    }
  }

  lemma MatchedCharacter(text: string, pos: nat, val: string, j: nat)
    requires Matches(text, pos, val) && j < |val|
    ensures pos + j < |text| && text[pos + j] == val[j]
  {
  }
}
