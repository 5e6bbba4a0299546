/** The route-pattern lexer: a template text and a cursor that its scan operations
    move. Each scan starts at `position`, consumes characters under its own stopping
    rule and may return a token covering [start, position); its contract ties the
    token and the new cursor to the corresponding `Scanned*` function, whose meaning
    lemmas say what the token is. */
module Lexer {
  import opened RouteText
  import opened RoutePatternTokens
  import opened RoutePatternScans

  class RoutePatternLexer {
    const text: string
    var position: nat

    ghost predicate Valid()
      reads this
    {
      position <= |text|
    }

    constructor (text: string)
      ensures this.text == text && position == 0 && Valid()
    {
      this.text := text;
      position := 0;
    }

    /** One character as a token of its own kind, or EndOfFile (empty, cursor kept) at
        the end of the text. */
    method ScanNextToken() returns (token: Token)
      requires Valid()
      modifies this
      ensures Valid()
      ensures old(position) == |text| ==>
                position == old(position) && token == Token(EndOfFile, position, position, None, None)
      ensures old(position) < |text| ==>
                position == old(position) + 1
                && token == Token(GetKind(text[old(position)]), old(position), position, None, None)
    {
      if position == |text| {
        return Token(EndOfFile, position, position, None, None);
      }
      var ch := text[position];
      position := position + 1;
      token := Token(GetKind(ch), position - 1, position, None, None);
    }

    /** Whether `val` occurs at `pos`, compared character by character. */
    method TextAt(pos: nat, val: string) returns (r: bool)
      ensures r == Matches(text, pos, val)
    {
      for i := 0 to |val|
        invariant MatchesPrefix(text, pos, val, i)
      {
        if pos + i >= |text| || text[pos + i] != val[i] {
          assert !Matches(text, pos, val) by {
            if Matches(text, pos, val) {
              MatchedCharacter(text, pos, val, i);
            }
          }
          return false;
        }
      }
      return true;
    }

    /** Whether `val` occurs at the cursor. */
    method IsAt(val: string) returns (r: bool)
      requires Valid()
      ensures r <==> position + |val| <= |text| && text[position..position + |val|] == val
    {
      r := TextAt(position, val);
      MatchesIsSliceEquality(text, position, val);
    }

    /** IsUnescapedChar(ref pos, c): `unescaped` is the answer and `next` the updated
        `pos`, moved onto the second character of an escaped pair. */
    method IsUnescapedChar(pos: nat, c: char) returns (unescaped: bool, next: nat)
      requires pos < |text|
      ensures text[pos] != c ==> !unescaped && next == pos
      ensures text[pos] == c && (pos + 1 == |text| || text[pos + 1] != c) ==> unescaped && next == pos
      ensures text[pos] == c && pos + 1 < |text| && text[pos + 1] == c ==> !unescaped && next == pos + 1
      ensures unescaped == UnescapedAt(text, pos, c) && next + 1 == pos + PairWidth(text, pos, c)
    {
      if text[pos] != c {
        return false, pos;
      }
      if pos + 1 >= |text| || text[pos + 1] != c {
        return true, pos;
      }
      return false, pos + 1;
    }

    /** `ch` (the character at the cursor) is a `?` followed by `}` but not by `}}`. */
    method IsTrailingQuestionMark(ch: char) returns (r: bool)
      requires Valid()
      ensures r <==> ch == '?' && position + 1 < |text| && text[position] == '?'
                     && text[position + 1] == '}'
                     && (position + 2 == |text| || text[position + 2] != '}')
      ensures r <==> ch == '?' && TrailingQuestionMarkAt(text, position)
    {
      if ch != '?' {
        return false;
      }
      var closes := IsAt("?}");
      var escapedClose := IsAt("?}}");
      r := closes && !escapedClose;
      if position < |text| {
        MatchesIsSliceEquality(text, position, "?}");
        MatchesIsSliceEquality(text, position, "?}}");
        TrailingQuestionMarkByMatches(text, position);
      }
    }

    /** Whether a `)` comes before the parameter's closing `}`; the cursor is not moved. */
    method HasPolicyParenClose() returns (r: bool)
      requires Valid()
      ensures r == ParenCloseAhead(text, position)
      ensures r <==> (exists j :: position <= j < |text| && text[j] == ')'
                                   && forall i :: position <= i < j ==> !UnescapedFrom(text, position, i, '}'))
    {
      ParenCloseAheadMeaning(text, position);
      if position == |text| {
        return false;
      }
      var current := position;
      while current < |text|
        invariant position <= current <= |text|
        invariant ParenCloseAhead(text, current) == ParenCloseAhead(text, position)
        decreases |text| - current
      {
        var ch := text[current];
        if ch == ')' {
          return true;
        }
        var unescaped, next := IsUnescapedChar(current, '}');
        if unescaped {
          return false;
        }
        current := next + 1;
      }
      return false;
    }

    method TryScanLiteral() returns (token: Option<Token>)
      requires Valid()
      modifies this
      ensures Valid()
      ensures token == ScannedLiteral(text, old(position))
      ensures position == if token.Some? then token.value.end else old(position)
    {
      if position == |text| {
        return None;
      }
      var start := position;
      var mismatch, questionMark := false, false;
      while position < |text|
        invariant start <= position <= |text|
        invariant Walk(LiteralScan, text, start, position) == Walk(LiteralScan, text, start, start)
        invariant Seen(LiteralScan, UnescapedClose, text, start, start)
                  == (mismatch || Seen(LiteralScan, UnescapedClose, text, start, position))
        invariant Seen(LiteralScan, QuestionMark, text, start, start)
                  == (questionMark || Seen(LiteralScan, QuestionMark, text, start, position))
        decreases |text| - position
      {
        ghost var here := position;
        var ch := text[position];
        if ch == '/' {
          break;
        }
        if ch == '{' {
          var unescaped, next := IsUnescapedChar(position, '{');
          if unescaped {
            break;
          }
          position := next;
        } else if ch == '}' {
          var unescaped, next := IsUnescapedChar(position, '}');
          if unescaped {
            mismatch := true;
          }
          position := next;
        } else if ch == '?' {
          questionMark := true;
        }
        position := position + 1;
        assert !Halts(LiteralScan, text, start, here) && position == here + Width(text, here);
        WalkStep(LiteralScan, text, start, here);
      }
      if position == start {
        return None;
      }
      var t := Token(Literal, start, position, Some(text[start..position]), None);
      if mismatch {
        t := t.AddDiagnosticIfNone(MismatchedParameter);
      }
      if questionMark {
        t := t.AddDiagnosticIfNone(InvalidLiteral(text[start..position]));
      }
      return Some(t);
    }

    method TryScanParameterName() returns (token: Option<Token>)
      requires Valid()
      modifies this
      ensures Valid()
      ensures token == ScannedParameterName(text, old(position))
      ensures position == if token.Some? then token.value.end else old(position)
    {
      if position == |text| {
        return None;
      }
      var start := position;
      var hasInvalidChar, hasUnescapedOpenBrace := false, false;
      while position < |text|
        invariant start <= position <= |text|
        invariant Walk(ParameterNameScan, text, start, position)
                  == Walk(ParameterNameScan, text, start, start)
        invariant Seen(ParameterNameScan, UnescapedOpen, text, start, start)
                  == (hasUnescapedOpenBrace || Seen(ParameterNameScan, UnescapedOpen, text, start, position))
        invariant Seen(ParameterNameScan, NameCharacter, text, start, start)
                  == (hasInvalidChar || Seen(ParameterNameScan, NameCharacter, text, start, position))
        decreases |text| - position
      {
        ghost var here := position;
        var stop, openBrace, invalidChar := ParameterNameCharacter(start);
        if stop {
          break;
        }
        if openBrace {
          hasUnescapedOpenBrace := true;
        } else if invalidChar {
          hasInvalidChar := true;
        }
        position := position + 1;
        WalkStep(ParameterNameScan, text, start, here);
      }
      assert position == Walk(ParameterNameScan, text, start, start);
      assert hasUnescapedOpenBrace == Seen(ParameterNameScan, UnescapedOpen, text, start, start);
      assert hasInvalidChar == Seen(ParameterNameScan, NameCharacter, text, start, start);
      if position == start {
        return None;
      }
      var t := Token(ParameterNameToken, start, position, Some(text[start..position]), None);
      if hasUnescapedOpenBrace {
        t := t.AddDiagnosticIfNone(UnescapedBrace);
      }
      if hasInvalidChar {
        t := t.AddDiagnosticIfNone(InvalidParameterName(QuotedParameterName(text[start..position])));
      }
      return Some(t);
    }

    /** The tests TryScanParameterName's loop makes at the cursor: whether the name ends
        before it, and otherwise whether it is an unescaped `{` or, failing that, a
        character a name may not hold. An escaped pair leaves the cursor on its second character. */
    method ParameterNameCharacter(start: nat) returns (stop: bool, openBrace: bool, invalidChar: bool)
      requires Valid() && start <= position < |text|
      modifies this
      ensures Valid()
      ensures stop == Halts(ParameterNameScan, text, start, old(position))
      ensures stop ==> position == old(position)
      ensures !stop ==> position + 1 == old(position) + Width(text, old(position))
      ensures !stop ==> openBrace == Notes(UnescapedOpen, text, old(position))
      ensures !stop ==> invalidChar == Notes(NameCharacter, text, old(position))
    {
      var ch := text[position];
      if (ch == ':' || ch == '=') && start != position {
        // A leading `:` or `=` belongs to the name (legacy behaviour kept on purpose).
        return true, false, false;
      }
      var trailing := IsTrailingQuestionMark(ch);
      if trailing {
        return true, false, false;
      }
      openBrace := false;
      if ch == '}' {
        var unescaped, next := IsUnescapedChar(position, '}');
        if unescaped {
          return true, false, false;
        }
        position := next;
      } else if ch == '{' {
        var unescaped, next := IsUnescapedChar(position, '{');
        openBrace := unescaped;
        position := next;
      }
      stop, invalidChar := false, !openBrace && IsInvalidNameChar(ch);
    }

    /** The tests TryScanUnescapedPolicyFragment's loop makes at the cursor: whether the
        fragment ends before it, and otherwise whether it is an unescaped `{`. An
        escaped pair leaves the cursor on its second character. */
    method PolicyFragmentCharacter(start: nat) returns (stop: bool, openBrace: bool)
      requires Valid() && start <= position < |text|
      modifies this
      ensures Valid()
      ensures stop == Halts(UnescapedPolicyScan, text, start, old(position))
      ensures stop ==> position == old(position)
      ensures !stop ==> position + 1 == old(position) + Width(text, old(position))
      ensures !stop ==> openBrace == Notes(UnescapedOpen, text, old(position))
    {
      var ch := text[position];
      if ch == ':' || ch == '=' || ch == '?' {
        return true, false;
      }
      openBrace := false;
      if ch == '{' {
        var unescaped, next := IsUnescapedChar(position, '{');
        openBrace := unescaped;
        position := next;
      }
      if !openBrace {
        var unescaped, next := IsUnescapedChar(position, '}');
        if unescaped {
          return true, false;
        }
        position := next;
      }
      // An argument list starts here only if it is closed before the parameter ends.
      if ch == '(' {
        var close := HasPolicyParenClose();
        if close {
          return true, false;
        }
      }
      stop := false;
    }

    method TryScanUnescapedPolicyFragment() returns (token: Option<Token>)
      requires Valid()
      modifies this
      ensures Valid()
      ensures token == ScannedUnescapedPolicyFragment(text, old(position))
      ensures position == if token.Some? then token.value.end else old(position)
    {
      if position == |text| {
        return None;
      }
      var start := position;
      var hasUnescapedOpenBrace := false;
      while position < |text|
        invariant start <= position <= |text|
        invariant Walk(UnescapedPolicyScan, text, start, position)
                  == Walk(UnescapedPolicyScan, text, start, start)
        invariant Seen(UnescapedPolicyScan, UnescapedOpen, text, start, start)
                  == (hasUnescapedOpenBrace || Seen(UnescapedPolicyScan, UnescapedOpen, text, start, position))
        decreases |text| - position
      {
        ghost var here := position;
        var stop, openBrace := PolicyFragmentCharacter(start);
        if stop {
          break;
        }
        if openBrace {
          hasUnescapedOpenBrace := true;
        }
        position := position + 1;
        WalkStep(UnescapedPolicyScan, text, start, here);
      }
      if position == start {
        return None;
      }
      var t := Token(PolicyFragmentToken, start, position, Some(text[start..position]), None);
      if hasUnescapedOpenBrace {
        t := t.AddDiagnosticIfNone(UnescapedBrace);
      }
      return Some(t);
    }

    /** The one scan that can move the cursor back: to its start, when the parameter
        ends before the argument list does. */
    method TryScanEscapedPolicyFragment() returns (token: Option<Token>)
      requires Valid()
      modifies this
      ensures Valid()
      ensures token == ScannedEscapedPolicyFragment(text, old(position))
      ensures position == if token.Some? then token.value.end else old(position)
    {
      if position == |text| {
        return None;
      }
      var start := position;
      var parameterEndedWithoutCloseParen, hasUnescapedOpenBrace := false, false;
      while position < |text|
        invariant start <= position <= |text|
        invariant Walk(EscapedPolicyScan, text, start, position)
                  == Walk(EscapedPolicyScan, text, start, start)
        invariant Seen(EscapedPolicyScan, UnescapedOpen, text, start, start)
                  == (hasUnescapedOpenBrace || Seen(EscapedPolicyScan, UnescapedOpen, text, start, position))
        invariant !parameterEndedWithoutCloseParen
        decreases |text| - position
      {
        ghost var here := position;
        var ch := text[position];
        var unescapedClose, next := IsUnescapedChar(position, '}');
        if unescapedClose {
          parameterEndedWithoutCloseParen := true;
          break;
        }
        position := next;
        if ch == '{' {
          var unescapedOpen, afterOpen := IsUnescapedChar(position, '{');
          if unescapedOpen {
            hasUnescapedOpenBrace := true;
          }
          position := afterOpen;
        } else if ch == ')' {
          break;
        }
        position := position + 1;
        WalkStep(EscapedPolicyScan, text, start, here);
      }
      if parameterEndedWithoutCloseParen {
        position := start;
        return None;
      }
      var t := Token(PolicyFragmentToken, start, position, Some(text[start..position]), None);
      if hasUnescapedOpenBrace {
        t := t.AddDiagnosticIfNone(UnescapedBrace);
      }
      return Some(t);
    }

    method TryScanDefaultValue() returns (token: Option<Token>)
      requires Valid()
      modifies this
      ensures Valid()
      ensures token == ScannedDefaultValue(text, old(position))
      ensures position == if token.Some? then token.value.end else old(position)
    {
      if position == |text| {
        return None;
      }
      var start := position;
      while position < |text|
        invariant start <= position <= |text|
        invariant DefaultValueEnd(text, position) == DefaultValueEnd(text, start)
        decreases |text| - position
      {
        var ch := text[position];
        if ch == '}' {
          break;
        }
        var trailing := IsTrailingQuestionMark(ch);
        if trailing {
          break;
        }
        position := position + 1;
      }
      if position == start {
        return None;
      }
      return Some(Token(DefaultValueToken, start, position, Some(text[start..position]), None));
    }
  }
}
