/** Worked examples: the tokens the scans produce on templates taken from the parser
    tests. A predicate spells each template out character by character; a walk lemma
    steps the scan over it; the example itself states the token on the template. */
module RoutePatternExamples {
  import opened RouteText
  import opened RoutePatternTokens
  import opened RoutePatternScans

  // ---------------------------------------------------------------------------------
  // `{id?}}}`

  /** The template `{id?}}}`. */
  predicate SpellsIdQuestionClose(t: string) {
    |t| == 7 &&
    t[0] == '{' && t[1] == 'i' && t[2] == 'd' && t[3] == '?' && t[4] == '}' && t[5] == '}' &&
    t[6] == '}'
  }

  lemma IdQuestionCloseWalk(t: string)
    requires SpellsIdQuestionClose(t)
    ensures Walk(ParameterNameScan, t, 1, 1) == 6
    ensures !Seen(ParameterNameScan, UnescapedOpen, t, 1, 1)
    ensures Seen(ParameterNameScan, NameCharacter, t, 1, 1)
  {
    WalkStep(ParameterNameScan, t, 1, 1);
    WalkStep(ParameterNameScan, t, 1, 2);
    WalkStep(ParameterNameScan, t, 1, 3);
    WalkStep(ParameterNameScan, t, 1, 4);
    assert Halts(ParameterNameScan, t, 1, 6);
  }

  /** The name `id?}}` is quoted as `id?}`. */
  lemma QuotedIdQuestion()
    ensures QuotedParameterName("id?}}") == "id?}"
  {
    assert Collapse("id?}}", '{') == "id?}}";
  }

  lemma QuestionMarkBeforeEscapedCloseOn(t: string)
    requires SpellsIdQuestionClose(t)
    ensures ScannedParameterName(t, 1)
            == Some(Token(ParameterNameToken, 1, 6, Some("id?}}"), Some(InvalidParameterName("id?}"))))
  {
    IdQuestionCloseWalk(t);
    var name := t[1..6];
    assert name == "id?}}";
    QuotedIdQuestion();
    assert QuotedParameterName(name) == "id?}";
  }

  /** `{id?}}}`: the `?` is not trailing because `}}` follows it, so the name runs over
      the escaped pair and stops at the last `}`. `?` and `}` are invalid in a name, and
      the message quotes the name with `}}` collapsed. */
  lemma QuestionMarkBeforeEscapedClose()
    ensures ScannedParameterName("{id?}}}", 1)
            == Some(Token(ParameterNameToken, 1, 6, Some("id?}}"), Some(InvalidParameterName("id?}"))))
  {
    var t := "{id?}}}";
    assert SpellsIdQuestionClose(t);
    QuestionMarkBeforeEscapedCloseOn(t);
  }

  // ---------------------------------------------------------------------------------
  // `{id=Home?}`

  /** The template `{id=Home?}`. */
  predicate SpellsDefaultOptional(t: string) {
    |t| == 10 &&
    t[0] == '{' && t[1] == 'i' && t[2] == 'd' && t[3] == '=' && t[4] == 'H' && t[5] == 'o' &&
    t[6] == 'm' && t[7] == 'e' && t[8] == '?' && t[9] == '}'
  }

  lemma DefaultOptionalWalk(t: string)
    requires SpellsDefaultOptional(t)
    ensures Walk(ParameterNameScan, t, 1, 1) == 3
    ensures !Seen(ParameterNameScan, UnescapedOpen, t, 1, 1)
    ensures !Seen(ParameterNameScan, NameCharacter, t, 1, 1)
    ensures DefaultValueEnd(t, 4) == 8
  {
    WalkStep(ParameterNameScan, t, 1, 1);
    WalkStep(ParameterNameScan, t, 1, 2);
    assert Halts(ParameterNameScan, t, 1, 3);
    assert TrailingQuestionMarkAt(t, 8);
    assert DefaultValueEnd(t, 7) == DefaultValueEnd(t, 8);
    assert DefaultValueEnd(t, 5) == DefaultValueEnd(t, 6) == DefaultValueEnd(t, 7);
  }

  lemma DefaultValueAndOptionalOn(t: string)
    requires SpellsDefaultOptional(t)
    ensures ScannedParameterName(t, 1)
            == Some(Token(ParameterNameToken, 1, 3, Some("id"), None))
    ensures ScannedDefaultValue(t, 4)
            == Some(Token(DefaultValueToken, 4, 8, Some("Home"), None))
  {
    DefaultOptionalWalk(t);
    assert t[1..3] == "id" && t[4..8] == "Home";
  }

  /** `{id=Home?}`: the name stops at `=`, and the default value stops at the `?` that
      makes the parameter optional. */
  lemma DefaultValueAndOptional()
    ensures ScannedParameterName("{id=Home?}", 1)
            == Some(Token(ParameterNameToken, 1, 3, Some("id"), None))
    ensures ScannedDefaultValue("{id=Home?}", 4)
            == Some(Token(DefaultValueToken, 4, 8, Some("Home"), None))
  {
    var t := "{id=Home?}";
    assert SpellsDefaultOptional(t);
    DefaultValueAndOptionalOn(t);
  }

  // ---------------------------------------------------------------------------------
  // `{:hi}` and `{**:hi}`

  /** The template `{:hi}`. */
  predicate SpellsColonStart(t: string) {
    |t| == 5 &&
    t[0] == '{' && t[1] == ':' && t[2] == 'h' && t[3] == 'i' && t[4] == '}'
  }

  lemma ColonStartWalk(t: string)
    requires SpellsColonStart(t)
    ensures Walk(ParameterNameScan, t, 1, 1) == 4
    ensures !Seen(ParameterNameScan, UnescapedOpen, t, 1, 1)
    ensures !Seen(ParameterNameScan, NameCharacter, t, 1, 1)
  {
    WalkStep(ParameterNameScan, t, 1, 1);
    WalkStep(ParameterNameScan, t, 1, 2);
    WalkStep(ParameterNameScan, t, 1, 3);
    assert Halts(ParameterNameScan, t, 1, 4);
  }

  lemma ColonStartsNameOn(t: string)
    requires SpellsColonStart(t)
    ensures ScannedParameterName(t, 1)
            == Some(Token(ParameterNameToken, 1, 4, Some(":hi"), None))
  {
    ColonStartWalk(t);
    assert t[1..4] == ":hi";
  }

  /** `{:hi}`: a `:` at the start of a name belongs to the name. */
  lemma ColonStartsName()
    ensures ScannedParameterName("{:hi}", 1)
            == Some(Token(ParameterNameToken, 1, 4, Some(":hi"), None))
  {
    var t := "{:hi}";
    assert SpellsColonStart(t);
    ColonStartsNameOn(t);
  }

  /** The template `{**:hi}`. */
  predicate SpellsCatchAllColonStart(t: string) {
    |t| == 7 &&
    t[0] == '{' && t[1] == '*' && t[2] == '*' && t[3] == ':' && t[4] == 'h' && t[5] == 'i' &&
    t[6] == '}'
  }

  lemma CatchAllColonStartWalk(t: string)
    requires SpellsCatchAllColonStart(t)
    ensures Walk(ParameterNameScan, t, 3, 3) == 6
    ensures !Seen(ParameterNameScan, UnescapedOpen, t, 3, 3)
    ensures !Seen(ParameterNameScan, NameCharacter, t, 3, 3)
  {
    WalkStep(ParameterNameScan, t, 3, 3);
    WalkStep(ParameterNameScan, t, 3, 4);
    WalkStep(ParameterNameScan, t, 3, 5);
    assert Halts(ParameterNameScan, t, 3, 6);
  }

  lemma CatchAllColonStartsNameOn(t: string)
    requires SpellsCatchAllColonStart(t)
    ensures ScannedParameterName(t, 3)
            == Some(Token(ParameterNameToken, 3, 6, Some(":hi"), None))
  {
    CatchAllColonStartWalk(t);
    assert t[3..6] == ":hi";
  }

  /** `{**:hi}`: the same after a catch-all `**`. */
  lemma CatchAllColonStartsName()
    ensures ScannedParameterName("{**:hi}", 3)
            == Some(Token(ParameterNameToken, 3, 6, Some(":hi"), None))
  {
    var t := "{**:hi}";
    assert SpellsCatchAllColonStart(t);
    CatchAllColonStartsNameOn(t);
  }

  // ---------------------------------------------------------------------------------
  // `a{foob{bar}c`

  /** The template `a{foob{bar}c`. */
  predicate SpellsUnbalanced(t: string) {
    |t| == 12 &&
    t[0] == 'a' && t[1] == '{' && t[2] == 'f' && t[3] == 'o' && t[4] == 'o' && t[5] == 'b' &&
    t[6] == '{' && t[7] == 'b' && t[8] == 'a' && t[9] == 'r' && t[10] == '}' && t[11] == 'c'
  }

  lemma UnbalancedWalk(t: string)
    requires SpellsUnbalanced(t)
    ensures Walk(LiteralScan, t, 0, 0) == 1
    ensures !Seen(LiteralScan, UnescapedClose, t, 0, 0) && !Seen(LiteralScan, QuestionMark, t, 0, 0)
  {
    WalkStep(LiteralScan, t, 0, 0);
    assert Halts(LiteralScan, t, 0, 1);
  }

  lemma LiteralBeforeParameterOn(t: string)
    requires SpellsUnbalanced(t)
    ensures ScannedLiteral(t, 0)
            == Some(Token(Literal, 0, 1, Some("a"), None))
  {
    UnbalancedWalk(t);
    assert t[0..1] == "a";
  }

  /** `a{foob{bar}c`: a literal stops at the first unescaped `{`. */
  lemma LiteralBeforeParameter()
    ensures ScannedLiteral("a{foob{bar}c", 0)
            == Some(Token(Literal, 0, 1, Some("a"), None))
  {
    var t := "a{foob{bar}c";
    assert SpellsUnbalanced(t);
    LiteralBeforeParameterOn(t);
  }

  // ---------------------------------------------------------------------------------
  // `{ssn:regex(^\d{{3}}-\d{{2}}-\d{{4}}$)}` and `{ssn:regex(^\d{{3}}-\d{{2}}-\d{{4}`

  /** The 33 characters `{ssn:regex(^\d{{3}}-\d{{2}}-\d{{4` the two templates share,
      followed by at least one more. */
  predicate SpellsSsnPrefix(t: string) {
    |t| >= 34 &&
    t[0] == '{' && t[1] == 's' && t[2] == 's' && t[3] == 'n' && t[4] == ':' && t[5] == 'r' &&
    t[6] == 'e' && t[7] == 'g' && t[8] == 'e' && t[9] == 'x' && t[10] == '(' && t[11] == '^' &&
    t[12] == '\\' && t[13] == 'd' && t[14] == '{' && t[15] == '{' && t[16] == '3' && t[17] == '}' &&
    t[18] == '}' && t[19] == '-' && t[20] == '\\' && t[21] == 'd' && t[22] == '{' && t[23] == '{' &&
    t[24] == '2' && t[25] == '}' && t[26] == '}' && t[27] == '-' && t[28] == '\\' && t[29] == 'd' &&
    t[30] == '{' && t[31] == '{' && t[32] == '4'
  }

  /** The template `{ssn:regex(^\d{{3}}-\d{{2}}-\d{{4}}$)}` (the test's C# source doubles the `\`). */
  const Ssn: string := "{ssn:" + "regex(" + "^\\d{{3}}" + "-\\d{{2}}" + "-\\d{{4}}" + "$)}"

  /** The same template cut short after `{{4}`. */
  const SsnIncomplete: string := "{ssn:" + "regex(" + "^\\d{{3}}" + "-\\d{{2}}" + "-\\d{{4}"

  /** `Ssn`, character by character. */
  predicate SpellsSsn(t: string) {
    SpellsSsnPrefix(t) && |t| == 38 &&
    t[33] == '}' && t[34] == '}' && t[35] == '$' && t[36] == ')' && t[37] == '}'
  }

  /** `SsnIncomplete`, whose argument list is never closed, character by character. */
  predicate SpellsSsnIncomplete(t: string) {
    SpellsSsnPrefix(t) && |t| == 34 && t[33] == '}'
  }

  /** Looking for `)` from the `(` of the shared prefix: nothing decides before position 33. */
  lemma SsnParenSearch(t: string)
    requires SpellsSsnPrefix(t)
    ensures ParenCloseAhead(t, 10) == ParenCloseAhead(t, 33)
  {
    assert ParenCloseAhead(t, 32) == ParenCloseAhead(t, 33);
    assert ParenCloseAhead(t, 31) == ParenCloseAhead(t, 32);
    assert ParenCloseAhead(t, 30) == ParenCloseAhead(t, 31);
    assert ParenCloseAhead(t, 29) == ParenCloseAhead(t, 30);
    assert ParenCloseAhead(t, 28) == ParenCloseAhead(t, 29);
    assert ParenCloseAhead(t, 27) == ParenCloseAhead(t, 28);
    assert ParenCloseAhead(t, 25) == ParenCloseAhead(t, 27);
    assert ParenCloseAhead(t, 24) == ParenCloseAhead(t, 25);
    assert ParenCloseAhead(t, 23) == ParenCloseAhead(t, 24);
    assert ParenCloseAhead(t, 22) == ParenCloseAhead(t, 23);
    assert ParenCloseAhead(t, 21) == ParenCloseAhead(t, 22);
    assert ParenCloseAhead(t, 20) == ParenCloseAhead(t, 21);
    assert ParenCloseAhead(t, 19) == ParenCloseAhead(t, 20);
    assert ParenCloseAhead(t, 17) == ParenCloseAhead(t, 19);
    assert ParenCloseAhead(t, 16) == ParenCloseAhead(t, 17);
    assert ParenCloseAhead(t, 15) == ParenCloseAhead(t, 16);
    assert ParenCloseAhead(t, 14) == ParenCloseAhead(t, 15);
    assert ParenCloseAhead(t, 13) == ParenCloseAhead(t, 14);
    assert ParenCloseAhead(t, 12) == ParenCloseAhead(t, 13);
    assert ParenCloseAhead(t, 11) == ParenCloseAhead(t, 12);
    assert ParenCloseAhead(t, 10) == ParenCloseAhead(t, 11);
  }

  lemma SsnParenClosed(t: string)
    requires SpellsSsn(t)
    ensures ParenCloseAhead(t, 10)
  {
    SsnParenSearch(t);
    assert ParenCloseAhead(t, 36);
    assert ParenCloseAhead(t, 35);
    assert ParenCloseAhead(t, 33);
  }

  lemma SsnIncompleteParenOpen(t: string)
    requires SpellsSsnIncomplete(t)
    ensures !ParenCloseAhead(t, 10)
  {
    SsnParenSearch(t);
    assert !ParenCloseAhead(t, 33);
  }

  lemma SsnNameWalk(t: string)
    requires SpellsSsnPrefix(t)
    ensures Walk(ParameterNameScan, t, 1, 1) == 4
    ensures !Seen(ParameterNameScan, UnescapedOpen, t, 1, 1)
    ensures !Seen(ParameterNameScan, NameCharacter, t, 1, 1)
  {
    WalkStep(ParameterNameScan, t, 1, 1);
    WalkStep(ParameterNameScan, t, 1, 2);
    WalkStep(ParameterNameScan, t, 1, 3);
    assert Halts(ParameterNameScan, t, 1, 4);
  }

  lemma SsnPolicyWalk(t: string)
    requires SpellsSsn(t)
    ensures Walk(UnescapedPolicyScan, t, 5, 5) == 10
    ensures !Seen(UnescapedPolicyScan, UnescapedOpen, t, 5, 5)
  {
    WalkStep(UnescapedPolicyScan, t, 5, 5);
    WalkStep(UnescapedPolicyScan, t, 5, 6);
    WalkStep(UnescapedPolicyScan, t, 5, 7);
    WalkStep(UnescapedPolicyScan, t, 5, 8);
    WalkStep(UnescapedPolicyScan, t, 5, 9);
    SsnParenClosed(t);
    assert Halts(UnescapedPolicyScan, t, 5, 10);
  }

  /** The argument scan over the shared prefix consumes every escaped pair and stops nowhere. */
  lemma SsnArgumentQuiet(t: string)
    requires SpellsSsnPrefix(t)
    ensures Quiet(EscapedPolicyScan, UnescapedOpen, t, 11, 11, 33)
  {
    assert Quiet(EscapedPolicyScan, UnescapedOpen, t, 11, 32, 33);
    assert Quiet(EscapedPolicyScan, UnescapedOpen, t, 11, 30, 33);
    assert Quiet(EscapedPolicyScan, UnescapedOpen, t, 11, 29, 33);
    assert Quiet(EscapedPolicyScan, UnescapedOpen, t, 11, 28, 33);
    assert Quiet(EscapedPolicyScan, UnescapedOpen, t, 11, 27, 33);
    assert Quiet(EscapedPolicyScan, UnescapedOpen, t, 11, 25, 33);
    assert Quiet(EscapedPolicyScan, UnescapedOpen, t, 11, 24, 33);
    assert Quiet(EscapedPolicyScan, UnescapedOpen, t, 11, 22, 33);
    assert Quiet(EscapedPolicyScan, UnescapedOpen, t, 11, 21, 33);
    assert Quiet(EscapedPolicyScan, UnescapedOpen, t, 11, 20, 33);
    assert Quiet(EscapedPolicyScan, UnescapedOpen, t, 11, 19, 33);
    assert Quiet(EscapedPolicyScan, UnescapedOpen, t, 11, 17, 33);
    assert Quiet(EscapedPolicyScan, UnescapedOpen, t, 11, 16, 33);
    assert Quiet(EscapedPolicyScan, UnescapedOpen, t, 11, 14, 33);
    assert Quiet(EscapedPolicyScan, UnescapedOpen, t, 11, 13, 33);
    assert Quiet(EscapedPolicyScan, UnescapedOpen, t, 11, 12, 33);
    assert Quiet(EscapedPolicyScan, UnescapedOpen, t, 11, 11, 33);
  }

  lemma SsnArgumentWalk(t: string)
    requires SpellsSsn(t)
    ensures Walk(EscapedPolicyScan, t, 11, 11) == 36
    ensures !Seen(EscapedPolicyScan, UnescapedOpen, t, 11, 11)
  {
    SsnArgumentQuiet(t);
    QuietCarries(EscapedPolicyScan, UnescapedOpen, t, 11, 11, 33);
    WalkStep(EscapedPolicyScan, t, 11, 33);
    WalkStep(EscapedPolicyScan, t, 11, 35);
    assert Halts(EscapedPolicyScan, t, 11, 36);
  }

  lemma SsnIncompleteArgumentWalk(t: string)
    requires SpellsSsnIncomplete(t)
    ensures Walk(EscapedPolicyScan, t, 11, 11) == 33
  {
    SsnArgumentQuiet(t);
    QuietCarries(EscapedPolicyScan, UnescapedOpen, t, 11, 11, 33);
    assert Halts(EscapedPolicyScan, t, 11, 33);
  }

  lemma SsnIncompletePolicyHead(t: string)
    requires SpellsSsnIncomplete(t)
    ensures Walk(UnescapedPolicyScan, t, 5, 5) == Walk(UnescapedPolicyScan, t, 5, 11)
    ensures Seen(UnescapedPolicyScan, UnescapedOpen, t, 5, 5) == Seen(UnescapedPolicyScan, UnescapedOpen, t, 5, 11)
  {
    SsnIncompleteParenOpen(t);
    WalkStep(UnescapedPolicyScan, t, 5, 5);
    WalkStep(UnescapedPolicyScan, t, 5, 6);
    WalkStep(UnescapedPolicyScan, t, 5, 7);
    WalkStep(UnescapedPolicyScan, t, 5, 8);
    WalkStep(UnescapedPolicyScan, t, 5, 9);
    WalkStep(UnescapedPolicyScan, t, 5, 10);
  }

  /** Past the `(`, the policy scan of the incomplete template stops nowhere before position 33. */
  lemma SsnIncompletePolicyQuiet(t: string)
    requires SpellsSsnPrefix(t)
    ensures Quiet(UnescapedPolicyScan, UnescapedOpen, t, 5, 11, 33)
  {
    assert Quiet(UnescapedPolicyScan, UnescapedOpen, t, 5, 32, 33);
    assert Quiet(UnescapedPolicyScan, UnescapedOpen, t, 5, 30, 33);
    assert Quiet(UnescapedPolicyScan, UnescapedOpen, t, 5, 29, 33);
    assert Quiet(UnescapedPolicyScan, UnescapedOpen, t, 5, 28, 33);
    assert Quiet(UnescapedPolicyScan, UnescapedOpen, t, 5, 27, 33);
    assert Quiet(UnescapedPolicyScan, UnescapedOpen, t, 5, 25, 33);
    assert Quiet(UnescapedPolicyScan, UnescapedOpen, t, 5, 24, 33);
    assert Quiet(UnescapedPolicyScan, UnescapedOpen, t, 5, 22, 33);
    assert Quiet(UnescapedPolicyScan, UnescapedOpen, t, 5, 21, 33);
    assert Quiet(UnescapedPolicyScan, UnescapedOpen, t, 5, 20, 33);
    assert Quiet(UnescapedPolicyScan, UnescapedOpen, t, 5, 19, 33);
    assert Quiet(UnescapedPolicyScan, UnescapedOpen, t, 5, 17, 33);
    assert Quiet(UnescapedPolicyScan, UnescapedOpen, t, 5, 16, 33);
    assert Quiet(UnescapedPolicyScan, UnescapedOpen, t, 5, 14, 33);
    assert Quiet(UnescapedPolicyScan, UnescapedOpen, t, 5, 13, 33);
    assert Quiet(UnescapedPolicyScan, UnescapedOpen, t, 5, 12, 33);
    assert Quiet(UnescapedPolicyScan, UnescapedOpen, t, 5, 11, 33);
  }

  lemma SsnIncompletePolicyWalk(t: string)
    requires SpellsSsnIncomplete(t)
    ensures Walk(UnescapedPolicyScan, t, 5, 5) == 33
    ensures !Seen(UnescapedPolicyScan, UnescapedOpen, t, 5, 5)
  {
    SsnIncompletePolicyHead(t);
    SsnIncompletePolicyQuiet(t);
    QuietCarries(UnescapedPolicyScan, UnescapedOpen, t, 5, 11, 33);
    assert Halts(UnescapedPolicyScan, t, 5, 33);
  }

  lemma EscapedPolicyArgumentOn(t: string)
    requires SpellsSsn(t)
    ensures ScannedParameterName(t, 1)
            == Some(Token(ParameterNameToken, 1, 4, Some("ssn"), None))
    ensures ScannedUnescapedPolicyFragment(t, 5)
            == Some(Token(PolicyFragmentToken, 5, 10, Some("regex"), None))
    ensures ScannedEscapedPolicyFragment(t, 11)
            == Some(Token(PolicyFragmentToken, 11, 36, Some("^\\d{{3}}-\\d{{2}}-\\d{{4}}$"), None))
  {
    SsnNameWalk(t);
    SsnPolicyWalk(t);
    SsnArgumentWalk(t);
    assert t[1..4] == "ssn" && t[5..10] == "regex";
    assert t[11..36] == "^\\d{{3}}-\\d{{2}}-\\d{{4}}$";
  }

  /** `{ssn:regex(^\d{{3}}-\d{{2}}-\d{{4}}$)}`: the name stops at `:`; the policy name
      stops at a `(` whose `)` comes before the parameter ends; the argument runs over the
      escaped braces up to that `)` and keeps them doubled. */
  lemma EscapedPolicyArgument()
    ensures ScannedParameterName(Ssn, 1)
            == Some(Token(ParameterNameToken, 1, 4, Some("ssn"), None))
    ensures ScannedUnescapedPolicyFragment(Ssn, 5)
            == Some(Token(PolicyFragmentToken, 5, 10, Some("regex"), None))
    ensures ScannedEscapedPolicyFragment(Ssn, 11)
            == Some(Token(PolicyFragmentToken, 11, 36, Some("^\\d{{3}}-\\d{{2}}-\\d{{4}}$"), None))
  {
    var t := Ssn;
    assert SpellsSsnPrefix(t);
    assert SpellsSsn(t);
    EscapedPolicyArgumentOn(t);
  }

  lemma EscapedPolicyArgumentIncompleteOn(t: string)
    requires SpellsSsnIncomplete(t)
    ensures ScannedEscapedPolicyFragment(t, 11) == None
    ensures ScannedUnescapedPolicyFragment(t, 5)
            == Some(Token(PolicyFragmentToken, 5, 33, Some("regex(^\\d{{3}}-\\d{{2}}-\\d{{4"), None))
  {
    SsnIncompleteArgumentWalk(t);
    SsnIncompletePolicyWalk(t);
    assert t[5..33] == "regex(^\\d{{3}}-\\d{{2}}-\\d{{4";
  }

  /** `{ssn:regex(^\d{{3}}-\d{{2}}-\d{{4}`: the parameter ends at the last `}` before any
      `)`, so there is no escaped argument, and the policy takes the `(` and everything up
      to that `}`. */
  lemma EscapedPolicyArgumentIncomplete()
    ensures ScannedEscapedPolicyFragment(SsnIncomplete, 11) == None
    ensures ScannedUnescapedPolicyFragment(SsnIncomplete, 5)
            == Some(Token(PolicyFragmentToken, 5, 33, Some("regex(^\\d{{3}}-\\d{{2}}-\\d{{4"), None))
  {
    var t := SsnIncomplete;
    assert SpellsSsnPrefix(t);
    assert SpellsSsnIncomplete(t);
    EscapedPolicyArgumentIncompleteOn(t);
  }
}
