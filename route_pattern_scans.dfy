/** What each scan of the route-pattern lexer computes, as functions of the text and
    the cursor it starts at.

    Four scans (literal, parameter name, unescaped and escaped policy fragment) walk
    the text the same way: from their start they consume an escaped `{{` or `}}` as one
    step of two characters and any other character as one step, until a character
    they halt at. `Walk` is that shared loop and `Seen` records what the loop notices
    on its way (the flags the C# keeps in locals). The lemmas give both their meaning
    without the walk: the end is the FIRST position at which the scan must stop, read
    with `UnescapedFrom`, and a flag is set iff a position of the consumed span shows
    the corresponding sign. The `Scanned*` functions assemble the token the lexer
    returns; their `*Meaning` lemmas characterise it completely. */
module RoutePatternScans {
  import opened RouteText
  import opened RoutePatternTokens

  /** The four scans that pair braces as they go. */
  datatype Scanner = LiteralScan | ParameterNameScan | UnescapedPolicyScan | EscapedPolicyScan

  /** What a scan notices at its cursor without stopping there. */
  datatype Sign = UnescapedOpen | UnescapedClose | QuestionMark | NameCharacter

  // ---------------------------------------------------------------------------------
  // HasPolicyParenClose: pairs only `}}`.

  /** HasPolicyParenClose from `p`: a `)` comes before any unescaped `}`. */
  predicate ParenCloseAhead(text: string, p: nat)
    requires p <= |text|
    decreases |text| - p
  {
    if p == |text| then false
    else if text[p] == ')' then true
    else if UnescapedAt(text, p, '}') then false
    else ParenCloseAhead(text, p + PairWidth(text, p, '}'))
  }

  /** Generalisation of ParenCloseAheadMeaning to a walk that started at `s`. */
  lemma {:induction false} ParenCloseAheadFrom(text: string, s: nat, q: nat)
    requires s <= q <= |text| && AlignedFor(text, s, q, '}')
    ensures ParenCloseAhead(text, q)
        <==> exists j :: q <= j < |text| && text[j] == ')'
                          && forall i :: q <= i < j ==> !UnescapedFrom(text, s, i, '}')
    decreases |text| - q
  {
    if q == |text| {
    } else if text[q] == ')' {
      assert q <= q < |text| && text[q] == ')';
    } else if UnescapedAt(text, q, '}') {
      AlignedUnescaped(text, s, q, '}');
      forall j | q <= j < |text| && text[j] == ')'
        ensures exists i :: q <= i < j && UnescapedFrom(text, s, i, '}')
      {
        assert q < j;
      }
    } else {
      var w := PairWidth(text, q, '}');
      AlignedUnescaped(text, s, q, '}');
      StepKeepsAlignment(text, s, q, w, '}');
      if w == 2 {
        PairHalfNotUnescaped(text, s, q, '}');
      }
      ParenCloseAheadFrom(text, s, q + w);
      if ParenCloseAhead(text, q) {
        var j :| q + w <= j < |text| && text[j] == ')'
                 && forall i :: q + w <= i < j ==> !UnescapedFrom(text, s, i, '}');
        assert forall i :: q <= i < j ==> !UnescapedFrom(text, s, i, '}');
      }
      if exists j :: q <= j < |text| && text[j] == ')'
                     && forall i :: q <= i < j ==> !UnescapedFrom(text, s, i, '}') {
        var j :| q <= j < |text| && text[j] == ')'
                 && forall i :: q <= i < j ==> !UnescapedFrom(text, s, i, '}');
        assert q + w <= j;
        assert forall i :: q + w <= i < j ==> !UnescapedFrom(text, s, i, '}');
      }
    }
  }

  /** HasPolicyParenClose is true iff a `)` occurs at or after `p` and no unescaped `}`
      (read from `p`) comes before it. */
  lemma ParenCloseAheadMeaning(text: string, p: nat)
    requires p <= |text|
    ensures ParenCloseAhead(text, p)
        <==> exists j :: p <= j < |text| && text[j] == ')'
                          && forall i :: p <= i < j ==> !UnescapedFrom(text, p, i, '}')
  {
    ParenCloseAheadFrom(text, p, p);
  }

  // ---------------------------------------------------------------------------------
  // The brace-pairing walk shared by four scans.

  /** The test each scan loop makes at its cursor `p` before consuming it (`s` is where
      the scan started). */
  predicate Halts(scanner: Scanner, text: string, s: nat, p: nat)
    requires p < |text|
  {
    match scanner
    case LiteralScan =>
      text[p] == '/' || UnescapedAt(text, p, '{')
    case ParameterNameScan =>
      ((text[p] == ':' || text[p] == '=') && p != s)
      || TrailingQuestionMarkAt(text, p) || UnescapedAt(text, p, '}')
    case UnescapedPolicyScan =>
      text[p] == ':' || text[p] == '=' || text[p] == '?' || UnescapedAt(text, p, '}')
      || (text[p] == '(' && ParenCloseAhead(text, p))
    case EscapedPolicyScan =>
      UnescapedAt(text, p, '}') || text[p] == ')'
  }

  /** The same stopping rule with "unescaped" read declaratively from `s`: the scan
      must not consume position `k`. */
  predicate StopsBefore(scanner: Scanner, text: string, s: nat, k: nat) {
    k < |text| &&
    match scanner
    case LiteralScan =>
      text[k] == '/' || UnescapedFrom(text, s, k, '{')
    case ParameterNameScan =>
      ((text[k] == ':' || text[k] == '=') && k != s)
      || TrailingQuestionMarkAt(text, k) || UnescapedFrom(text, s, k, '}')
    case UnescapedPolicyScan =>
      text[k] == ':' || text[k] == '=' || text[k] == '?' || UnescapedFrom(text, s, k, '}')
      || (text[k] == '(' && ParenCloseAhead(text, k))
    case EscapedPolicyScan =>
      UnescapedFrom(text, s, k, '}') || text[k] == ')'
  }

  /** What the loop records at its cursor `p`. */
  predicate Notes(sign: Sign, text: string, p: nat)
    requires p < |text|
  {
    match sign
    case UnescapedOpen => UnescapedAt(text, p, '{')
    case UnescapedClose => UnescapedAt(text, p, '}')
    case QuestionMark => text[p] == '?'
    case NameCharacter =>
      IsInvalidNameChar(text[p]) && !(IsBrace(text[p]) && UnescapedAt(text, p, text[p]))
  }

  /** The same sign read declaratively at any position `k` of a span scanned from `s`. */
  predicate Marks(sign: Sign, text: string, s: nat, k: nat) {
    k < |text| &&
    match sign
    case UnescapedOpen => UnescapedFrom(text, s, k, '{')
    case UnescapedClose => UnescapedFrom(text, s, k, '}')
    case QuestionMark => text[k] == '?'
    case NameCharacter =>
      IsInvalidNameChar(text[k]) && !(IsBrace(text[k]) && UnescapedFrom(text, s, k, text[k]))
  }

  /** Where a scan that started at `s` and now stands at `p` ends. */
  function Walk(scanner: Scanner, text: string, s: nat, p: nat): (e: nat)
    requires p <= |text|
    ensures p <= e <= |text|
    decreases |text| - p
  {
    if p == |text| || Halts(scanner, text, s, p) then p
    else Walk(scanner, text, s, p + Width(text, p))
  }

  /** Whether the scan, from `p` to its end, records `sign`. */
  predicate Seen(scanner: Scanner, sign: Sign, text: string, s: nat, p: nat)
    requires p <= |text|
    decreases |text| - p
  {
    p < |text| && !Halts(scanner, text, s, p)
    && (Notes(sign, text, p) || Seen(scanner, sign, text, s, p + Width(text, p)))
  }

  /** One step of a scan loop that does not halt: the walk and every sign carry over. */
  lemma WalkStep(scanner: Scanner, text: string, s: nat, p: nat)
    requires p < |text| && !Halts(scanner, text, s, p)
    ensures Walk(scanner, text, s, p) == Walk(scanner, text, s, p + Width(text, p))
    ensures forall sign :: Seen(scanner, sign, text, s, p)
              == (Notes(sign, text, p) || Seen(scanner, sign, text, s, p + Width(text, p)))
  {
  }

  /** From `p` the walk reaches `q` exactly, without halting on the way and without
      noting `sign`. */
  predicate Quiet(scanner: Scanner, sign: Sign, text: string, s: nat, p: nat, q: nat)
    decreases q - p
  {
    p == q
    || (p < q <= |text| && !Halts(scanner, text, s, p) && !Notes(sign, text, p)
        && p + Width(text, p) <= q && Quiet(scanner, sign, text, s, p + Width(text, p), q))
  }

  /** Over a quiet stretch the walk's end and the sign carry over unchanged. */
  lemma {:induction false} QuietCarries(scanner: Scanner, sign: Sign, text: string, s: nat, p: nat, q: nat)
    requires p <= q <= |text| && Quiet(scanner, sign, text, s, p, q)
    ensures Walk(scanner, text, s, p) == Walk(scanner, text, s, q)
    ensures Seen(scanner, sign, text, s, p) == Seen(scanner, sign, text, s, q)
    decreases q - p
  {
    if p != q {
      WalkStep(scanner, text, s, p);
      QuietCarries(scanner, sign, text, s, p + Width(text, p), q);
    }
  }

  lemma HaltsIsStopsBefore(scanner: Scanner, text: string, s: nat, p: nat)
    requires s <= p < |text| && AlignedFrom(text, s, p)
    ensures Halts(scanner, text, s, p) == StopsBefore(scanner, text, s, p)
  {
    AlignedUnescaped(text, s, p, '{');
    AlignedUnescaped(text, s, p, '}');
  }

  /** One step of the walk from an aligned cursor: alignment is kept, and the second
      half of a pair neither stops the scan nor shows a sign the first half does not. */
  lemma StepFacts(scanner: Scanner, text: string, s: nat, p: nat)
    requires s <= p < |text| && AlignedFrom(text, s, p)
    ensures AlignedFrom(text, s, p + Width(text, p))
    ensures Width(text, p) == 2 ==> !StopsBefore(scanner, text, s, p + 1)
    ensures forall sign :: Notes(sign, text, p) == Marks(sign, text, s, p)
    ensures Width(text, p) == 2 ==> forall sign :: Marks(sign, text, s, p + 1) ==> Marks(sign, text, s, p)
  {
    var w := Width(text, p);
    StepKeepsAlignment(text, s, p, w, '{');
    StepKeepsAlignment(text, s, p, w, '}');
    AlignedUnescaped(text, s, p, '{');
    AlignedUnescaped(text, s, p, '}');
    if w == 2 {
      PairHalfNotUnescaped(text, s, p, '{');
      PairHalfNotUnescaped(text, s, p, '}');
    }
  }

  /** The walk ends at the first position the scan must stop before (or at the end of
      the text), and that position is aligned. */
  lemma {:induction false} WalkEndsAtFirstStop(scanner: Scanner, text: string, s: nat, p: nat)
    requires s <= p <= |text| && AlignedFrom(text, s, p)
    ensures AlignedFrom(text, s, Walk(scanner, text, s, p))
    ensures Walk(scanner, text, s, p) < |text| ==> StopsBefore(scanner, text, s, Walk(scanner, text, s, p))
    ensures forall k :: p <= k < Walk(scanner, text, s, p) ==> !StopsBefore(scanner, text, s, k)
    decreases |text| - p
  {
    if p < |text| {
      HaltsIsStopsBefore(scanner, text, s, p);
      if !Halts(scanner, text, s, p) {
        StepFacts(scanner, text, s, p);
        WalkEndsAtFirstStop(scanner, text, s, p + Width(text, p));
      }
    }
  }

  /** The walk records a sign iff some position it consumes shows it. */
  lemma SeenIsMarked(scanner: Scanner, sign: Sign, text: string, s: nat, p: nat)
    requires s <= p <= |text| && AlignedFrom(text, s, p)
    ensures Seen(scanner, sign, text, s, p)
        <==> exists k :: p <= k < Walk(scanner, text, s, p) && Marks(sign, text, s, k)
  {
    if Seen(scanner, sign, text, s, p) {
      SeenHasMark(scanner, sign, text, s, p);
    }
    if exists k :: p <= k < Walk(scanner, text, s, p) && Marks(sign, text, s, k) {
      var k :| p <= k < Walk(scanner, text, s, p) && Marks(sign, text, s, k);
      MarkIsSeen(scanner, sign, text, s, p, k);
    }
  }

  lemma {:induction false} SeenHasMark(scanner: Scanner, sign: Sign, text: string, s: nat, p: nat)
    requires s <= p <= |text| && AlignedFrom(text, s, p)
    requires Seen(scanner, sign, text, s, p)
    ensures exists k :: p <= k < Walk(scanner, text, s, p) && Marks(sign, text, s, k)
    decreases |text| - p
  {
    var w := Width(text, p);
    StepFacts(scanner, text, s, p);
    WalkStep(scanner, text, s, p);
    if Notes(sign, text, p) {
      assert p <= p < Walk(scanner, text, s, p) && Marks(sign, text, s, p);
    } else {
      SeenHasMark(scanner, sign, text, s, p + w);
    }
  }

  lemma {:induction false} MarkIsSeen(scanner: Scanner, sign: Sign, text: string, s: nat, p: nat, k: nat)
    requires s <= p <= |text| && AlignedFrom(text, s, p)
    requires p <= k < Walk(scanner, text, s, p) && Marks(sign, text, s, k)
    ensures Seen(scanner, sign, text, s, p)
    decreases |text| - p
  {
    var w := Width(text, p);
    StepFacts(scanner, text, s, p);
    WalkStep(scanner, text, s, p);
    if k >= p + w {
      MarkIsSeen(scanner, sign, text, s, p + w, k);
    } else if k == p + 1 {
      assert Marks(sign, text, s, p);
    }
  }

  // ---------------------------------------------------------------------------------
  // The tokens the scans return.

  /** TryScanLiteral started at `s`. */
  function ScannedLiteral(text: string, s: nat): Option<Token>
    requires s <= |text|
  {
    var e := Walk(LiteralScan, text, s, s);
    if e == s then None
    else
      var plain := Token(Literal, s, e, Some(text[s..e]), None);
      var checked :=
        if Seen(LiteralScan, UnescapedClose, text, s, s)
        then plain.AddDiagnosticIfNone(MismatchedParameter) else plain;
      Some(if Seen(LiteralScan, QuestionMark, text, s, s)
           then checked.AddDiagnosticIfNone(InvalidLiteral(text[s..e])) else checked)
  }

  /** TryScanParameterName started at `s`. */
  function ScannedParameterName(text: string, s: nat): Option<Token>
    requires s <= |text|
  {
    var e := Walk(ParameterNameScan, text, s, s);
    if e == s then None
    else
      var plain := Token(ParameterNameToken, s, e, Some(text[s..e]), None);
      var checked :=
        if Seen(ParameterNameScan, UnescapedOpen, text, s, s)
        then plain.AddDiagnosticIfNone(UnescapedBrace) else plain;
      Some(if Seen(ParameterNameScan, NameCharacter, text, s, s)
           then checked.AddDiagnosticIfNone(InvalidParameterName(QuotedParameterName(text[s..e])))
           else checked)
  }

  /** TryScanUnescapedPolicyFragment started at `s`. */
  function ScannedUnescapedPolicyFragment(text: string, s: nat): Option<Token>
    requires s <= |text|
  {
    var e := Walk(UnescapedPolicyScan, text, s, s);
    if e == s then None
    else
      var plain := Token(PolicyFragmentToken, s, e, Some(text[s..e]), None);
      Some(if Seen(UnescapedPolicyScan, UnescapedOpen, text, s, s)
           then plain.AddDiagnosticIfNone(UnescapedBrace) else plain)
  }

  /** TryScanEscapedPolicyFragment started at `s`: nothing when the parameter's closing
      `}` comes first. There is no zero-length check, so a `)` at `s` gives an empty token. */
  function ScannedEscapedPolicyFragment(text: string, s: nat): Option<Token>
    requires s <= |text|
  {
    var e := Walk(EscapedPolicyScan, text, s, s);
    if s == |text| || (e < |text| && text[e] == '}') then None
    else
      var plain := Token(PolicyFragmentToken, s, e, Some(text[s..e]), None);
      Some(if Seen(EscapedPolicyScan, UnescapedOpen, text, s, s)
           then plain.AddDiagnosticIfNone(UnescapedBrace) else plain)
  }

  /** Where TryScanDefaultValue, standing at `p`, stops: it pairs nothing. */
  function DefaultValueEnd(text: string, p: nat): (e: nat)
    requires p <= |text|
    ensures p <= e <= |text|
    decreases |text| - p
  {
    if p == |text| || text[p] == '}' || TrailingQuestionMarkAt(text, p) then p
    else DefaultValueEnd(text, p + 1)
  }

  /** TryScanDefaultValue started at `s`. */
  function ScannedDefaultValue(text: string, s: nat): Option<Token>
    requires s <= |text|
  {
    var e := DefaultValueEnd(text, s);
    if e == s then None else Some(Token(DefaultValueToken, s, e, Some(text[s..e]), None))
  }

  // ---------------------------------------------------------------------------------
  // What the tokens are.

  /** A literal runs from `s` up to the first `/` or unescaped `{`; it never contains
      either. It is flagged MismatchedParameter if it contains an unescaped `}`, else
      InvalidLiteral if it contains a `?`. */
  lemma ScannedLiteralMeaning(text: string, s: nat)
    requires s <= |text|
    ensures ScannedLiteral(text, s).None?
        <==> s == |text| || text[s] == '/' || UnescapedFrom(text, s, s, '{')
    ensures ScannedLiteral(text, s).Some? ==>
      var t := ScannedLiteral(text, s).value;
      t.kind == Literal && t.start == s < t.end <= |text| && t.value == Some(text[s..t.end])
      && (forall k :: s <= k < t.end ==> text[k] != '/' && !UnescapedFrom(text, s, k, '{'))
      && (t.end < |text| ==> text[t.end] == '/' || UnescapedFrom(text, s, t.end, '{'))
      && t.diagnostic ==
           if exists k :: s <= k < t.end && UnescapedFrom(text, s, k, '}') then Some(MismatchedParameter)
           else if exists k :: s <= k < t.end && text[k] == '?' then Some(InvalidLiteral(text[s..t.end]))
           else None
  {
    var e := Walk(LiteralScan, text, s, s);
    WalkEndsAtFirstStop(LiteralScan, text, s, s);
    SeenIsMarked(LiteralScan, UnescapedClose, text, s, s);
    assert forall k: nat :: Marks(UnescapedClose, text, s, k) <==> UnescapedFrom(text, s, k, '}');
    SeenIsMarked(LiteralScan, QuestionMark, text, s, s);
    assert forall k: nat :: Marks(QuestionMark, text, s, k) <==> k < |text| && text[k] == '?';
    forall k | s <= k < e ensures text[k] != '/' && !UnescapedFrom(text, s, k, '{') {
      assert !StopsBefore(LiteralScan, text, s, k);
    }
  }

  /** A parameter name runs from `s` up to the first `:` or `=` after its first
      character, trailing optional `?`, or unescaped `}`. It is flagged UnescapedBrace if
      it contains an unescaped `{`, else InvalidParameterName if it contains a `/`, `?`,
      `*` or a brace of an escaped pair. */
  lemma ScannedParameterNameMeaning(text: string, s: nat)
    requires s <= |text|
    ensures ScannedParameterName(text, s).None?
        <==> s == |text| || TrailingQuestionMarkAt(text, s) || UnescapedFrom(text, s, s, '}')
    ensures ScannedParameterName(text, s).Some? ==>
      var t := ScannedParameterName(text, s).value;
      t.kind == ParameterNameToken && t.start == s < t.end <= |text|
      && t.value == Some(text[s..t.end])
      && (forall k :: s < k < t.end ==> text[k] != ':' && text[k] != '=')
      && (forall k :: s <= k < t.end ==>
            !TrailingQuestionMarkAt(text, k) && !UnescapedFrom(text, s, k, '}'))
      && (t.end < |text| ==>
            text[t.end] == ':' || text[t.end] == '='
            || TrailingQuestionMarkAt(text, t.end) || UnescapedFrom(text, s, t.end, '}'))
      && t.diagnostic ==
           if exists k :: s <= k < t.end && UnescapedFrom(text, s, k, '{') then Some(UnescapedBrace)
           else if exists k :: s <= k < t.end && Marks(NameCharacter, text, s, k)
           then Some(InvalidParameterName(QuotedParameterName(text[s..t.end])))
           else None
  {
    var e := Walk(ParameterNameScan, text, s, s);
    WalkEndsAtFirstStop(ParameterNameScan, text, s, s);
    SeenIsMarked(ParameterNameScan, UnescapedOpen, text, s, s);
    assert forall k: nat :: Marks(UnescapedOpen, text, s, k) <==> UnescapedFrom(text, s, k, '{');
    SeenIsMarked(ParameterNameScan, NameCharacter, text, s, s);
    forall k | s <= k < e
      ensures (k != s ==> text[k] != ':' && text[k] != '=')
      ensures !TrailingQuestionMarkAt(text, k) && !UnescapedFrom(text, s, k, '}')
    {
      assert !StopsBefore(ParameterNameScan, text, s, k);
    }
  }

  /** An unescaped policy fragment runs from `s` up to the first `:`, `=`, `?`,
      unescaped `}`, or `(` that opens an argument list closed before the parameter
      ends. It is flagged UnescapedBrace iff it contains an unescaped `{`. */
  lemma ScannedUnescapedPolicyFragmentMeaning(text: string, s: nat)
    requires s <= |text|
    ensures ScannedUnescapedPolicyFragment(text, s).None?
        <==> s == |text| || StopsBefore(UnescapedPolicyScan, text, s, s)
    ensures ScannedUnescapedPolicyFragment(text, s).Some? ==>
      var t := ScannedUnescapedPolicyFragment(text, s).value;
      t.kind == PolicyFragmentToken && t.start == s < t.end <= |text|
      && t.value == Some(text[s..t.end])
      && (forall k :: s <= k < t.end ==>
            text[k] != ':' && text[k] != '=' && text[k] != '?'
            && !UnescapedFrom(text, s, k, '}') && !(text[k] == '(' && ParenCloseAhead(text, k)))
      && (t.end < |text| ==>
            text[t.end] == ':' || text[t.end] == '=' || text[t.end] == '?'
            || UnescapedFrom(text, s, t.end, '}')
            || (text[t.end] == '(' && ParenCloseAhead(text, t.end)))
      && (t.diagnostic == Some(UnescapedBrace) <==>
            exists k :: s <= k < t.end && UnescapedFrom(text, s, k, '{'))
      && (t.diagnostic.None? || t.diagnostic == Some(UnescapedBrace))
  {
    var e := Walk(UnescapedPolicyScan, text, s, s);
    WalkEndsAtFirstStop(UnescapedPolicyScan, text, s, s);
    SeenIsMarked(UnescapedPolicyScan, UnescapedOpen, text, s, s);
    assert forall k: nat :: Marks(UnescapedOpen, text, s, k) <==> UnescapedFrom(text, s, k, '{');
    forall k | s <= k < e
      ensures text[k] != ':' && text[k] != '=' && text[k] != '?'
      ensures !UnescapedFrom(text, s, k, '}') && !(text[k] == '(' && ParenCloseAhead(text, k))
    {
      assert !StopsBefore(UnescapedPolicyScan, text, s, k);
    }
  }

  /** The escaped fragment gives nothing (the caller's cursor is left at `s`) iff an
      unescaped `}` comes before any `)`. Otherwise it runs up to the first `)` or the end
      of the text, and is flagged UnescapedBrace iff it contains an unescaped `{`. */
  lemma ScannedEscapedPolicyFragmentMeaning(text: string, s: nat)
    requires s <= |text|
    ensures ScannedEscapedPolicyFragment(text, s).None?
        <==> s == |text|
             || exists k :: s <= k < |text| && UnescapedFrom(text, s, k, '}')
                            && forall i :: s <= i < k ==> text[i] != ')'
    ensures ScannedEscapedPolicyFragment(text, s).Some? ==>
      var t := ScannedEscapedPolicyFragment(text, s).value;
      t.kind == PolicyFragmentToken && t.start == s <= t.end <= |text|
      && t.value == Some(text[s..t.end])
      && (t.start == t.end <==> text[s] == ')')
      && (forall k :: s <= k < t.end ==> text[k] != ')' && !UnescapedFrom(text, s, k, '}'))
      && (t.end == |text| || text[t.end] == ')')
      && (t.diagnostic == Some(UnescapedBrace) <==>
            exists k :: s <= k < t.end && UnescapedFrom(text, s, k, '{'))
      && (t.diagnostic.None? || t.diagnostic == Some(UnescapedBrace))
  {
    var e := Walk(EscapedPolicyScan, text, s, s);
    WalkEndsAtFirstStop(EscapedPolicyScan, text, s, s);
    SeenIsMarked(EscapedPolicyScan, UnescapedOpen, text, s, s);
    assert forall k: nat :: Marks(UnescapedOpen, text, s, k) <==> UnescapedFrom(text, s, k, '{');
    forall k | s <= k < e ensures text[k] != ')' && !UnescapedFrom(text, s, k, '}') {
      assert !StopsBefore(EscapedPolicyScan, text, s, k);
    }
    if s < |text| {
      if e < |text| && text[e] == '}' {
        assert s <= e < |text| && UnescapedFrom(text, s, e, '}');
      } else {
        forall k | s <= k < |text| && UnescapedFrom(text, s, k, '}')
          ensures exists i :: s <= i < k && text[i] == ')'
        {
          assert StopsBefore(EscapedPolicyScan, text, s, k);
          assert e < |text| && text[e] == ')';
          assert e != k;
        }
      }
    }
  }

  /** A default value runs from `s` up to the first `}` (escaped or not) or trailing
      optional `?`, accepts every other character and carries no diagnostic. */
  lemma {:induction false} ScannedDefaultValueMeaning(text: string, s: nat)
    requires s <= |text|
    ensures ScannedDefaultValue(text, s).None?
        <==> s == |text| || text[s] == '}' || TrailingQuestionMarkAt(text, s)
    ensures ScannedDefaultValue(text, s).Some? ==>
      var t := ScannedDefaultValue(text, s).value;
      t.kind == DefaultValueToken && t.start == s < t.end <= |text|
      && t.value == Some(text[s..t.end]) && t.diagnostic.None?
      && (forall k :: s <= k < t.end ==> text[k] != '}' && !TrailingQuestionMarkAt(text, k))
      && (t.end < |text| ==> text[t.end] == '}' || TrailingQuestionMarkAt(text, t.end))
  {
    DefaultValueStops(text, s);
  }

  lemma {:induction false} DefaultValueStops(text: string, p: nat)
    requires p <= |text|
    ensures forall k :: p <= k < DefaultValueEnd(text, p) ==> text[k] != '}' && !TrailingQuestionMarkAt(text, k)
    ensures DefaultValueEnd(text, p) < |text| ==>
              text[DefaultValueEnd(text, p)] == '}' || TrailingQuestionMarkAt(text, DefaultValueEnd(text, p))
    decreases |text| - p
  {
    if p < |text| && text[p] != '}' && !TrailingQuestionMarkAt(text, p) {
      DefaultValueStops(text, p + 1);
    }
  }
}
