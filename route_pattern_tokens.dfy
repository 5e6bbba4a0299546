/** Tokens produced by the route-pattern lexer: their kinds, the diagnostics a token
    may carry, and the classification of single characters. */
module RoutePatternTokens {

  datatype Option<T> = None | Some(value: T)

  /** The token kinds of the route-pattern language that the lexer produces. */
  datatype Kind =
    | SlashToken | TildeToken | OpenBraceToken | CloseBraceToken
    | OpenBracketToken | CloseBracketToken | DotToken | EqualsToken | ColonToken
    | AsteriskToken | OpenParenToken | CloseParenToken | QuestionMarkToken | CommaToken
    | TextToken | Literal | ParameterNameToken | PolicyFragmentToken | DefaultValueToken
    | EndOfFile

  /** A diagnostic, by message template; the localized text is not modelled, only the
      argument the lexer formats into it. Each diagnostic spans its whole token. */
  datatype Diagnostic =
    | MismatchedParameter
    | InvalidLiteral(literal: string)
    | UnescapedBrace
    | InvalidParameterName(name: string)

  /** A token covers the text positions [start, end). Scan tokens carry the raw text of
      that span as their value; single-character tokens carry none. */
  datatype Token = Token(kind: Kind, start: nat, end: nat, value: Option<string>,
                         diagnostic: Option<Diagnostic>)
  {
    /** A token keeps the first diagnostic attached to it: `d` is attached only when
        there is none yet, and nothing else about the token changes. */
    function AddDiagnosticIfNone(d: Diagnostic): (r: Token)
      ensures r.kind == kind && r.start == start && r.end == end && r.value == value
      ensures r.diagnostic == if diagnostic.Some? then diagnostic else Some(d)
    {
      if diagnostic.None? then this.(diagnostic := Some(d)) else this
    }
  }

  /** Of two diagnostics attached in turn, the first one stays. */
  lemma FirstDiagnosticWins(t: Token, first: Diagnostic, second: Diagnostic)
    requires t.diagnostic.None?
    ensures t.AddDiagnosticIfNone(first).AddDiagnosticIfNone(second).diagnostic == Some(first)
    ensures t.AddDiagnosticIfNone(first).AddDiagnosticIfNone(second) == t.AddDiagnosticIfNone(first)
  {
  }

  /** The characters that have a token kind of their own. */
  const Punctuators: string := "/~{}[].=:*()?,"

  /** The character a single-character kind stands for. */
  function PunctuatorOf(k: Kind): Option<char> {
    match k
    case SlashToken => Some('/')
    case TildeToken => Some('~')
    case OpenBraceToken => Some('{')
    case CloseBraceToken => Some('}')
    case OpenBracketToken => Some('[')
    case CloseBracketToken => Some(']')
    case DotToken => Some('.')
    case EqualsToken => Some('=')
    case ColonToken => Some(':')
    case AsteriskToken => Some('*')
    case OpenParenToken => Some('(')
    case CloseParenToken => Some(')')
    case QuestionMarkToken => Some('?')
    case CommaToken => Some(',')
    case _ => None
  }

  /** Classifies one character: each punctuator gets the kind that stands for exactly
      that character, everything else is text. */
  function GetKind(ch: char): (k: Kind)
    ensures ch in Punctuators ==> PunctuatorOf(k) == Some(ch)
    ensures ch !in Punctuators <==> k == TextToken
  {
    match ch
    case '/' => SlashToken
    case '~' => TildeToken
    case '{' => OpenBraceToken
    case '}' => CloseBraceToken
    case '[' => OpenBracketToken
    case ']' => CloseBracketToken
    case '.' => DotToken
    case '=' => EqualsToken
    case ':' => ColonToken
    case '*' => AsteriskToken
    case '(' => OpenParenToken
    case ')' => CloseParenToken
    case '?' => QuestionMarkToken
    case ',' => CommaToken
    case _ => TextToken
  }

  /** `s.Replace(cc, c)` as C# performs it: the text is read left to right and each
      doubled `c` found, without overlap, becomes one `c`. Only `c`s are dropped, and a
      text without a `c` is returned as it is. */
  function Collapse(s: string, c: char): (r: string)
    ensures |r| <= |s|
    ensures forall d :: d != c ==> multiset(r)[d] == multiset(s)[d]
    ensures c !in s ==> r == s
  {
    if |s| < 2 then s
    else if s[0] == c && s[1] == c then
      assert s == [c, c] + s[2..];
      [c] + Collapse(s[2..], c)
    else
      assert s == [s[0]] + s[1..];
      [s[0]] + Collapse(s[1..], c)
  }

  /** How a template author writes `s` with every `c` escaped by doubling. */
  function Escape(s: string, c: char): string {
    if s == [] then []
    else (if s[0] == c then [c, c] else [s[0]]) + Escape(s[1..], c)
  }

  /** Collapsing undoes escaping. */
  lemma {:induction false} CollapseUndoesEscape(s: string, c: char)
    ensures Collapse(Escape(s, c), c) == s
  {
    if s != [] {
      var rest := Escape(s[1..], c);
      CollapseUndoesEscape(s[1..], c);
      if s[0] == c {
        assert Escape(s, c) == [c, c] + rest;
        assert ([c, c] + rest)[2..] == rest;
      } else {
        assert Escape(s, c) == [s[0]] + rest;
        if |rest| > 0 {
          assert ([s[0]] + rest)[1..] == rest;
        } else {
          assert Escape(s[1..], c) == [];
          assert s[1..] == Collapse(rest, c) == [];
        }
      }
      assert s == [s[0]] + s[1..];
    }
  }

  /** Escaping one brace and then the other gives the same text in either order. */
  lemma {:induction false} EscapesCommute(s: string, c: char, d: char)
    requires c != d
    ensures Escape(Escape(s, c), d) == Escape(Escape(s, d), c)
  {
    if s != [] {
      EscapesCommute(s[1..], c, d);
      var head := if s[0] == c then [c, c] else [s[0]];
      EscapePrefix(head, Escape(s[1..], c), d);
      var head' := if s[0] == d then [d, d] else [s[0]];
      EscapePrefix(head', Escape(s[1..], d), c);
    }
  }

  /** Escaping works character by character, so it distributes over concatenation. */
  lemma {:induction false} EscapePrefix(a: string, b: string, c: char)
    ensures Escape(a + b, c) == Escape(a, c) + Escape(b, c)
  {
    if a == [] {
      assert a + b == b;
    } else {
      var head := if a[0] == c then [c, c] else [a[0]];
      EscapePrefix(a[1..], b, c);
      assert (a + b)[0] == a[0] && (a + b)[1..] == a[1..] + b;
      calc {
        Escape(a + b, c);
        head + Escape(a[1..] + b, c);
        head + (Escape(a[1..], c) + Escape(b, c));
        (head + Escape(a[1..], c)) + Escape(b, c);
      }
    }
  }

  /** The parameter name quoted in an InvalidParameterName message: the raw name with
      `{{` and then `}}` collapsed. Only braces are dropped. */
  function QuotedParameterName(raw: string): (r: string)
    ensures |r| <= |raw|
    ensures forall d :: d != '{' && d != '}' ==> multiset(r)[d] == multiset(raw)[d]
  {
    Collapse(Collapse(raw, '{'), '}')
  }

  /** A name whose braces were all escaped is quoted as it was before escaping. */
  lemma QuotedParameterNameUndoesEscape(name: string)
    ensures QuotedParameterName(Escape(Escape(name, '{'), '}')) == name
  {
    EscapesCommute(name, '{', '}');
    CollapseUndoesEscape(Escape(name, '}'), '{');
    CollapseUndoesEscape(name, '}');
  }
}
