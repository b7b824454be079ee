/**
 * `escape_like(string, escape_char='*')`: make a literal safe to embed in a
 * SQL `LIKE` pattern that is evaluated with `ESCAPE escape_char`.
 *
 * The source chains three `str.replace` calls in a fixed order: double the
 * escape character, then escape `%`, then escape `_`.  The model keeps that
 * chain (`EscapeLike`), gives an independent one-pass reference definition
 * (`EscapeEach`), and interprets the result as a `LIKE` pattern following the
 * rules of ISO/IEC 9075-2, subclause 8.5 (<like predicate>), to show that the
 * escaped pattern matches exactly the original string.
 */
module LikeEscape {
  import opened Common

  /** The default escape character of `escape_like`. */
  const DEFAULT_ESCAPE: char := '*'

  /** Python's `s.replace(c, r)` for a one-character pattern `c`: every `c` becomes `r`. */
  function Replace(s: string, c: char, r: string): (t: string)
    ensures c !in s ==> t == s
  {
    if s == [] then [] else (if s[0] == c then r else [s[0]]) + Replace(s[1..], c, r)
  }

  /** `escape_like` exactly as written: three replacements, escape character first. */
  function EscapeLike(s: string, esc: char): (r: string)
    ensures esc !in s && '%' !in s && '_' !in s ==> r == s
  {
    Replace(Replace(Replace(s, esc, [esc, esc]), '%', [esc, '%']), '_', [esc, '_'])
  }

  /** The characters that are not literal in a `LIKE` pattern with `ESCAPE esc`. */
  predicate Special(c: char, esc: char) {
    c == esc || c == '%' || c == '_'
  }

  /** Reference definition: escape each special character by prefixing `esc`. */
  function EscapeChar(c: char, esc: char): string {
    if Special(c, esc) then [esc, c] else [c]
  }

  function EscapeEach(s: string, esc: char): string {
    if s == [] then [] else EscapeChar(s[0], esc) + EscapeEach(s[1..], esc)
  }

  /** Number of occurrences of `c` in `s`. */
  function Count(s: string, c: char): (n: nat)
    ensures n == 0 <==> c !in s
    ensures n <= |s|
  {
    if s == [] then 0 else (if s[0] == c then 1 else 0) + Count(s[1..], c)
  }

  /** Replacing distributes over concatenation. */
  lemma {:induction false} ReplaceAppend(a: string, b: string, c: char, r: string)
    ensures Replace(a + b, c, r) == Replace(a, c, r) + Replace(b, c, r)
  {
    if a == [] {
      assert a + b == b;
    } else {
      assert (a + b)[0] == a[0];
      assert (a + b)[1..] == a[1..] + b;
      ReplaceAppend(a[1..], b, c, r);
    }
  }

  /** So does the whole chain, whatever the escape character. */
  lemma EscapeLikeAppend(a: string, b: string, esc: char)
    ensures EscapeLike(a + b, esc) == EscapeLike(a, esc) + EscapeLike(b, esc)
  {
    ReplaceAppend(a, b, esc, [esc, esc]);
    var a1, b1 := Replace(a, esc, [esc, esc]), Replace(b, esc, [esc, esc]);
    ReplaceAppend(a1, b1, '%', [esc, '%']);
    var a2, b2 := Replace(a1, '%', [esc, '%']), Replace(b1, '%', [esc, '%']);
    ReplaceAppend(a2, b2, '_', [esc, '_']);
  }

  lemma ReplaceSingle(x: char, c: char, r: string)
    ensures Replace([x], c, r) == if x == c then r else [x]
  {
    assert [x][1..] == [];
  }

  lemma ReplacePair(x: char, y: char, c: char, r: string)
    ensures Replace([x, y], c, r) == Replace([x], c, r) + Replace([y], c, r)
  {
    assert [x, y] == [x] + [y];
    ReplaceAppend([x], [y], c, r);
  }

  /**
   * On one character the chain escapes exactly the special characters, provided
   * the escape character is not itself a wildcard: doubling the escape character
   * first means the escape characters the later steps insert are never doubled.
   */
  lemma EscapeLikeChar(c: char, esc: char)
    requires esc != '%' && esc != '_'
    ensures EscapeLike([c], esc) == EscapeChar(c, esc)
  {
    ReplaceSingle(c, esc, [esc, esc]);
    if c == esc {
      ReplacePair(esc, esc, '%', [esc, '%']);
      ReplaceSingle(esc, '%', [esc, '%']);
      ReplacePair(esc, esc, '_', [esc, '_']);
      ReplaceSingle(esc, '_', [esc, '_']);
    } else if c == '%' {
      ReplaceSingle(c, '%', [esc, '%']);
      ReplacePair(esc, '%', '_', [esc, '_']);
      ReplaceSingle(esc, '_', [esc, '_']);
      ReplaceSingle('%', '_', [esc, '_']);
    } else {
      ReplaceSingle(c, '%', [esc, '%']);
      ReplaceSingle(c, '_', [esc, '_']);
    }
  }

  /** The chained replacements agree with the one-pass reference definition. */
  lemma {:induction false} EscapeLikeIsEscapeEach(s: string, esc: char)
    requires esc != '%' && esc != '_'
    ensures EscapeLike(s, esc) == EscapeEach(s, esc)
  {
    if s != [] {
      assert s == [s[0]] + s[1..];
      EscapeLikeAppend([s[0]], s[1..], esc);
      EscapeLikeChar(s[0], esc);
      EscapeLikeIsEscapeEach(s[1..], esc);
    }
  }

  lemma {:induction false} EscapeEachLength(s: string, esc: char)
    requires esc != '%' && esc != '_'
    ensures |EscapeEach(s, esc)| == |s| + Count(s, esc) + Count(s, '%') + Count(s, '_')
  {
    if s != [] {
      EscapeEachLength(s[1..], esc);
    }
  }

  /** Length law: every escape character, `%` and `_` gains one escape character. */
  lemma EscapeLikeLength(s: string, esc: char)
    requires esc != '%' && esc != '_'
    ensures |EscapeLike(s, esc)| == |s| + Count(s, esc) + Count(s, '%') + Count(s, '_')
  {
    EscapeLikeIsEscapeEach(s, esc);
    EscapeEachLength(s, esc);
  }

  /** The input comes back unchanged exactly when it holds no special character. */
  lemma EscapeLikeUnchangedIff(s: string, esc: char)
    requires esc != '%' && esc != '_'
    ensures EscapeLike(s, esc) == s <==> (esc !in s && '%' !in s && '_' !in s)
  {
    EscapeLikeLength(s, esc);
  }

  lemma {:induction false} EscapeEachIntroducesEscape(s: string, esc: char, i: nat)
    requires i < |s| && Special(s[i], esc)
    ensures esc in EscapeEach(s, esc)
  {
    if i > 0 {
      EscapeEachIntroducesEscape(s[1..], esc, i - 1);
      assert EscapeEach(s, esc) == EscapeChar(s[0], esc) + EscapeEach(s[1..], esc);
    } else {
      assert EscapeEach(s, esc)[0] == esc;
    }
  }

  /**
   * Escaping again changes the result exactly when the input held a special
   * character: `escape_like` is not idempotent, as expected of `LIKE` escaping.
   */
  lemma EscapeLikeIdempotentIff(s: string, esc: char)
    requires esc != '%' && esc != '_'
    ensures EscapeLike(EscapeLike(s, esc), esc) == EscapeLike(s, esc)
        <==> (esc !in s && '%' !in s && '_' !in s)
  {
    var t := EscapeLike(s, esc);
    EscapeLikeUnchangedIff(t, esc);
    if !(esc !in s && '%' !in s && '_' !in s) {
      var i :| 0 <= i < |s| && Special(s[i], esc);
      EscapeLikeIsEscapeEach(s, esc);
      EscapeEachIntroducesEscape(s, esc, i);
    }
  }

  /** The examples `"John"`, `"50%_off"` and `"a*b"`, on the reference definition. */
  lemma EscapeEachExamples()
    ensures EscapeEach("John", DEFAULT_ESCAPE) == "John"
    ensures EscapeEach("50%_off", DEFAULT_ESCAPE) == "50*%*_off"
    ensures EscapeEach("a*b", DEFAULT_ESCAPE) == "a**b"
  {
    var e := DEFAULT_ESCAPE;
    assert EscapeEach("n", e) == "n";
    assert EscapeEach("hn", e) == "hn";
    assert EscapeEach("ohn", e) == "ohn";
    assert EscapeEach("f", e) == "f";
    assert EscapeEach("ff", e) == "ff";
    assert EscapeEach("off", e) == "off";
    assert EscapeEach("_off", e) == "*_off";
    assert EscapeEach("%_off", e) == "*%*_off";
    assert EscapeEach("0%_off", e) == "0*%*_off";
    assert EscapeEach("b", e) == "b";
    assert EscapeEach("*b", e) == "**b";
  }

  /**
   * The same examples for `escape_like` itself.  The string is a parameter so
   * that the proof goes through the reference definition rather than
   * unfolding the three replacements on a literal.
   */
  lemma EscapeLikeExamples(s: string)
    ensures s == "John" ==> EscapeLike(s, DEFAULT_ESCAPE) == "John"
    ensures s == "50%_off" ==> EscapeLike(s, DEFAULT_ESCAPE) == "50*%*_off"
    ensures s == "a*b" ==> EscapeLike(s, DEFAULT_ESCAPE) == "a**b"
  {
    EscapeLikeIsEscapeEach(s, DEFAULT_ESCAPE);
    EscapeEachExamples();
  }

  // ---------------------------------------------------------------------
  // Undoing the escape

  /** Scan that undoes escaping: an escape character makes the next character literal. */
  function Unescape(t: string, esc: char): (r: Option<string>)
    ensures r.Some? ==> |r.value| <= |t|
  {
    if t == [] then Some([])
    else if t[0] == esc then
      if |t| < 2 then None
      else match Unescape(t[2..], esc)
        case None => None
        case Some(rest) => Some([t[1]] + rest)
    else
      match Unescape(t[1..], esc)
      case None => None
      case Some(rest) => Some([t[0]] + rest)
  }

  lemma {:induction false} UnescapeEscapeEach(s: string, esc: char)
    ensures Unescape(EscapeEach(s, esc), esc) == Some(s)
  {
    if s != [] {
      var t := EscapeEach(s, esc);
      var rest := EscapeEach(s[1..], esc);
      UnescapeEscapeEach(s[1..], esc);
      if Special(s[0], esc) {
        assert t == [esc, s[0]] + rest;
        assert t[2..] == rest;
      } else {
        assert t == [s[0]] + rest;
        assert t[1..] == rest;
      }
      assert s == [s[0]] + s[1..];
    }
  }

  /** Round trip: unescaping the output of `escape_like` recovers its input. */
  lemma UnescapeEscapeLike(s: string, esc: char)
    requires esc != '%' && esc != '_'
    ensures Unescape(EscapeLike(s, esc), esc) == Some(s)
  {
    EscapeLikeIsEscapeEach(s, esc);
    UnescapeEscapeEach(s, esc);
  }

  // ---------------------------------------------------------------------
  // LIKE patterns, ISO/IEC 9075-2 subclause 8.5

  /** One unit of a `LIKE` pattern. */
  datatype Token = Literal(c: char) | AnyChar | AnyString

  function Prepend(x: Token, r: Option<seq<Token>>): Option<seq<Token>> {
    match r
    case None => None
    case Some(ts) => Some([x] + ts)
  }

  /**
   * Splits a pattern evaluated with `ESCAPE esc` into tokens.  As the
   * standard demands, the escape character must be followed by the escape
   * character, `%` or `_`; any other use raises "invalid escape sequence" (None).
   */
  function ParsePattern(p: string, esc: char): (r: Option<seq<Token>>)
    ensures r.Some? ==> |r.value| <= |p|
  {
    if p == [] then Some([])
    else if p[0] == esc then
      if |p| >= 2 && Special(p[1], esc) then Prepend(Literal(p[1]), ParsePattern(p[2..], esc))
      else None
    else if p[0] == '%' then Prepend(AnyString, ParsePattern(p[1..], esc))
    else if p[0] == '_' then Prepend(AnyChar, ParsePattern(p[1..], esc))
    else Prepend(Literal(p[0]), ParsePattern(p[1..], esc))
  }

  /** Whether a token sequence matches a whole value. */
  predicate Matches(ps: seq<Token>, t: string)
    decreases |ps|
  {
    if ps == [] then t == []
    else match ps[0]
      case Literal(c) => t != [] && t[0] == c && Matches(ps[1..], t[1..])
      case AnyChar => t != [] && Matches(ps[1..], t[1..])
      case AnyString => exists k :: 0 <= k <= |t| && Matches(ps[1..], t[k..])
  }

  /** `value LIKE pattern ESCAPE esc`; None when the pattern is invalid. */
  function Like(value: string, pattern: string, esc: char): Option<bool> {
    match ParsePattern(pattern, esc)
    case None => None
    case Some(ps) => Some(Matches(ps, value))
  }

  function Literals(s: string): seq<Token> {
    if s == [] then [] else [Literal(s[0])] + Literals(s[1..])
  }

  lemma {:induction false} ParseEscapeEach(s: string, esc: char)
    ensures ParsePattern(EscapeEach(s, esc), esc) == Some(Literals(s))
  {
    if s != [] {
      var t := EscapeEach(s, esc);
      var rest := EscapeEach(s[1..], esc);
      ParseEscapeEach(s[1..], esc);
      if Special(s[0], esc) {
        assert t == [esc, s[0]] + rest;
        assert t[2..] == rest;
      } else {
        assert t == [s[0]] + rest;
        assert t[1..] == rest;
      }
    }
  }

  lemma {:induction false} MatchesLiterals(s: string, t: string)
    ensures Matches(Literals(s), t) <==> t == s
  {
    if s != [] && t != [] {
      MatchesLiterals(s[1..], t[1..]);
      if t[0] == s[0] && t[1..] == s[1..] {
        assert t == [t[0]] + t[1..];
        assert s == [s[0]] + s[1..];
      }
    }
  }

  /**
   * The point of `escape_like`: used as a `LIKE` pattern with the same
   * escape character, the escaped string is valid and matches exactly the
   * original string, never anything else.
   */
  lemma EscapeLikeMatchesOnlyItself(s: string, t: string, esc: char)
    requires esc != '%' && esc != '_'
    ensures Like(t, EscapeLike(s, esc), esc) == Some(t == s)
  {
    EscapeLikeIsEscapeEach(s, esc);
    ParseEscapeEach(s, esc);
    MatchesLiterals(s, t);
  }

  /**
   * Why the escape character must not be a wildcard: with `escape_char='%'`
   * the chain escapes `%` twice, and the pattern no longer matches its input.
   */
  lemma WildcardEscapeOverEscapes()
    ensures EscapeLike("%", '%') == "%%%%"
    ensures Like("%", EscapeLike("%", '%'), '%') == Some(false)
  {
    ReplaceSingle('%', '%', "%%");
    ReplacePair('%', '%', '%', "%%");
    ReplaceSingle('%', '%', "%%");
    assert "%%%%" == ['%', '%'] + ['%', '%'];
    ReplaceAppend(['%', '%'], ['%', '%'], '_', "%_");
    ReplacePair('%', '%', '_', "%_");
    ReplaceSingle('%', '_', "%_");
    assert "%%%%"[2..] == "%%" && "%%"[2..] == [];
    assert ParsePattern([], '%') == Some([]);
    assert [Literal('%')] + [] == [Literal('%')];
    assert ParsePattern("%%", '%') == Some([Literal('%')]);
    assert ParsePattern("%%%%", '%') == Prepend(Literal('%'), ParsePattern("%%", '%'));
    assert [Literal('%')] + [Literal('%')] == [Literal('%'), Literal('%')];
    assert ParsePattern("%%%%", '%') == Some([Literal('%'), Literal('%')]);
  }
}
