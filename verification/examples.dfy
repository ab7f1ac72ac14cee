/** The unit tests of `add`, stated as lemmas about the model. */
module CalculatorExamples {
  import opened Text
  import opened Calculator
  import opened CalculatorProperties

  /** A decimal rendering holds only digits and a leading minus sign, and
      ends with a digit. */
  lemma ShowIntChars(n: int)
    ensures forall c :: c in ShowInt(n) ==> c == '-' || IsDigit(c)
    ensures IsDigit(ShowInt(n)[|ShowInt(n)| - 1])
  {
    var s := ShowInt(n);
    if n < 0 {
      var t := ShowNat(-n);
      assert s == "-" + t;
      assert s[|s| - 1] == t[|t| - 1];
      forall c | c in s
        ensures c == '-' || IsDigit(c)
      {
        if c != '-' {
          assert c in t;
        }
      }
    }
  }

  /** Trimming a rendering with an optional leading space leaves the
      rendering. */
  lemma TrimRendered(pad: string, n: int)
    requires pad == [] || pad == [' ']
    ensures Trim(pad + ShowInt(n)) == ShowInt(n)
  {
    var s := ShowInt(n);
    ShowIntChars(n);
    assert TrimStart(pad + s) == s by {
      assert !IsWhitespace(s[0]) by {
        assert s[0] in s;
      }
      if pad != [] {
        assert (pad + s)[1..] == s;
      } else {
        assert pad + s == s;
      }
    }
    assert TrimEnd(s) == s by {
      assert !IsWhitespace(s[|s| - 1]);
    }
  }

  /** A decimal rendering with an optional leading space reads back as the
      value. */
  lemma Token(pad: string, n: int)
    requires pad == [] || pad == [' ']
    requires I64_MIN <= n <= I64_MAX
    ensures ParseI64(Trim(pad + ShowInt(n))) == Some(n)
    ensures forall c :: c in pad + ShowInt(n) ==> c == ' ' || c == '-' || IsDigit(c)
  {
    TrimRendered(pad, n);
    ParseShow(n);
    ShowIntChars(n);
  }

  /** A character that cannot occur in a rendered value. */
  predicate OutsideTokens(c: char) {
    c != ' ' && c != '-' && !IsDigit(c)
  }

  /** `p` reads back as `n` and holds only characters of rendered values. */
  predicate IsToken(p: string, n: int) {
    && ParseI64(Trim(p)) == Some(n)
    && forall c :: c in p ==> !OutsideTokens(c)
  }

  /** Each piece is a token for the matching value. */
  predicate TokensOf(pieces: seq<string>, ns: seq<int>) {
    && |pieces| == |ns|
    && (pieces != [] ==> IsToken(pieces[0], ns[0]) && TokensOf(pieces[1..], ns[1..]))
  }

  /** `TokensOf` read index by index. */
  lemma {:induction false} TokensPointwise(pieces: seq<string>, ns: seq<int>)
    requires TokensOf(pieces, ns)
    ensures forall k :: 0 <= k < |pieces| ==> IsToken(pieces[k], ns[k])
  {
    if pieces != [] {
      TokensPointwise(pieces[1..], ns[1..]);
      forall k | 0 < k < |pieces|
        ensures IsToken(pieces[k], ns[k])
      {
        assert pieces[k] == pieces[1..][k - 1] && ns[k] == ns[1..][k - 1];
      }
    }
  }

  /** The rendering of `n`, after `pad`, as a token. */
  lemma RenderedIsToken(pad: string, n: int)
    requires pad == [] || pad == [' ']
    requires I64_MIN <= n <= I64_MAX
    ensures IsToken(pad + ShowInt(n), n)
  {
    Token(pad, n);
  }

  /** Prepends one token. */
  lemma TokensCons(p: string, n: int, pieces: seq<string>, ns: seq<int>)
    requires IsToken(p, n) && TokensOf(pieces, ns)
    ensures TokensOf([p] + pieces, [n] + ns)
  {
    assert ([p] + pieces)[1..] == pieces && ([n] + ns)[1..] == ns;
  }

  /** What one value contributes to the negatives report. */
  function NegativePart(x: int): seq<int> {
    if x < 0 then [x] else []
  }

  /** What one value contributes to the sum. */
  function Kept(x: int): int {
    if x <= MAX_KEPT then x else 0
  }

  /** The verdict's two ingredients, one value at a time. */
  lemma VerdictCons(x: int, ns: seq<int>)
    ensures Negatives([x] + ns) == NegativePart(x) + Negatives(ns)
    ensures Sum(NormalizeNumbers([x] + ns)) == Kept(x) + Sum(NormalizeNumbers(ns))
  {
    var xs := [x] + ns;
    assert xs[0] == x && xs[1..] == ns;
    assert NormalizeNumbers(xs) == [Kept(x)] + NormalizeNumbers(ns);
    assert ([Kept(x)] + NormalizeNumbers(ns))[1..] == NormalizeNumbers(ns);
  }

  /** The verdict on one value. */
  lemma VerdictOne(a: int)
    ensures Negatives([a]) == NegativePart(a)
    ensures Sum(NormalizeNumbers([a])) == Kept(a)
  {
    VerdictCons(a, []);
    assert [a] + [] == [a];
  }

  /** The verdict on two values. */
  lemma VerdictTwo(a: int, b: int)
    ensures Negatives([a, b]) == NegativePart(a) + NegativePart(b)
    ensures Sum(NormalizeNumbers([a, b])) == Kept(a) + Kept(b)
  {
    VerdictOne(b);
    VerdictCons(a, [b]);
    assert [a] + [b] == [a, b];
  }

  /** The verdict on three values. */
  lemma VerdictThree(a: int, b: int, c: int)
    ensures Negatives([a, b, c]) == NegativePart(a) + (NegativePart(b) + NegativePart(c))
    ensures Sum(NormalizeNumbers([a, b, c])) == Kept(a) + Kept(b) + Kept(c)
  {
    VerdictTwo(b, c);
    VerdictCons(a, [b, c]);
    assert [a] + [b, c] == [a, b, c];
  }

  /** The verdict on four values. */
  lemma VerdictFour(a: int, b: int, c: int, d: int)
    ensures Negatives([a, b, c, d]) == NegativePart(a) + (NegativePart(b) + (NegativePart(c) + NegativePart(d)))
    ensures Sum(NormalizeNumbers([a, b, c, d])) == Kept(a) + Kept(b) + Kept(c) + Kept(d)
  {
    VerdictThree(b, c, d);
    VerdictCons(a, [b, c, d]);
    assert [a] + [b, c, d] == [a, b, c, d];
  }

  /** A comma/newline list of tokens: `add` gives their verdict. */
  lemma DefaultTokens(pieces: seq<string>, glue: string, ns: seq<int>)
    requires TokensOf(pieces, ns) && |pieces| == |glue| + 1
    requires forall c :: c in glue ==> c in DEFAULT_SEPARATORS
    requires !StartsWithMarker(Join(pieces, glue))
    ensures Add(Join(pieces, glue)) == Verdict(ns)
  {
    TokensPointwise(pieces, ns);
    forall k, c | 0 <= k < |pieces| && c in pieces[k]
      ensures c !in DEFAULT_SEPARATORS
    {
      assert IsToken(pieces[k], ns[k]);
    }
    DefaultListVerdict(pieces, glue, ns);
  }

  /** A header `//<sep><fourth>` and a `sep`-separated list of tokens: `add`
      gives their verdict. */
  lemma CustomTokens(sep: char, fourth: char, pieces: seq<string>, glue: string, ns: seq<int>)
    requires OutsideTokens(sep)
    requires TokensOf(pieces, ns) && |pieces| == |glue| + 1
    requires forall c :: c in glue ==> c == sep
    ensures Add(CUSTOM_MARKER + [sep, fourth] + Join(pieces, glue)) == Verdict(ns)
  {
    TokensPointwise(pieces, ns);
    forall k, c | 0 <= k < |pieces| && c in pieces[k]
      ensures c != sep
    {
      assert IsToken(pieces[k], ns[k]);
    }
    CustomListVerdict(sep, fourth, pieces, glue, ns);
  }

  /** Two tokens in a row. */
  lemma TokensTwo(x: string, a: int, y: string, b: int)
    requires IsToken(x, a) && IsToken(y, b)
    ensures TokensOf([x, y], [a, b])
  {
    assert TokensOf([y], [b]) by {
      TokensCons(y, b, [], []);
      assert [y] + [] == [y] && [b] + [] == [b];
    }
    TokensCons(x, a, [y], [b]);
    assert [x] + [y] == [x, y] && [a] + [b] == [a, b];
  }

  /** Three tokens in a row. */
  lemma TokensThree(x: string, a: int, y: string, b: int, z: string, c: int)
    requires IsToken(x, a) && IsToken(y, b) && IsToken(z, c)
    ensures TokensOf([x, y, z], [a, b, c])
  {
    TokensTwo(y, b, z, c);
    TokensCons(x, a, [y, z], [b, c]);
    assert [x] + [y, z] == [x, y, z] && [a] + [b, c] == [a, b, c];
  }

  /** Four tokens in a row. */
  lemma TokensFour(w: string, a: int, x: string, b: int, y: string, c: int, z: string, d: int)
    requires IsToken(w, a) && IsToken(x, b) && IsToken(y, c) && IsToken(z, d)
    ensures TokensOf([w, x, y, z], [a, b, c, d])
  {
    TokensThree(x, b, y, c, z, d);
    TokensCons(w, a, [x, y, z], [b, c, d]);
    assert [w] + [x, y, z] == [w, x, y, z] && [a] + [b, c, d] == [a, b, c, d];
  }

  /** Unfolds `Join` by one piece. */
  lemma JoinCons(p: string, pieces: seq<string>, g: char, glue: string)
    requires |pieces| == |glue| + 1
    ensures Join([p] + pieces, [g] + glue) == p + [g] + Join(pieces, glue)
  {
    assert ([p] + pieces)[1..] == pieces && ([g] + glue)[1..] == glue;
  }

  /** A text whose first character is that of a rendered value does not start
      with the custom marker. */
  lemma NoMarkerAfterValue(n: int, text: string)
    requires I64_MIN <= n <= I64_MAX
    requires text != [] && text[0] == ShowInt(n)[0]
    ensures !StartsWithMarker(text)
  {
    var s := ShowInt(n);
    Token([], n);
    assert [] + s == s;
    assert s[0] in s;
  }

  /** A single rendered value. */
  lemma DefaultOne(a: int)
    requires I64_MIN <= a <= I64_MAX
    ensures Add(ShowInt(a)) == Verdict([a])
  {
    var s := ShowInt(a);
    assert Join([s], []) == s;
    NoMarkerAfterValue(a, s);
    assert TokensOf([s], [a]) by {
      RenderedIsToken([], a);
      assert [] + s == s;
      TokensCons(s, a, [], []);
      assert [s] + [] == [s] && [a] + [] == [a];
    }
    DefaultTokens([s], [], [a]);
  }

  /** `Join` of two pieces. */
  lemma JoinTwo(x: string, g: char, y: string)
    ensures Join([x, y], [g]) == x + [g] + y
  {
    assert Join([y], []) == y;
    JoinCons(x, [y], g, []);
    assert [x] + [y] == [x, y] && [g] + [] == [g];
  }

  /** `Join` of three pieces. */
  lemma JoinThree(x: string, g1: char, y: string, g2: char, z: string)
    ensures Join([x, y, z], [g1, g2]) == x + [g1] + y + [g2] + z
  {
    JoinTwo(y, g2, z);
    JoinCons(x, [y, z], g1, [g2]);
    assert [x] + [y, z] == [x, y, z] && [g1] + [g2] == [g1, g2];
  }

  /** `Join` of four pieces. */
  lemma JoinFour(w: string, g1: char, x: string, g2: char, y: string, g3: char, z: string)
    ensures Join([w, x, y, z], [g1, g2, g3]) == w + [g1] + x + [g2] + y + [g3] + z
  {
    JoinThree(x, g2, y, g3, z);
    JoinCons(w, [x, y, z], g1, [g2, g3]);
    assert [w] + [x, y, z] == [w, x, y, z] && [g1] + [g2, g3] == [g1, g2, g3];
  }

  /** Two rendered values joined by a comma or newline `g`, the second one
      after `pad`. */
  lemma DefaultTwo(a: int, b: int, g: char, pad: string)
    requires g in DEFAULT_SEPARATORS && (pad == [] || pad == [' '])
    requires I64_MIN <= a <= I64_MAX && I64_MIN <= b <= I64_MAX
    ensures Add(ShowInt(a) + [g] + (pad + ShowInt(b))) == Verdict([a, b])
  {
    var sa, tb := ShowInt(a), pad + ShowInt(b);
    JoinTwo(sa, g, tb);
    assert TokensOf([sa, tb], [a, b]) by {
      RenderedIsToken([], a);
      assert [] + sa == sa;
      RenderedIsToken(pad, b);
      TokensTwo(sa, a, tb, b);
    }
    NoMarkerAfterValue(a, sa + [g] + tb);
    DefaultTokens([sa, tb], [g], [a, b]);
  }

  /** Three rendered values joined by `g1` and `g2`, each after the first one
      after `pad`. */
  lemma DefaultThree(a: int, b: int, c: int, g1: char, g2: char, pad: string)
    requires g1 in DEFAULT_SEPARATORS && g2 in DEFAULT_SEPARATORS && (pad == [] || pad == [' '])
    requires I64_MIN <= a <= I64_MAX && I64_MIN <= b <= I64_MAX && I64_MIN <= c <= I64_MAX
    ensures Add(ShowInt(a) + [g1] + (pad + ShowInt(b)) + [g2] + (pad + ShowInt(c))) == Verdict([a, b, c])
  {
    var sa, tb, tc := ShowInt(a), pad + ShowInt(b), pad + ShowInt(c);
    JoinThree(sa, g1, tb, g2, tc);
    assert TokensOf([sa, tb, tc], [a, b, c]) by {
      RenderedIsToken([], a);
      assert [] + sa == sa;
      RenderedIsToken(pad, b);
      RenderedIsToken(pad, c);
      TokensThree(sa, a, tb, b, tc, c);
    }
    NoMarkerAfterValue(a, sa + [g1] + tb + [g2] + tc);
    DefaultTokens([sa, tb, tc], [g1, g2], [a, b, c]);
  }

  /** Four rendered values joined by `g1`, `g2` and `g3`, each after the first
      one after `pad`. */
  lemma DefaultFour(a: int, b: int, c: int, d: int, g1: char, g2: char, g3: char, pad: string)
    requires g1 in DEFAULT_SEPARATORS && g2 in DEFAULT_SEPARATORS && g3 in DEFAULT_SEPARATORS
    requires pad == [] || pad == [' ']
    requires I64_MIN <= a <= I64_MAX && I64_MIN <= b <= I64_MAX
    requires I64_MIN <= c <= I64_MAX && I64_MIN <= d <= I64_MAX
    ensures Add(ShowInt(a) + [g1] + (pad + ShowInt(b)) + [g2] + (pad + ShowInt(c)) + [g3] + (pad + ShowInt(d)))
         == Verdict([a, b, c, d])
  {
    var sa, tb, tc, td := ShowInt(a), pad + ShowInt(b), pad + ShowInt(c), pad + ShowInt(d);
    JoinFour(sa, g1, tb, g2, tc, g3, td);
    assert TokensOf([sa, tb, tc, td], [a, b, c, d]) by {
      RenderedIsToken([], a);
      assert [] + sa == sa;
      RenderedIsToken(pad, b);
      RenderedIsToken(pad, c);
      RenderedIsToken(pad, d);
      TokensFour(sa, a, tb, b, tc, c, td, d);
    }
    NoMarkerAfterValue(a, sa + [g1] + tb + [g2] + tc + [g3] + td);
    DefaultTokens([sa, tb, tc, td], [g1, g2, g3], [a, b, c, d]);
  }

  /** A custom header followed by two pieces joined by its separator. */
  lemma CustomTextTwo(sep: char, fourth: char, x: string, y: string)
    ensures CUSTOM_MARKER + [sep, fourth] + Join([x, y], [sep]) == CUSTOM_MARKER + [sep, fourth] + x + [sep] + y
  {
    JoinTwo(x, sep, y);
  }

  /** A custom header followed by three pieces joined by its separator. */
  lemma CustomTextThree(sep: char, fourth: char, x: string, y: string, z: string)
    ensures CUSTOM_MARKER + [sep, fourth] + Join([x, y, z], [sep, sep])
         == CUSTOM_MARKER + [sep, fourth] + x + [sep] + y + [sep] + z
  {
    JoinThree(x, sep, y, sep, z);
  }

  /** A `//<sep><fourth>` header and two rendered values split by `sep`. */
  lemma CustomTwo(sep: char, fourth: char, a: int, b: int)
    requires OutsideTokens(sep)
    requires I64_MIN <= a <= I64_MAX && I64_MIN <= b <= I64_MAX
    ensures Add(CUSTOM_MARKER + [sep, fourth] + ShowInt(a) + [sep] + ShowInt(b)) == Verdict([a, b])
  {
    var sa, sb := ShowInt(a), ShowInt(b);
    CustomTextTwo(sep, fourth, sa, sb);
    assert TokensOf([sa, sb], [a, b]) by {
      RenderedIsToken([], a);
      RenderedIsToken([], b);
      assert [] + sa == sa && [] + sb == sb;
      TokensTwo(sa, a, sb, b);
    }
    CustomTokens(sep, fourth, [sa, sb], [sep], [a, b]);
  }

  /** A `// <fourth>` header and two rendered values split by a space, the
      one separator the scan never sees. */
  lemma CustomSpaceTwo(fourth: char, a: int, b: int)
    requires I64_MIN <= a <= I64_MAX && I64_MIN <= b <= I64_MAX
    ensures Add(CUSTOM_MARKER + [' ', fourth] + ShowInt(a) + [' '] + ShowInt(b)) == Verdict([a, b])
  {
    var sa, sb := ShowInt(a), ShowInt(b);
    CustomTextTwo(' ', fourth, sa, sb);
    SpacelessToken(a);
    SpacelessToken(b);
    CustomListVerdict(' ', fourth, [sa, sb], [' '], [a, b]);
  }

  /** A rendering holds no space and reads back as its value. */
  lemma SpacelessToken(n: int)
    requires I64_MIN <= n <= I64_MAX
    ensures ParseI64(Trim(ShowInt(n))) == Some(n)
    ensures forall c :: c in ShowInt(n) ==> c != ' '
  {
    var s := ShowInt(n);
    assert Trim(s) == s by {
      TrimRendered([], n);
      assert [] + s == s;
    }
    ParseShow(n);
    ShowIntChars(n);
  }

  /** A `//<sep><fourth>` header and three rendered values split by `sep`. */
  lemma CustomThree(sep: char, fourth: char, a: int, b: int, c: int)
    requires OutsideTokens(sep)
    requires I64_MIN <= a <= I64_MAX && I64_MIN <= b <= I64_MAX && I64_MIN <= c <= I64_MAX
    ensures Add(CUSTOM_MARKER + [sep, fourth] + ShowInt(a) + [sep] + ShowInt(b) + [sep] + ShowInt(c))
         == Verdict([a, b, c])
  {
    var sa, sb, sc := ShowInt(a), ShowInt(b), ShowInt(c);
    CustomTextThree(sep, fourth, sa, sb, sc);
    assert TokensOf([sa, sb, sc], [a, b, c]) by {
      RenderedIsToken([], a);
      RenderedIsToken([], b);
      RenderedIsToken([], c);
      assert [] + sa == sa && [] + sb == sb && [] + sc == sc;
      TokensThree(sa, a, sb, b, sc, c);
    }
    CustomTokens(sep, fourth, [sa, sb, sc], [sep, sep], [a, b, c]);
  }

  // ---------------------------------------------------------------------------
  // The unit tests, one lemma per assertion
  // ---------------------------------------------------------------------------

  /** `empty_string`: nothing to add gives zero. */
  lemma EmptyString()
    ensures Add("") == Ok(0)
  {
  }

  /** `one_number_string`: a single number is its own sum. */
  lemma OneNumber()
    ensures Add("1") == Ok(1)
  {
    OneNumberText();
    OneNumberVerdict();
    DefaultOne(1);
  }

  /** The input of `OneNumber`, as rendered values and separators. */
  lemma OneNumberText()
    ensures ShowInt(1) == "1"
  {
  }

  /** The verdict on the values of `OneNumber`. */
  lemma OneNumberVerdict()
    ensures Verdict([1]) == Ok(1)
  {
    VerdictOne(1);
  }

  /** `one_number_string`: a single zero. */
  lemma OneZero()
    ensures Add("0") == Ok(0)
  {
    OneZeroText();
    OneZeroVerdict();
    DefaultOne(0);
  }

  /** The input of `OneZero`, as rendered values and separators. */
  lemma OneZeroText()
    ensures ShowInt(0) == "0"
  {
  }

  /** The verdict on the values of `OneZero`. */
  lemma OneZeroVerdict()
    ensures Verdict([0]) == Ok(0)
  {
    VerdictOne(0);
  }

  /** `more_number_string`: two numbers with a space after the comma. */
  lemma TwoNumbers()
    ensures Add("0, 1") == Ok(1)
  {
    TwoNumbersText();
    TwoNumbersVerdict();
    DefaultTwo(0, 1, ',', " ");
  }

  /** The input of `TwoNumbers`, as rendered values and separators. */
  lemma TwoNumbersText()
    ensures ShowInt(0) + [','] + (" " + ShowInt(1)) == "0, 1"
  {
    assert ShowInt(0) == "0" && ShowInt(1) == "1";
  }

  /** The verdict on the values of `TwoNumbers`. */
  lemma TwoNumbersVerdict()
    ensures Verdict([0, 1]) == Ok(1)
  {
    VerdictTwo(0, 1);
  }

  /** `more_number_string`: three numbers. */
  lemma ThreeNumbers()
    ensures Add("0, 1, 2") == Ok(3)
  {
    ThreeNumbersText();
    ThreeNumbersVerdict();
    DefaultThree(0, 1, 2, ',', ',', " ");
  }

  /** The input of `ThreeNumbers`, as rendered values and separators. */
  lemma ThreeNumbersText()
    ensures ShowInt(0) + [','] + (" " + ShowInt(1)) + [','] + (" " + ShowInt(2)) == "0, 1, 2"
  {
    assert ShowInt(0) == "0" && ShowInt(1) == "1" && ShowInt(2) == "2";
  }

  /** The verdict on the values of `ThreeNumbers`. */
  lemma ThreeNumbersVerdict()
    ensures Verdict([0, 1, 2]) == Ok(3)
  {
    VerdictThree(0, 1, 2);
  }

  /** `more_number_string`: four numbers. */
  lemma FourNumbers()
    ensures Add("0, 1, 2, 3") == Ok(6)
  {
    FourNumbersText();
    FourNumbersVerdict();
    DefaultFour(0, 1, 2, 3, ',', ',', ',', " ");
  }

  /** The input of `FourNumbers`, as rendered values and separators. */
  lemma FourNumbersText()
    ensures ShowInt(0) + [','] + (" " + ShowInt(1)) + [','] + (" " + ShowInt(2)) + [','] + (" " + ShowInt(3)) == "0, 1, 2, 3"
  {
    assert ShowInt(0) == "0" && ShowInt(1) == "1" && ShowInt(2) == "2" && ShowInt(3) == "3";
  }

  /** The verdict on the values of `FourNumbers`. */
  lemma FourNumbersVerdict()
    ensures Verdict([0, 1, 2, 3]) == Ok(6)
  {
    VerdictFour(0, 1, 2, 3);
  }

  /** `newline_seprator`: a newline separates like a comma. */
  lemma NewlineSeparator()
    ensures Add("1\n2,3") == Ok(6)
  {
    NewlineSeparatorText();
    NewlineSeparatorVerdict();
    DefaultThree(1, 2, 3, '\n', ',', []);
  }

  /** The input of `NewlineSeparator`, as rendered values and separators. */
  lemma NewlineSeparatorText()
    ensures ShowInt(1) + ['\n'] + ([] + ShowInt(2)) + [','] + ([] + ShowInt(3)) == "1\n2,3"
  {
    assert ShowInt(1) == "1" && ShowInt(2) == "2" && ShowInt(3) == "3";
  }

  /** The verdict on the values of `NewlineSeparator`. */
  lemma NewlineSeparatorVerdict()
    ensures Verdict([1, 2, 3]) == Ok(6)
  {
    VerdictThree(1, 2, 3);
  }

  /** `custom_delimiter`: `;` as separator. */
  lemma SemicolonSeparator()
    ensures Add("//;\n1;2") == Ok(3)
  {
    SemicolonSeparatorText();
    SemicolonSeparatorVerdict();
    CustomTwo(';', '\n', 1, 2);
  }

  /** The input of `SemicolonSeparator`, as rendered values and separators. */
  lemma SemicolonSeparatorText()
    ensures CUSTOM_MARKER + [';', '\n'] + ShowInt(1) + [';'] + ShowInt(2) == "//;\n1;2"
  {
    assert ShowInt(1) == "1" && ShowInt(2) == "2";
  }

  /** The verdict on the values of `SemicolonSeparator`. */
  lemma SemicolonSeparatorVerdict()
    ensures Verdict([1, 2]) == Ok(3)
  {
    VerdictTwo(1, 2);
  }

  /** A space as custom separator: the scan skips spaces, so the header's
      space only serves to split the body. */
  lemma SpaceSeparator()
    ensures Add("// \n1 2") == Ok(3)
  {
    SpaceSeparatorText();
    SemicolonSeparatorVerdict();
    CustomSpaceTwo('\n', 1, 2);
  }

  /** The input of `SpaceSeparator`, as rendered values and separators. */
  lemma SpaceSeparatorText()
    ensures CUSTOM_MARKER + [' ', '\n'] + ShowInt(1) + [' '] + ShowInt(2) == "// \n1 2"
  {
    assert ShowInt(1) == "1" && ShowInt(2) == "2";
  }

  /** `custom_delimiter`: a letter as separator. */
  lemma LetterSeparator()
    ensures Add("//h\n1h3") == Ok(4)
  {
    LetterSeparatorText();
    LetterSeparatorVerdict();
    CustomTwo('h', '\n', 1, 3);
  }

  /** The input of `LetterSeparator`, as rendered values and separators. */
  lemma LetterSeparatorText()
    ensures CUSTOM_MARKER + ['h', '\n'] + ShowInt(1) + ['h'] + ShowInt(3) == "//h\n1h3"
  {
    assert ShowInt(1) == "1" && ShowInt(3) == "3";
  }

  /** The verdict on the values of `LetterSeparator`. */
  lemma LetterSeparatorVerdict()
    ensures Verdict([1, 3]) == Ok(4)
  {
    VerdictTwo(1, 3);
  }

  /** `custom_delimiter`: a newline as the custom separator. */
  lemma NewlineAsCustomSeparator()
    ensures Add("//\n\n1\n4") == Ok(5)
  {
    NewlineAsCustomSeparatorText();
    NewlineAsCustomSeparatorVerdict();
    CustomTwo('\n', '\n', 1, 4);
  }

  /** The input of `NewlineAsCustomSeparator`, as rendered values and separators. */
  lemma NewlineAsCustomSeparatorText()
    ensures CUSTOM_MARKER + ['\n', '\n'] + ShowInt(1) + ['\n'] + ShowInt(4) == "//\n\n1\n4"
  {
    assert ShowInt(1) == "1" && ShowInt(4) == "4";
  }

  /** The verdict on the values of `NewlineAsCustomSeparator`. */
  lemma NewlineAsCustomSeparatorVerdict()
    ensures Verdict([1, 4]) == Ok(5)
  {
    VerdictTwo(1, 4);
  }

  /** `negatives`: a negative value on the custom path. */
  lemma NegativeWithCustomSeparator()
    ensures Add("//;\n1;2;-3") == Err(HasNegative([-3]))
  {
    NegativeWithCustomSeparatorText();
    NegativeWithCustomSeparatorVerdict();
    CustomThree(';', '\n', 1, 2, -3);
  }

  /** The input of `NegativeWithCustomSeparator`, as rendered values and separators. */
  lemma NegativeWithCustomSeparatorText()
    ensures CUSTOM_MARKER + [';', '\n'] + ShowInt(1) + [';'] + ShowInt(2) + [';'] + ShowInt(-3) == "//;\n1;2;-3"
  {
    assert ShowInt(1) == "1" && ShowInt(2) == "2" && ShowInt(-3) == "-3";
  }

  /** The negative values of `NegativeWithCustomSeparator`. */
  lemma NegativeWithCustomSeparatorNegatives()
    ensures Negatives([1, 2, -3]) == [-3]
  {
    VerdictThree(1, 2, -3);
    assert NegativePart(2) + NegativePart(-3) == [-3];
  }

  /** The verdict on the values of `NegativeWithCustomSeparator`. */
  lemma NegativeWithCustomSeparatorVerdict()
    ensures Verdict([1, 2, -3]) == Err(HasNegative([-3]))
  {
    NegativeWithCustomSeparatorNegatives();
  }

  /** `negatives`: a negative value on the default path. */
  lemma OneNegative()
    ensures Add("0, 1, 2, -3") == Err(HasNegative([-3]))
  {
    OneNegativeText();
    OneNegativeVerdict();
    DefaultFour(0, 1, 2, -3, ',', ',', ',', " ");
  }

  /** The input of `OneNegative`, as rendered values and separators. */
  lemma OneNegativeText()
    ensures ShowInt(0) + [','] + (" " + ShowInt(1)) + [','] + (" " + ShowInt(2)) + [','] + (" " + ShowInt(-3)) == "0, 1, 2, -3"
  {
    assert ShowInt(0) == "0" && ShowInt(1) == "1" && ShowInt(2) == "2" && ShowInt(-3) == "-3";
  }

  /** The negative values of `OneNegative`. */
  lemma OneNegativeNegatives()
    ensures Negatives([0, 1, 2, -3]) == [-3]
  {
    VerdictFour(0, 1, 2, -3);
    assert NegativePart(2) + NegativePart(-3) == [-3];
  }

  /** The verdict on the values of `OneNegative`. */
  lemma OneNegativeVerdict()
    ensures Verdict([0, 1, 2, -3]) == Err(HasNegative([-3]))
  {
    OneNegativeNegatives();
  }

  /** `negatives`: every negative value is reported, in order. */
  lemma TwoNegatives()
    ensures Add("0, 1, -2, -3") == Err(HasNegative([-2, -3]))
  {
    TwoNegativesText();
    TwoNegativesVerdict();
    DefaultFour(0, 1, -2, -3, ',', ',', ',', " ");
  }

  /** The input of `TwoNegatives`, as rendered values and separators. */
  lemma TwoNegativesText()
    ensures ShowInt(0) + [','] + (" " + ShowInt(1)) + [','] + (" " + ShowInt(-2)) + [','] + (" " + ShowInt(-3)) == "0, 1, -2, -3"
  {
    assert ShowInt(0) == "0" && ShowInt(1) == "1" && ShowInt(-2) == "-2" && ShowInt(-3) == "-3";
  }

  /** The negative values of `TwoNegatives`. */
  lemma TwoNegativesNegatives()
    ensures Negatives([0, 1, -2, -3]) == [-2, -3]
  {
    LastTwoNegative(0, 1, -2, -3);
  }

  /** Four values of which exactly the last two are negative report those two. */
  lemma LastTwoNegative(a: int, b: int, c: int, d: int)
    requires a >= 0 && b >= 0 && c < 0 && d < 0
    ensures Negatives([a, b, c, d]) == [c, d]
  {
    assert [a, b] + [c, d] == [a, b, c, d];
    NegativesConcat([a, b], [c, d]);
    PairNegatives(a, b);
    BothNegative(c, d);
  }

  /** Two negative values are both reported, in order. */
  lemma BothNegative(c: int, d: int)
    requires c < 0 && d < 0
    ensures Negatives([c, d]) == [c, d]
  {
    VerdictTwo(c, d);
    assert NegativePart(c) + NegativePart(d) == [c, d];
  }

  /** The verdict on the values of `TwoNegatives`. */
  lemma TwoNegativesVerdict()
    ensures Verdict([0, 1, -2, -3]) == Err(HasNegative([-2, -3]))
  {
    TwoNegativesNegatives();
  }

  /** `bigger_than_1000`: a value above 1000 on the custom path counts as 0. */
  lemma BigValueWithCustomSeparator()
    ensures Add("//;\n1;2000") == Ok(1)
  {
    BigValueWithCustomSeparatorText();
    BigValueWithCustomSeparatorVerdict();
    CustomTwo(';', '\n', 1, 2000);
  }

  /** The input of `BigValueWithCustomSeparator`, as rendered values and separators. */
  lemma BigValueWithCustomSeparatorText()
    ensures CUSTOM_MARKER + [';', '\n'] + ShowInt(1) + [';'] + ShowInt(2000) == "//;\n1;2000"
  {
    assert ShowInt(1) == "1";
    RenderedBigValues();
  }

  /** The verdict on the values of `BigValueWithCustomSeparator`. */
  lemma BigValueWithCustomSeparatorVerdict()
    ensures Verdict([1, 2000]) == Ok(1)
  {
    VerdictTwo(1, 2000);
  }

  /** `bigger_than_1000`: 2000 and 1001 both count as 0. */
  lemma BigValues()
    ensures Add("0, 1, 2000, 1001") == Ok(1)
  {
    BigValuesText();
    BigValuesVerdict();
    DefaultFour(0, 1, 2000, 1001, ',', ',', ',', " ");
  }

  /** The input of `BigValues`, as rendered values and separators. */
  lemma BigValuesText()
    ensures ShowInt(0) + [','] + (" " + ShowInt(1)) + [','] + (" " + ShowInt(2000)) + [','] + (" " + ShowInt(1001)) == "0, 1, 2000, 1001"
  {
    assert ShowInt(0) == "0" && ShowInt(1) == "1";
    RenderedBigValues();
  }

  /** The renderings of the two values above `MAX_KEPT` the tests use. */
  lemma RenderedBigValues()
    ensures ShowInt(2000) == "2000" && ShowInt(1001) == "1001"
  {
    assert ShowNat(200) == "200";
    assert ShowNat(100) == "100";
  }

  /** The verdict on the values of `BigValues`. */
  lemma BigValuesVerdict()
    ensures Verdict([0, 1, 2000, 1001]) == Ok(1)
  {
    VerdictFour(0, 1, 2000, 1001);
  }

  /** `no_consecutive_delimiter`: a comma right before a newline at the end. */
  lemma CommaNewlineAtEnd()
    ensures Add("1,\n") == Err(ConsecutiveSeparators)
  {
    assert AdjacentSeparators("1,\n", DEFAULT_SEPARATORS, 1, 2);
  }

  /** `no_consecutive_delimiter`: a comma right before a newline. */
  lemma CommaNewline()
    ensures Add("1,\n2") == Err(ConsecutiveSeparators)
  {
    assert AdjacentSeparators("1,\n2", DEFAULT_SEPARATORS, 1, 2);
  }

  /** `no_consecutive_delimiter`: a newline right before a comma. */
  lemma NewlineComma()
    ensures Add("1\n,2") == Err(ConsecutiveSeparators)
  {
    assert AdjacentSeparators("1\n,2", DEFAULT_SEPARATORS, 1, 2);
  }

  /** `invalid_input`: the bare marker. */
  lemma BareMarker()
    ensures Add("//") == Err(InvalidInput)
  {
  }

  /** `custom_delimiter`: two custom separators in a row. */
  lemma CustomSeparatorTwice()
    ensures Add("//\n\n1\n\n2") == Err(ConsecutiveSeparators)
  {
    var input := "//\n\n1\n\n2";
    assert StartsWithMarker(input) && input[2] == '\n';
    assert CustomBody(input) == "1\n\n2";
    assert AdjacentSeparators("1\n\n2", ['\n'], 1, 2);
  }

  /** Two rendered values joined by a comma: `add` gives their verdict. */
  lemma DefaultPair(a: int, b: int)
    requires I64_MIN <= a <= I64_MAX && I64_MIN <= b <= I64_MAX
    ensures Add(ShowInt(a) + [','] + ShowInt(b)) == Verdict([a, b])
  {
    assert [] + ShowInt(b) == ShowInt(b);
    DefaultTwo(a, b, ',', []);
  }

  /** `sum_is_commutative`: for every `a` and `b` in `[0, 1000)` the texts
      `a,b` and `b,a` both add up to `a + b`. */
  lemma SumIsCommutative(a: int, b: int)
    requires 0 <= a < 1000 && 0 <= b < 1000
    ensures Add(ShowInt(a) + [','] + ShowInt(b)) == Ok(a + b)
    ensures Add(ShowInt(b) + [','] + ShowInt(a)) == Ok(a + b)
  {
    assert Verdict([a, b]) == Ok(a + b) && Verdict([b, a]) == Ok(a + b) by {
      PairVerdict(a, b);
      PairVerdict(b, a);
    }
    DefaultPair(a, b);
    DefaultPair(b, a);
  }

  // ---------------------------------------------------------------------------
  // Further cases the code settles
  // ---------------------------------------------------------------------------

  /** A header without a body adds up to zero. */
  lemma HeaderOnly()
    ensures Add("//;") == Ok(0)
  {
    assert StartsWithMarker("//;");
  }

  /** A lone trailing separator is not reported as consecutive separators:
      the empty last token fails to parse. */
  lemma LoneTrailingSeparator()
    ensures Add("1,") == Err(NaN)
  {
    var input := "1,";
    assert !HasConsecutiveSeparators(input, DEFAULT_SEPARATORS) by {
      assert !IsSeparatorChar(input[0], DEFAULT_SEPARATORS);
    }
    assert input[..2] != CUSTOM_MARKER by { assert input[0] == '1'; }
    TrailingSeparatorIsNaN(input);
  }

  /** The header of a two-value custom text: the marker, then `sep`, then a
      body of at least one character. */
  lemma CustomTwoHeader(sep: char, fourth: char, a: int, b: int)
    ensures var input := CUSTOM_MARKER + [sep, fourth] + ShowInt(a) + [sep] + ShowInt(b);
      StartsWithMarker(input) && input[2] == sep && |input| >= 5
  {
    var input := CUSTOM_MARKER + [sep, fourth] + ShowInt(a) + [sep] + ShowInt(b);
    assert input[..2] == CUSTOM_MARKER;
  }

  /** Every two-number body behind a separator the regex crate rejects in a
      character class makes `add` as written panic, although the intended
      result is the ordinary sum. */
  lemma PanicsOnBreakingSeparator(sep: char, fourth: char, a: int, b: int)
    requires BreaksCharClass(sep)
    requires I64_MIN <= a <= I64_MAX && I64_MIN <= b <= I64_MAX
    ensures AddAsWritten(CUSTOM_MARKER + [sep, fourth] + ShowInt(a) + [sep] + ShowInt(b)) == None
    ensures Add(CUSTOM_MARKER + [sep, fourth] + ShowInt(a) + [sep] + ShowInt(b)) == Verdict([a, b])
  {
    CustomTwo(sep, fourth, a, b);
    CustomTwoHeader(sep, fourth, a, b);
    AsWrittenPanics(CUSTOM_MARKER + [sep, fourth] + ShowInt(a) + [sep] + ShowInt(b));
  }

  /** `[` as custom separator: `add` as written panics on `//[\n1[2`, whose
      intended result is 3. */
  lemma BracketSeparator()
    ensures AddAsWritten("//[\n1[2") == None
    ensures Add("//[\n1[2") == Ok(3)
  {
    BracketSeparatorText();
    BracketSeparatorVerdict();
    PanicsOnBreakingSeparator('[', '\n', 1, 2);
  }

  /** The input of `BracketSeparator`, as rendered values and separators. */
  lemma BracketSeparatorText()
    ensures CUSTOM_MARKER + ['[', '\n'] + ShowInt(1) + ['['] + ShowInt(2) == "//[\n1[2"
  {
    assert ShowInt(1) == "1" && ShowInt(2) == "2";
  }

  /** The verdict on the values of `BracketSeparator`. */
  lemma BracketSeparatorVerdict()
    ensures Verdict([1, 2]) == Ok(3)
  {
    VerdictTwo(1, 2);
  }
}
