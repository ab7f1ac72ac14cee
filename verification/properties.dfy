/** Properties of `add` that relate several operations or several calls: the
    result once every token parses, lone separators, the ignored fourth header
    character, and the order-independence of the sum. */
module CalculatorProperties {
  import opened Text
  import opened Calculator

  /** What the pipeline returns once every token has parsed to `ns`: all the
      negative values if there are any, otherwise the sum of the normalised
      values. */
  function Verdict(ns: seq<int>): Result<int> {
    if Negatives(ns) == [] then Ok(Sum(NormalizeNumbers(ns)))
    else Err(HasNegative(Negatives(ns)))
  }

  /** Default path, no consecutive separators, every token parses: the result
      is the verdict on the parsed tokens, in particular an `Ok` is the sum of
      the normalised tokens. */
  lemma DefaultPathVerdict(input: string, ns: seq<int>)
    requires !StartsWithMarker(input) && input != []
    requires !HasConsecutiveSeparators(input, DEFAULT_SEPARATORS)
    requires ParseTokens(Split(input, DEFAULT_SEPARATORS)) == Some(ns)
    ensures Add(input) == Verdict(ns)
  {
  }

  /** Custom path, same situation: the tokens are read from the body after the
      four-character header, split on the header's separator. */
  lemma CustomPathVerdict(input: string, ns: seq<int>)
    requires StartsWithMarker(input) && |input| > 4
    requires !HasConsecutiveSeparators(input[4..], [input[2]])
    requires ParseTokens(Split(input[4..], [input[2]])) == Some(ns)
    ensures Add(input) == Verdict(ns)
  {
  }

  /** The text `add` scans and tokenizes: the body after the header on the
      custom path, the whole text otherwise. */
  function PathBody(input: string): string {
    if StartsWithMarker(input) then CustomBody(input) else input
  }

  /** The separators of the path `add` takes (none when the header lacks one). */
  function PathSeparators(input: string): seq<char> {
    if !StartsWithMarker(input) then DEFAULT_SEPARATORS
    else if |input| >= 3 then [input[2]]
    else []
  }

  /** `add` fails with `NaN` exactly when the text of its path is not empty,
      passes the scan, and holds a piece that does not parse. */
  lemma AddIsNaN(input: string)
    ensures Add(input) == Err(NaN) <==>
      && PathBody(input) != []
      && !HasConsecutiveSeparators(PathBody(input), PathSeparators(input))
      && ParseTokens(Split(PathBody(input), PathSeparators(input))).None?
  {
  }

  /** The converse of `DefaultPathVerdict` and `CustomPathVerdict`: a sum or a
      negatives report is the verdict on the parsed pieces of the path's text,
      and an empty text sums to zero. */
  lemma AddIsVerdict(input: string)
    requires Add(input).Ok? || Add(input).error.HasNegative?
    ensures PathBody(input) == [] ==> Add(input) == Ok(0)
    ensures PathBody(input) != [] ==>
      && ParseTokens(Split(PathBody(input), PathSeparators(input))).Some?
      && Add(input) == Verdict(ParseTokens(Split(PathBody(input), PathSeparators(input))).value)
  {
  }

  /** A piece whose trimmed text parses holds a character that clears the
      scan's flag. */
  lemma ParsedPieceBlocks(p: string, seps: seq<char>)
    requires forall c :: c in p ==> c !in seps
    requires ParseI64(Trim(p)).Some?
    ensures HasBlocker(p, seps)
  {
    var t := Trim(p);
    TrimSpec(p);
    var a :| IsTrimmedSlice(p, a, t);
    assert p[a] == t[0] && p[a] in p;
  }

  /** Pieces that each parse give exactly their values, in order. */
  lemma ParsePointwise(pieces: seq<string>, ns: seq<int>)
    requires |ns| == |pieces|
    requires forall k :: 0 <= k < |pieces| ==> ParseI64(Trim(pieces[k])) == Some(ns[k])
    ensures ParseTokens(pieces) == Some(ns)
  {
    var r := ParseTokens(pieces);
    assert r.Some?;
    assert r.value == ns;
  }

  /** Every piece of a glued list parses, so the list holds no consecutive
      separators and splits back into its pieces. */
  lemma WellFormedList(pieces: seq<string>, glue: string, seps: seq<char>, ns: seq<int>)
    requires |pieces| == |glue| + 1 && |ns| == |pieces|
    requires forall c :: c in glue ==> IsSeparatorChar(c, seps)
    requires forall k, c :: 0 <= k < |pieces| && c in pieces[k] ==> c !in seps
    requires forall k :: 0 <= k < |pieces| ==> ParseI64(Trim(pieces[k])) == Some(ns[k])
    ensures Join(pieces, glue) != []
    ensures !HasConsecutiveSeparators(Join(pieces, glue), seps)
    ensures Split(Join(pieces, glue), seps) == pieces
    ensures ParseTokens(pieces) == Some(ns)
  {
    assert !HasConsecutiveSeparators(Join(pieces, glue), seps) by {
      forall k | 0 < k < |pieces| - 1
        ensures HasBlocker(pieces[k], seps)
      {
        ParsedPieceBlocks(pieces[k], seps);
      }
      NoConsecutiveInJoin(pieces, glue, seps);
    }
    assert Split(Join(pieces, glue), seps) == pieces by {
      JoinSplit(pieces, glue, seps);
    }
    assert Join(pieces, glue) != [] by {
      if glue == [] {
        assert ParseI64(Trim(pieces[0])).Some?;
      }
    }
    ParsePointwise(pieces, ns);
  }

  /** A comma/newline list of tokens that all parse: `add` gives the verdict on
      the parsed values. */
  lemma DefaultListVerdict(pieces: seq<string>, glue: string, ns: seq<int>)
    requires |pieces| == |glue| + 1 && |ns| == |pieces|
    requires forall c :: c in glue ==> c in DEFAULT_SEPARATORS
    requires forall k, c :: 0 <= k < |pieces| && c in pieces[k] ==> c !in DEFAULT_SEPARATORS
    requires forall k :: 0 <= k < |pieces| ==> ParseI64(Trim(pieces[k])) == Some(ns[k])
    requires !StartsWithMarker(Join(pieces, glue))
    ensures Add(Join(pieces, glue)) == Verdict(ns)
  {
    WellFormedList(pieces, glue, DEFAULT_SEPARATORS, ns);
    DefaultPathVerdict(Join(pieces, glue), ns);
  }

  /** A header `//<sep><any>` followed by a `sep`-separated list of tokens that
      all parse: `add` gives the verdict on the parsed values. */
  lemma CustomListVerdict(sep: char, fourth: char, pieces: seq<string>, glue: string, ns: seq<int>)
    requires |pieces| == |glue| + 1 && |ns| == |pieces|
    requires forall c :: c in glue ==> c == sep
    requires forall k, c :: 0 <= k < |pieces| && c in pieces[k] ==> c != sep
    requires forall k :: 0 <= k < |pieces| ==> ParseI64(Trim(pieces[k])) == Some(ns[k])
    ensures Add(CUSTOM_MARKER + [sep, fourth] + Join(pieces, glue)) == Verdict(ns)
  {
    var body := Join(pieces, glue);
    var input := CUSTOM_MARKER + [sep, fourth] + body;
    assert input[..2] == CUSTOM_MARKER && input[2] == sep && input[4..] == body;
    if sep == ' ' {
      // A space is never a separator to the scan, so the body always passes it.
      assert !HasConsecutiveSeparators(body, [sep]);
      assert body != [] by {
        if glue == [] {
          assert ParseI64(Trim(pieces[0])).Some?;
        }
      }
      assert ParseTokens(Split(body, [sep])) == Some(ns) by {
        JoinSplit(pieces, glue, [sep]);
        ParsePointwise(pieces, ns);
      }
    } else {
      assert !HasConsecutiveSeparators(body, [sep]) && ParseTokens(Split(body, [sep])) == Some(ns) by {
        WellFormedList(pieces, glue, [sep], ns);
      }
    }
    CustomPathVerdict(input, ns);
  }

  /** A text that ends with a lone separator passes the scan but fails with
      `NaN`, because its last piece is empty. */
  lemma TrailingSeparatorIsNaN(input: string)
    requires !StartsWithMarker(input) && input != []
    requires input[|input| - 1] in DEFAULT_SEPARATORS
    requires !HasConsecutiveSeparators(input, DEFAULT_SEPARATORS)
    ensures Add(input) == Err(NaN)
  {
    var pieces := Split(input, DEFAULT_SEPARATORS);
    SplitTrailingSeparator(input, DEFAULT_SEPARATORS);
    assert Trim(pieces[|pieces| - 1]) == [];
    assert ParseI64([]).None?;
    assert ParseTokens(pieces).None?;
  }

  /** A text that starts with a separator passes the scan but fails with `NaN`,
      because its first piece is empty. */
  lemma LeadingSeparatorIsNaN(input: string)
    requires !StartsWithMarker(input) && input != []
    requires input[0] in DEFAULT_SEPARATORS
    requires !HasConsecutiveSeparators(input, DEFAULT_SEPARATORS)
    ensures Add(input) == Err(NaN)
  {
    var pieces := Split(input, DEFAULT_SEPARATORS);
    assert pieces[0] == [];
    assert Trim(pieces[0]) == [];
    assert ParseI64([]).None?;
    assert ParseTokens(pieces).None?;
  }

  /** The custom header is taken as four characters without looking at the
      fourth: replacing it changes nothing. */
  lemma HeaderFourthCharIgnored(input: string, c: char)
    requires StartsWithMarker(input) && |input| >= 4
    ensures Add(input[3 := c]) == Add(input)
  {
    var other := input[3 := c];
    assert other[..2] == input[..2] && other[2] == input[2];
    assert CustomBody(other) == CustomBody(input);
  }

  /** Two pieces that both parse give the two values, in order. */
  lemma ParsePair(x: string, y: string, a: int, b: int)
    requires ParseI64(Trim(x)) == Some(a) && ParseI64(Trim(y)) == Some(b)
    ensures ParseTokens([x, y]) == Some([a, b])
  {
    forall k | 0 <= k < 2
      ensures ParseI64(Trim([x, y][k])) == Some([a, b][k])
    {
      if k == 0 {
        assert [x, y][k] == x && [a, b][k] == a;
      } else {
        assert [x, y][k] == y && [a, b][k] == b;
      }
    }
    ParsePointwise([x, y], [a, b]);
  }

  /** The normalised sum of two values. */
  lemma PairSum(a: int, b: int)
    ensures Sum(NormalizeNumbers([a, b])) == (if a <= MAX_KEPT then a else 0) + (if b <= MAX_KEPT then b else 0)
  {
    var p, q := if a <= MAX_KEPT then a else 0, if b <= MAX_KEPT then b else 0;
    assert NormalizeNumbers([a, b]) == [p, q];
    assert [p, q][1..] == [q] && [q][1..] == [];
    assert Sum([q]) == q + Sum([]);
  }

  /** Two values hold no negative value exactly when both are at least zero. */
  lemma PairNegatives(a: int, b: int)
    ensures Negatives([a, b]) == [] <==> a >= 0 && b >= 0
  {
    assert [a, b][0] == a && [a, b][1] == b;
  }

  /** The verdict on two values: the normalised sum when neither is negative. */
  lemma PairVerdict(a: int, b: int)
    ensures a >= 0 && b >= 0 ==>
      Verdict([a, b]) == Ok((if a <= MAX_KEPT then a else 0) + (if b <= MAX_KEPT then b else 0))
    ensures a < 0 || b < 0 ==> Verdict([a, b]).Err? && Verdict([a, b]).error.HasNegative?
  {
    PairSum(a, b);
    PairNegatives(a, b);
  }

  /** Swapping the two tokens of a default-path text `x,y` keeps a successful
      sum and keeps a `NaN`; only the order inside `HasNegative` can change. */
  lemma AddSwap(x: string, y: string)
    requires forall c :: c in x ==> c !in DEFAULT_SEPARATORS
    requires forall c :: c in y ==> c !in DEFAULT_SEPARATORS
    requires !StartsWithMarker(x + [','] + y) && !StartsWithMarker(y + [','] + x)
    ensures Add(x + [','] + y).Ok? || Add(y + [','] + x).Ok? ==> Add(x + [','] + y) == Add(y + [','] + x)
    ensures Add(x + [','] + y) == Err(NaN) <==> Add(y + [','] + x) == Err(NaN)
  {
    var xy, yx := x + [','] + y, y + [','] + x;
    assert !HasConsecutiveSeparators(xy, DEFAULT_SEPARATORS) && Split(xy, DEFAULT_SEPARATORS) == [x, y] by {
      assert Join([x, y], ",") == xy;
      NoConsecutiveInJoin([x, y], ",", DEFAULT_SEPARATORS);
      JoinSplit([x, y], ",", DEFAULT_SEPARATORS);
    }
    assert !HasConsecutiveSeparators(yx, DEFAULT_SEPARATORS) && Split(yx, DEFAULT_SEPARATORS) == [y, x] by {
      assert Join([y, x], ",") == yx;
      NoConsecutiveInJoin([y, x], ",", DEFAULT_SEPARATORS);
      JoinSplit([y, x], ",", DEFAULT_SEPARATORS);
    }
    var px, py := ParseI64(Trim(x)), ParseI64(Trim(y));
    if px.Some? && py.Some? {
      var a, b := px.value, py.value;
      ParsePair(x, y, a, b);
      ParsePair(y, x, b, a);
      DefaultPathVerdict(xy, [a, b]);
      DefaultPathVerdict(yx, [b, a]);
      PairVerdict(a, b);
      PairVerdict(b, a);
    } else {
      assert ParseTokens([x, y]).None? by {
        assert [x, y][0] == x && [x, y][1] == y;
      }
      assert ParseTokens([y, x]).None? by {
        assert [y, x][0] == y && [y, x][1] == x;
      }
    }
  }

  /** With a header separator the regex crate rejects and a non-empty body,
      `add` as written panics exactly when the consecutive-separator check
      lets the body through. */
  lemma AsWrittenPanics(input: string)
    requires StartsWithMarker(input) && |input| >= 5 && BreaksCharClass(input[2])
    ensures AddAsWritten(input) == None <==> Add(input) != Err(ConsecutiveSeparators)
  {
    assert !CharClassCompiles([input[2]]) by {
      assert input[2] in [input[2]];
    }
  }
}
