/** The string calculator: `add` turns a delimited text into the sum of its
    integers, or into one of the classified `AddError`s. */
module Calculator {
  import opened Text

  /** The four ways `add` can fail. */
  datatype AddError =
    | ConsecutiveSeparators
    | InvalidInput
    | NaN
    | HasNegative(negatives: seq<int>)

  /** Rust's `Result<T, AddError>`. */
  datatype Result<T> = Ok(value: T) | Err(error: AddError)

  /** Tokens above this bound are replaced by zero. */
  const MAX_KEPT: int := 1000

  /** The separators used when no custom header is given. */
  const DEFAULT_SEPARATORS: seq<char> := [',', '\n']

  /** The prefix that announces a custom separator header `//<c>\n`. */
  const CUSTOM_MARKER: string := "//"

  // ---------------------------------------------------------------------------
  // check_negatives
  // ---------------------------------------------------------------------------

  /** The values of `ns` that are below zero, in their original order. */
  function Negatives(ns: seq<int>): (xs: seq<int>)
    ensures |xs| <= |ns|
    ensures forall x :: x in xs ==> x < 0 && x in ns
    ensures forall i :: 0 <= i < |ns| && ns[i] < 0 ==> ns[i] in xs
    ensures xs == [] <==> forall i :: 0 <= i < |ns| ==> ns[i] >= 0
  {
    if ns == [] then []
    else (if ns[0] < 0 then [ns[0]] else []) + Negatives(ns[1..])
  }

  /** `Negatives` is a filter: it distributes over concatenation, so together
      with its action on a single value it keeps exactly the negative values in
      their original order. */
  lemma {:induction false} NegativesConcat(a: seq<int>, b: seq<int>)
    ensures Negatives(a + b) == Negatives(a) + Negatives(b)
  {
    if a == [] {
      assert a + b == b;
    } else {
      assert (a + b)[0] == a[0];
      assert (a + b)[1..] == a[1..] + b;
      NegativesConcat(a[1..], b);
    }
  }

  /** `check_negatives`: succeeds exactly when no value is negative, and
      otherwise reports all the negative values, in order. */
  function CheckNegatives(ns: seq<int>): (r: Result<()>)
    ensures r.Ok? <==> forall i :: 0 <= i < |ns| ==> ns[i] >= 0
    ensures r.Err? ==> r.error == HasNegative(Negatives(ns)) && r.error.negatives != []
  {
    var negatives := Negatives(ns);
    if negatives != [] then Err(HasNegative(negatives)) else Ok(())
  }

  // ---------------------------------------------------------------------------
  // check_consecutive_separators
  // ---------------------------------------------------------------------------

  /** A character the scan treats as a separator. The scan skips spaces before
      it looks at the separator list, so a space never counts, even when it is
      the separator. */
  predicate IsSeparatorChar(c: char, seps: seq<char>) {
    c != ' ' && c in seps
  }

  /** Only spaces stand strictly between positions `i` and `j` of `s`. */
  predicate OnlySpacesBetween(s: string, i: int, j: int)
    requires 0 <= i && j <= |s|
  {
    forall k :: i < k < j ==> s[k] == ' '
  }

  /** Positions `i < j` hold separators with nothing but spaces between them. */
  predicate AdjacentSeparators(s: string, seps: seq<char>, i: int, j: int) {
    && 0 <= i < j < |s|
    && IsSeparatorChar(s[i], seps)
    && IsSeparatorChar(s[j], seps)
    && OnlySpacesBetween(s, i, j)
  }

  /** The condition `check_consecutive_separators` rejects: some two separators
      of `s` have only spaces between them. */
  predicate HasConsecutiveSeparators(s: string, seps: seq<char>) {
    exists i, j | 0 <= i < j < |s| :: AdjacentSeparators(s, seps, i, j)
  }

  /** The last character of `s[..i]` that is not a space is a separator. */
  predicate EndsWithSeparator(s: string, seps: seq<char>, i: int)
    requires 0 <= i <= |s|
  {
    exists a :: 0 <= a < i && IsSeparatorChar(s[a], seps) && OnlySpacesBetween(s, a, i)
  }

  /** `check_consecutive_separators`: a left-to-right scan that skips spaces and
      remembers whether the last other character was a separator; it fails on
      the second separator of an adjacent pair, and otherwise succeeds. */
  method CheckConsecutiveSeparators(input: string, seps: seq<char>) returns (r: Result<()>)
    ensures r == Err(ConsecutiveSeparators) <==> HasConsecutiveSeparators(input, seps)
    ensures r.Ok? <==> !HasConsecutiveSeparators(input, seps)
  {
    var isSeparatorDetected := false;
    for i := 0 to |input|
      invariant forall a, b :: 0 <= a < b < i ==> !AdjacentSeparators(input, seps, a, b)
      invariant isSeparatorDetected <==> EndsWithSeparator(input, seps, i)
    {
      var c := input[i];
      if c == ' ' {
        continue;
      }
      if c in seps {
        if isSeparatorDetected {
          ghost var a :| 0 <= a < i && IsSeparatorChar(input[a], seps) && OnlySpacesBetween(input, a, i);
          assert AdjacentSeparators(input, seps, a, i);
          return Err(ConsecutiveSeparators);
        }
        isSeparatorDetected := true;
        continue;
      }
      isSeparatorDetected := false;
    }
    return Ok(());
  }

  /** The same scan as a fold over the text, starting from the flag `detected`;
      true when the scan would fail. */
  function Scan(s: string, seps: seq<char>, detected: bool): bool {
    if s == [] then false
    else if s[0] == ' ' then Scan(s[1..], seps, detected)
    else if s[0] in seps then detected || Scan(s[1..], seps, true)
    else Scan(s[1..], seps, false)
  }

  lemma {:induction false} ScanFrom(s: string, seps: seq<char>, i: int, detected: bool)
    requires 0 <= i <= |s|
    requires forall a, b :: 0 <= a < b < i ==> !AdjacentSeparators(s, seps, a, b)
    requires detected <==> EndsWithSeparator(s, seps, i)
    ensures Scan(s[i..], seps, detected) == HasConsecutiveSeparators(s, seps)
    decreases |s| - i
  {
    if i == |s| {
      assert s[i..] == [];
    } else {
      var c := s[i];
      assert s[i..][0] == c && s[i..][1..] == s[i + 1..];
      if c == ' ' {
        if EndsWithSeparator(s, seps, i) {
          var a :| 0 <= a < i && IsSeparatorChar(s[a], seps) && OnlySpacesBetween(s, a, i);
          assert OnlySpacesBetween(s, a, i + 1);
        }
        ScanFrom(s, seps, i + 1, detected);
      } else if c in seps {
        if detected {
          var a :| 0 <= a < i && IsSeparatorChar(s[a], seps) && OnlySpacesBetween(s, a, i);
          assert AdjacentSeparators(s, seps, a, i);
        } else {
          assert OnlySpacesBetween(s, i, i + 1);
          ScanFrom(s, seps, i + 1, true);
        }
      } else {
        ScanFrom(s, seps, i + 1, false);
      }
    }
  }

  /** The fold decides exactly the declarative condition. */
  lemma ScanDecides(s: string, seps: seq<char>)
    ensures Scan(s, seps, false) == HasConsecutiveSeparators(s, seps)
  {
    ScanFrom(s, seps, 0, false);
    assert s[0..] == s;
  }

  /** `p` holds a character that clears the scan's flag. */
  predicate HasBlocker(p: string, seps: seq<char>) {
    exists k :: 0 <= k < |p| && p[k] != ' ' && p[k] !in seps
  }

  /** Scanning across a separator-free stretch `p` only clears the flag, and
      only when `p` holds a character other than a space. */
  lemma {:induction false} ScanAcrossPiece(p: string, t: string, seps: seq<char>, detected: bool)
    requires forall c :: c in p ==> c !in seps
    ensures Scan(p + t, seps, detected) == Scan(t, seps, detected && !HasBlocker(p, seps))
  {
    if p == [] {
      assert p + t == t;
    } else {
      var s := p + t;
      assert s[0] == p[0] && p[0] in p;
      assert s[1..] == p[1..] + t;
      ScanAcrossPiece(p[1..], t, seps, if p[0] == ' ' then detected else false);
      if p[0] == ' ' {
        assert HasBlocker(p, seps) <==> HasBlocker(p[1..], seps) by {
          if HasBlocker(p, seps) {
            var k :| 0 <= k < |p| && p[k] != ' ' && p[k] !in seps;
            assert p[1..][k - 1] == p[k];
          }
          if HasBlocker(p[1..], seps) {
            var k :| 0 <= k < |p[1..]| && p[1..][k] != ' ' && p[1..][k] !in seps;
            assert p[k + 1] == p[1..][k];
          }
        }
      } else {
        assert HasBlocker(p, seps) by { assert p[0] != ' ' && p[0] !in seps; }
      }
    }
  }

  lemma {:induction false} ScanJoin(pieces: seq<string>, glue: string, seps: seq<char>, detected: bool)
    requires |pieces| == |glue| + 1
    requires forall c :: c in glue ==> IsSeparatorChar(c, seps)
    requires forall k, c :: 0 <= k < |pieces| && c in pieces[k] ==> c !in seps
    requires forall k :: 0 < k < |pieces| - 1 ==> HasBlocker(pieces[k], seps)
    requires detected && glue != [] ==> HasBlocker(pieces[0], seps)
    ensures !Scan(Join(pieces, glue), seps, detected)
  {
    ScanAcrossPiece(pieces[0], [], seps, detected);
    if glue == [] {
      assert pieces[0] + [] == pieces[0];
    } else {
      var tail := Join(pieces[1..], glue[1..]);
      var x := [glue[0]] + tail;
      assert Join(pieces, glue) == pieces[0] + x;
      ScanAcrossPiece(pieces[0], x, seps, detected);
      assert glue[0] in glue;
      assert x[0] == glue[0] && x[1..] == tail;
      ScanJoin(pieces[1..], glue[1..], seps, true);
    }
  }

  /** Separator-free pieces that each hold a character other than a space,
      glued with single separators, never trip the scan. */
  lemma NoConsecutiveInJoin(pieces: seq<string>, glue: string, seps: seq<char>)
    requires |pieces| == |glue| + 1
    requires forall c :: c in glue ==> IsSeparatorChar(c, seps)
    requires forall k, c :: 0 <= k < |pieces| && c in pieces[k] ==> c !in seps
    requires forall k :: 0 < k < |pieces| - 1 ==> HasBlocker(pieces[k], seps)
    ensures !HasConsecutiveSeparators(Join(pieces, glue), seps)
  {
    ScanJoin(pieces, glue, seps, false);
    ScanDecides(Join(pieces, glue), seps);
  }

  // ---------------------------------------------------------------------------
  // normalize_numbers
  // ---------------------------------------------------------------------------

  /** `normalize_numbers`: the same list, in the same order, with every value
      above `MAX_KEPT` replaced by zero. */
  function NormalizeNumbers(ns: seq<int>): (r: seq<int>)
    ensures |r| == |ns|
    ensures forall i :: 0 <= i < |ns| ==> r[i] == (if ns[i] <= MAX_KEPT then ns[i] else 0)
  {
    if ns == [] then []
    else [if ns[0] <= MAX_KEPT then ns[0] else 0] + NormalizeNumbers(ns[1..])
  }

  /** Normalising twice is normalising once. */
  lemma NormalizeIdempotent(ns: seq<int>)
    ensures NormalizeNumbers(NormalizeNumbers(ns)) == NormalizeNumbers(ns)
  {
  }

  /** Normalised non-negative values lie in `[0, MAX_KEPT]`. */
  lemma NormalizeBounds(ns: seq<int>)
    requires forall i :: 0 <= i < |ns| ==> ns[i] >= 0
    ensures forall i :: 0 <= i < |ns| ==> 0 <= NormalizeNumbers(ns)[i] <= MAX_KEPT
  {
  }

  // ---------------------------------------------------------------------------
  // Sums
  // ---------------------------------------------------------------------------

  /** `Iterator::sum` over integers (unbounded; see the bound lemma below). */
  function Sum(ns: seq<int>): int {
    if ns == [] then 0 else ns[0] + Sum(ns[1..])
  }

  lemma {:induction false} SumConcat(a: seq<int>, b: seq<int>)
    ensures Sum(a + b) == Sum(a) + Sum(b)
  {
    if a == [] {
      assert a + b == b;
    } else {
      assert (a + b)[0] == a[0];
      assert (a + b)[1..] == a[1..] + b;
      SumConcat(a[1..], b);
    }
  }

  /** A sum of values in `[0, MAX_KEPT]` lies in `[0, MAX_KEPT * |ns|]`; with
      every token at most 1000 the i64 sum cannot overflow in practice. */
  lemma {:induction false} SumBounds(ns: seq<int>)
    requires forall i :: 0 <= i < |ns| ==> 0 <= ns[i] <= MAX_KEPT
    ensures 0 <= Sum(ns) <= MAX_KEPT * |ns|
  {
    if ns != [] {
      SumBounds(ns[1..]);
    }
  }

  /** Removing the value at `k` takes it out of the sum. */
  lemma {:induction false} SumRemove(b: seq<int>, k: int)
    requires 0 <= k < |b|
    ensures Sum(b) == b[k] + Sum(b[..k] + b[k + 1..])
  {
    if k == 0 {
      assert b[..0] + b[1..] == b[1..];
    } else {
      var tail := b[1..];
      var rest := tail[..k - 1] + tail[k..];
      SumRemove(tail, k - 1);
      assert tail[k - 1] == b[k];
      var c := b[..k] + b[k + 1..];
      assert c != [] && c[0] == b[0];
      assert c[1..] == rest;
    }
  }

  /** Taking the first value of `a` and a matching value of `b` out of two
      equal multisets leaves equal multisets. */
  lemma MultisetRemove(a: seq<int>, b: seq<int>, k: int)
    requires multiset(a) == multiset(b) && a != []
    requires 0 <= k < |b| && b[k] == a[0]
    ensures multiset(a[1..]) == multiset(b[..k] + b[k + 1..])
  {
    assert a == [a[0]] + a[1..];
    assert b == b[..k] + [b[k]] + b[k + 1..];
    assert multiset(a[1..]) == multiset(a) - multiset{a[0]};
    assert multiset(b[..k] + b[k + 1..]) == multiset(b) - multiset{b[k]};
  }

  /** The sum does not depend on the order of the values. */
  lemma {:induction false} SumPermutation(a: seq<int>, b: seq<int>)
    requires multiset(a) == multiset(b)
    ensures Sum(a) == Sum(b)
    decreases |a|
  {
    if a != [] {
      assert a[0] in b by {
        assert a[0] in multiset(a);
      }
      var k :| 0 <= k < |b| && b[k] == a[0];
      MultisetRemove(a, b, k);
      SumPermutation(a[1..], b[..k] + b[k + 1..]);
      SumRemove(b, k);
    } else {
      assert |multiset(b)| == 0;
    }
  }

  /** Overwriting one position trades its old value for the new one. */
  lemma MultisetUpdate(s: seq<int>, i: int, v: int)
    requires 0 <= i < |s|
    ensures multiset(s[i := v]) == multiset(s) - multiset{s[i]} + multiset{v}
  {
  }

  /** Swapping two tokens leaves the sum alone. */
  lemma SumSwap(ns: seq<int>, i: int, j: int)
    requires 0 <= i < |ns| && 0 <= j < |ns|
    ensures Sum(ns[i := ns[j]][j := ns[i]]) == Sum(ns)
  {
    var once := ns[i := ns[j]];
    var swapped := once[j := ns[i]];
    MultisetUpdate(ns, i, ns[j]);
    MultisetUpdate(once, j, ns[i]);
    SumPermutation(swapped, ns);
  }

  // ---------------------------------------------------------------------------
  // tokenizer
  // ---------------------------------------------------------------------------

  /** Number of pieces the tokenizer produces: none for the empty text,
      otherwise one more than the number of separators. */
  function TokenCount(input: string, seps: seq<char>): nat {
    if input == [] then 0 else |SeparatorsIn(input, seps)| + 1
  }

  /** Trimming and parsing every piece, collected into one list; `None` as soon
      as one trimmed piece is not an i64. */
  function ParseTokens(pieces: seq<string>): (r: Option<seq<int>>)
    ensures r.Some? ==> |r.value| == |pieces|
    ensures r.Some? ==> forall i :: 0 <= i < |pieces| ==> ParseI64(Trim(pieces[i])) == Some(r.value[i])
    ensures r.None? <==> exists i :: 0 <= i < |pieces| && ParseI64(Trim(pieces[i])).None?
  {
    if pieces == [] then Some([])
    else
      match ParseI64(Trim(pieces[0]))
      case None => None
      case Some(n) =>
        match ParseTokens(pieces[1..])
        case None => None
        case Some(ns) => Some([n] + ns)
  }

  /** `tokenizer`: the empty text gives no numbers; otherwise the text is split
      on the separator class, each piece is trimmed and parsed (any failure is
      `NaN`), the parsed list goes through the negative check, and what
      survives is normalised. */
  function Tokenizer(input: string, seps: seq<char>): (r: Result<seq<int>>)
    ensures input == [] ==> r == Ok([])
    ensures r.Ok? ==> |r.value| == TokenCount(input, seps)
    ensures r.Ok? ==> forall i :: 0 <= i < |r.value| ==> 0 <= r.value[i] <= MAX_KEPT
    ensures r == Err(NaN) <==> input != [] && ParseTokens(Split(input, seps)).None?
    ensures r.Err? && r.error != NaN ==>
      && ParseTokens(Split(input, seps)).Some?
      && r.error == HasNegative(Negatives(ParseTokens(Split(input, seps)).value))
      && r.error.negatives != []
    ensures r.Ok? && input != [] ==>
      r.value == NormalizeNumbers(ParseTokens(Split(input, seps)).value)
  {
    if input == [] then Ok([])
    else
      match ParseTokens(Split(input, seps))
      case None => Err(NaN)
      case Some(numbers) =>
        match CheckNegatives(numbers)
        case Err(e) => Err(e)
        case Ok(_) =>
          NormalizeBounds(numbers);
          Ok(NormalizeNumbers(numbers))
  }

  // ---------------------------------------------------------------------------
  // handle_custom_separator, handle_default_seperator, add
  // ---------------------------------------------------------------------------

  /** What `input.chars().skip(4)` leaves: the text after the header `//<c>\n`
      (the fourth character is dropped without being looked at). */
  function CustomBody(input: string): (body: string)
    ensures |body| == if |input| <= 4 then 0 else |input| - 4
    ensures forall i :: 0 <= i < |body| ==> body[i] == input[i + 4]
  {
    if |input| <= 4 then [] else input[4..]
  }

  /** `handle_custom_separator`: the separator is the character at index 2
      (`InvalidInput` when there is none); the body after the four-character
      header is checked for consecutive separators first and then tokenized
      with that one separator; its tokens are summed. */
  function HandleCustomSeparator(input: string): (r: Result<int>)
    ensures r == Err(InvalidInput) <==> |input| < 3
    ensures r == Err(ConsecutiveSeparators) <==>
      |input| >= 3 && HasConsecutiveSeparators(CustomBody(input), [input[2]])
    ensures 3 <= |input| <= 4 ==> r == Ok(0)
    ensures r == Err(NaN) <==>
      && |input| > 4
      && !HasConsecutiveSeparators(CustomBody(input), [input[2]])
      && ParseTokens(Split(CustomBody(input), [input[2]])).None?
    ensures r.Err? && r.error.HasNegative? ==>
      && |input| > 4
      && ParseTokens(Split(CustomBody(input), [input[2]])).Some?
      && r.error.negatives == Negatives(ParseTokens(Split(CustomBody(input), [input[2]])).value)
    ensures r.Ok? && |input| > 4 ==>
      && ParseTokens(Split(CustomBody(input), [input[2]])).Some?
      && r.value == Sum(NormalizeNumbers(ParseTokens(Split(CustomBody(input), [input[2]])).value))
    ensures r.Ok? ==> 0 <= r.value <= MAX_KEPT * TokenCount(CustomBody(input), [input[2]])
  {
    if |input| < 3 then Err(InvalidInput)
    else
      var sep := input[2];
      var s := CustomBody(input);
      if HasConsecutiveSeparators(s, [sep]) then Err(ConsecutiveSeparators)
      else
        match Tokenizer(s, [sep])
        case Err(e) => Err(e)
        case Ok(tokens) =>
          SumBounds(tokens);
          Ok(Sum(tokens))
  }

  /** `handle_default_seperator`: the whole text is checked for consecutive
      commas/newlines first, then tokenized on both; its tokens are summed. */
  function HandleDefaultSeparator(input: string): (r: Result<int>)
    ensures r == Err(ConsecutiveSeparators) <==> HasConsecutiveSeparators(input, DEFAULT_SEPARATORS)
    ensures r != Err(InvalidInput)
    ensures input == [] ==> r == Ok(0)
    ensures r == Err(NaN) <==>
      && input != []
      && !HasConsecutiveSeparators(input, DEFAULT_SEPARATORS)
      && ParseTokens(Split(input, DEFAULT_SEPARATORS)).None?
    ensures r.Err? && r.error.HasNegative? ==>
      && ParseTokens(Split(input, DEFAULT_SEPARATORS)).Some?
      && r.error.negatives == Negatives(ParseTokens(Split(input, DEFAULT_SEPARATORS)).value)
    ensures r.Ok? && input != [] ==>
      && ParseTokens(Split(input, DEFAULT_SEPARATORS)).Some?
      && r.value == Sum(NormalizeNumbers(ParseTokens(Split(input, DEFAULT_SEPARATORS)).value))
    ensures r.Ok? ==> 0 <= r.value <= MAX_KEPT * TokenCount(input, DEFAULT_SEPARATORS)
  {
    if HasConsecutiveSeparators(input, DEFAULT_SEPARATORS) then Err(ConsecutiveSeparators)
    else
      match Tokenizer(input, DEFAULT_SEPARATORS)
      case Err(e) => Err(e)
      case Ok(tokens) =>
        SumBounds(tokens);
        Ok(Sum(tokens))
  }

  /** The text announces a custom separator. */
  predicate StartsWithMarker(input: string) {
    |input| >= 2 && input[..2] == CUSTOM_MARKER
  }

  /** `add`: texts that start with `//` take the custom path, all others the
      default path. */
  function Add(input: string): (r: Result<int>)
    ensures r == Err(InvalidInput) <==> input == CUSTOM_MARKER
    ensures r == Err(ConsecutiveSeparators) <==>
      if StartsWithMarker(input)
      then |input| >= 3 && HasConsecutiveSeparators(CustomBody(input), [input[2]])
      else HasConsecutiveSeparators(input, DEFAULT_SEPARATORS)
    ensures input == [] ==> r == Ok(0)
    ensures r.Ok? ==> r.value >= 0
  {
    if StartsWithMarker(input) then HandleCustomSeparator(input)
    else HandleDefaultSeparator(input)
  }

  // ---------------------------------------------------------------------------
  // The regex pattern as written
  // ---------------------------------------------------------------------------

  // `tokenizer` builds its splitter with `Regex::new(&format!("[{sep}]"))
  // .unwrap()`, splicing the separator into a character class unescaped. The
  // functions above split on the separator as a plain character (as if it had
  // been escaped); what follows models the pattern as written, which panics.

  /** Characters that make the regex crate reject the class pattern `[c]`
      (`[[]` and `[\]` are unterminated, `[^]` is an empty negation), so that
      `Regex::new(..).unwrap()` panics. */
  predicate BreaksCharClass(c: char) {
    c == '[' || c == '\\' || c == '^'
  }

  /** The pattern `[seps]` compiles. */
  predicate CharClassCompiles(seps: seq<char>) {
    forall c :: c in seps ==> !BreaksCharClass(c)
  }

  /** The inputs on which the custom path panics: a header separator the regex
      crate rejects, a consecutive-separator check that passes, and a body that
      is not empty (the tokenizer returns before building the pattern when it
      is). */
  predicate CustomPathPanics(input: string) {
    |input| >= 3 && !CharClassCompiles([input[2]]) && CustomBody(input) != []
    && !HasConsecutiveSeparators(CustomBody(input), [input[2]])
  }

  /** `add` as written: `None` stands for the panic of `unwrap`, which happens
      exactly on the custom path when the pattern is rejected; everywhere else
      it returns what `Add` returns. */
  function AddAsWritten(input: string): (r: Option<Result<int>>)
    ensures r.None? <==> StartsWithMarker(input) && CustomPathPanics(input)
    ensures r.None? ==> |input| >= 5
    ensures r.Some? ==> r.value == Add(input)
  {
    if StartsWithMarker(input) && CustomPathPanics(input) then None else Some(Add(input))
  }
}
