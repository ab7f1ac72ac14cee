/** Character-level helpers the calculator relies on: splitting on a character
    class, trimming whitespace, and reading and writing signed 64-bit decimals.
    They stand in for `Regex::split`, `str::trim` and `str::parse::<i64>`. */
module Text {

  datatype Option<T> = None | Some(value: T)

  // ---------------------------------------------------------------------------
  // Whitespace and trimming
  // ---------------------------------------------------------------------------

  /** The Unicode White_Space property, which `char::is_whitespace` (and so
      `str::trim`) uses: U+0009..U+000D, U+0020, U+0085, U+00A0, U+1680,
      U+2000..U+200A, U+2028, U+2029, U+202F, U+205F and U+3000. */
  predicate IsWhitespace(c: char) {
    || ('\U{0009}' <= c <= '\U{000D}')
    || c == ' '
    || c == '\U{0085}'
    || c == '\U{00A0}'
    || c == '\U{1680}'
    || ('\U{2000}' <= c <= '\U{200A}')
    || c == '\U{2028}'
    || c == '\U{2029}'
    || c == '\U{202F}'
    || c == '\U{205F}'
    || c == '\U{3000}'
  }

  /** Drops leading whitespace (see `TrimStartSpec`). */
  function TrimStart(s: string): string {
    if s == [] || !IsWhitespace(s[0]) then s else TrimStart(s[1..])
  }

  /** Drops trailing whitespace (see `TrimEndSpec`). */
  function TrimEnd(s: string): string {
    if s == [] || !IsWhitespace(s[|s| - 1]) then s else TrimEnd(s[..|s| - 1])
  }

  /** `str::trim`: both ends stripped of whitespace (see `TrimSpec`). */
  function Trim(s: string): string {
    TrimEnd(TrimStart(s))
  }

  /** `TrimStart` keeps the longest suffix of `s` that does not start with
      whitespace, and everything it drops is whitespace. */
  lemma {:induction false} TrimStartSpec(s: string)
    ensures var r := TrimStart(s);
      && |r| <= |s| && r == s[|s| - |r|..]
      && (forall i :: 0 <= i < |s| - |r| ==> IsWhitespace(s[i]))
      && (r == [] || !IsWhitespace(r[0]))
  {
    if s != [] && IsWhitespace(s[0]) {
      var r := TrimStart(s[1..]);
      TrimStartSpec(s[1..]);
      assert TrimStart(s) == r;
      assert s[1..][|s| - 1 - |r|..] == s[|s| - |r|..];
      forall i | 0 <= i < |s| - |r|
        ensures IsWhitespace(s[i])
      {
        if i > 0 {
          assert s[i] == s[1..][i - 1];
        }
      }
    }
  }

  /** `TrimEnd` keeps the longest prefix of `s` that does not end with
      whitespace, and everything it drops is whitespace. */
  lemma {:induction false} TrimEndSpec(s: string)
    ensures var r := TrimEnd(s);
      && |r| <= |s| && r == s[..|r|]
      && (forall i :: |r| <= i < |s| ==> IsWhitespace(s[i]))
      && (r == [] || !IsWhitespace(r[|r| - 1]))
  {
    if s != [] && IsWhitespace(s[|s| - 1]) {
      TrimEndSpec(s[..|s| - 1]);
    }
  }

  /** `r` is the slice of `s` starting at `a`, and `s` holds only whitespace
      outside that slice. */
  predicate IsTrimmedSlice(s: string, a: int, r: string) {
    && 0 <= a <= |s| - |r|
    && r == s[a..a + |r|]
    && (forall i :: 0 <= i < a ==> IsWhitespace(s[i]))
    && (forall i :: a + |r| <= i < |s| ==> IsWhitespace(s[i]))
  }

  /** `Trim` gives a contiguous slice of `s` with whitespace only outside it
      and no whitespace at either end of it. */
  lemma TrimSpec(s: string)
    ensures var r := Trim(s);
      && |r| <= |s|
      && (r == [] || (!IsWhitespace(r[0]) && !IsWhitespace(r[|r| - 1])))
      && exists a :: IsTrimmedSlice(s, a, r)
  {
    var t := TrimStart(s);
    var r := TrimEnd(t);
    TrimStartSpec(s);
    TrimEndSpec(t);
    var a := |s| - |t|;
    assert r == s[a..a + |r|] by {
      assert t == s[a..];
      assert r == t[..|r|];
    }
    forall i | a + |r| <= i < |s|
      ensures IsWhitespace(s[i])
    {
      assert s[i] == t[i - a];
    }
    assert IsTrimmedSlice(s, a, r);
  }

  /** A string with no whitespace at either end is left alone by `Trim`. */
  lemma TrimNoOp(s: string)
    requires s == [] || (!IsWhitespace(s[0]) && !IsWhitespace(s[|s| - 1]))
    ensures Trim(s) == s
  {
  }

  // ---------------------------------------------------------------------------
  // Splitting on a character class
  // ---------------------------------------------------------------------------

  /** The characters of `s` that belong to the class `seps`, in order. */
  function SeparatorsIn(s: string, seps: seq<char>): (glue: string)
    ensures |glue| <= |s|
    ensures forall i :: 0 <= i < |glue| ==> glue[i] in seps
  {
    if s == [] then []
    else (if s[0] in seps then [s[0]] else []) + SeparatorsIn(s[1..], seps)
  }

  /** `Regex::split` with the pattern `[seps]`: every character of the class is a
      split point, so `k` separators give `k + 1` pieces, empty ones included
      (`SplitJoin` and `JoinSplit` relate it to `Join`). */
  function Split(s: string, seps: seq<char>): (pieces: seq<string>)
    ensures |pieces| == |SeparatorsIn(s, seps)| + 1
  {
    if s == [] then [[]]
    else
      var rest := Split(s[1..], seps);
      if s[0] in seps then [[]] + rest
      else [[s[0]] + rest[0]] + rest[1..]
  }

  /** The inverse of `Split`: the pieces interleaved with the separators. */
  function Join(pieces: seq<string>, glue: string): (s: string)
    requires |pieces| == |glue| + 1
    ensures |s| == |glue| + SumOfLengths(pieces)
  {
    if glue == [] then pieces[0]
    else pieces[0] + [glue[0]] + Join(pieces[1..], glue[1..])
  }

  function SumOfLengths(pieces: seq<string>): nat {
    if pieces == [] then 0 else |pieces[0]| + SumOfLengths(pieces[1..])
  }

  lemma {:induction false} JoinPrepend(c: char, pieces: seq<string>, glue: string)
    requires |pieces| == |glue| + 1
    ensures Join([[c] + pieces[0]] + pieces[1..], glue) == [c] + Join(pieces, glue)
  {
    var ps := [[c] + pieces[0]] + pieces[1..];
    assert ps[1..] == pieces[1..];
  }

  /** Splitting loses nothing: joining the pieces back with the separators that
      were found gives the original text. */
  lemma {:induction false} SplitJoin(s: string, seps: seq<char>)
    ensures Join(Split(s, seps), SeparatorsIn(s, seps)) == s
  {
    if s != [] {
      var rest := Split(s[1..], seps);
      SplitJoin(s[1..], seps);
      if s[0] in seps {
        assert Split(s, seps) == [[]] + rest;
        assert SeparatorsIn(s, seps) == [s[0]] + SeparatorsIn(s[1..], seps);
        assert ([[]] + rest)[1..] == rest;
        calc {
          Join(Split(s, seps), SeparatorsIn(s, seps));
          [] + [s[0]] + Join(rest, SeparatorsIn(s[1..], seps));
          [s[0]] + s[1..];
          s;
        }
      } else {
        assert SeparatorsIn(s, seps) == SeparatorsIn(s[1..], seps);
        JoinPrepend(s[0], rest, SeparatorsIn(s[1..], seps));
        assert [s[0]] + s[1..] == s;
      }
    }
  }

  /** The last piece of a text that ends with a separator is empty. */
  lemma {:induction false} SplitTrailingSeparator(s: string, seps: seq<char>)
    requires s != [] && s[|s| - 1] in seps
    ensures |Split(s, seps)| >= 2
    ensures Split(s, seps)[|Split(s, seps)| - 1] == []
  {
    var rest := Split(s[1..], seps);
    if |s| == 1 {
      assert s[1..] == [];
      assert Split(s, seps) == [[]] + [[]];
    } else {
      assert |rest| >= 2 && rest[|rest| - 1] == [] by {
        assert s[1..][|s[1..]| - 1] == s[|s| - 1];
        SplitTrailingSeparator(s[1..], seps);
      }
      if s[0] in seps {
        assert Split(s, seps) == [[]] + rest;
      } else {
        SplitStep(s, seps);
      }
    }
  }

  /** Splitting a text that opens with a separator-free stretch `a`: `a` is the
      start of the first piece and the rest is split as before. */
  lemma {:induction false} SplitFreePrefix(a: string, t: string, seps: seq<char>)
    requires forall c :: c in a ==> c !in seps
    ensures Split(a + t, seps) == [a + Split(t, seps)[0]] + Split(t, seps)[1..]
  {
    var st := Split(t, seps);
    if a == [] {
      assert a + t == t;
      assert a + st[0] == st[0];
      assert st == [st[0]] + st[1..];
    } else {
      assert (a + t)[0] == a[0] && a[0] !in seps by {
        assert a[0] in a;
      }
      assert (a + t)[1..] == a[1..] + t;
      calc {
        Split(a + t, seps);
      == { SplitStep(a + t, seps); }
        [[a[0]] + Split(a[1..] + t, seps)[0]] + Split(a[1..] + t, seps)[1..];
      == { SplitFreePrefix(a[1..], t, seps); }
        [[a[0]] + (a[1..] + st[0])] + st[1..];
      == { assert [a[0]] + (a[1..] + st[0]) == a + st[0]; }
        [a + st[0]] + st[1..];
      }
    }
  }

  /** One step of `Split` over a character that is not a separator. */
  lemma SplitStep(s: string, seps: seq<char>)
    requires s != [] && s[0] !in seps
    ensures Split(s, seps) == [[s[0]] + Split(s[1..], seps)[0]] + Split(s[1..], seps)[1..]
  {
  }

  /** The converse of `SplitJoin`: pieces free of separators, glued with
      separators, split back into exactly those pieces. */
  lemma {:induction false} JoinSplit(pieces: seq<string>, glue: string, seps: seq<char>)
    requires |pieces| == |glue| + 1
    requires forall c :: c in glue ==> c in seps
    requires forall k, c :: 0 <= k < |pieces| && c in pieces[k] ==> c !in seps
    ensures Split(Join(pieces, glue), seps) == pieces
  {
    if glue == [] {
      SplitFreePrefix(pieces[0], [], seps);
      assert pieces[0] + [] == pieces[0];
    } else {
      var tail := Join(pieces[1..], glue[1..]);
      JoinSplit(pieces[1..], glue[1..], seps);
      assert Join(pieces, glue) == pieces[0] + ([glue[0]] + tail);
      assert ([glue[0]] + tail)[1..] == tail;
      assert Split([glue[0]] + tail, seps) == [[]] + pieces[1..];
      SplitFreePrefix(pieces[0], [glue[0]] + tail, seps);
      assert pieces[0] + [] == pieces[0];
    }
  }

  // ---------------------------------------------------------------------------
  // Signed 64-bit decimals
  // ---------------------------------------------------------------------------

  const I64_MIN: int := -0x8000_0000_0000_0000
  const I64_MAX: int := 0x7FFF_FFFF_FFFF_FFFF

  predicate IsDigit(c: char) {
    '0' <= c <= '9'
  }

  predicate AllDigits(s: string) {
    forall i :: 0 <= i < |s| ==> IsDigit(s[i])
  }

  function DigitValue(c: char): (d: nat)
    requires IsDigit(c)
    ensures d < 10
  {
    c as int - '0' as int
  }

  function DigitChar(d: nat): (c: char)
    requires d < 10
    ensures IsDigit(c) && DigitValue(c) == d
  {
    ('0' as int + d) as char
  }

  /** The value of a string of decimal digits, most significant first. */
  function DigitsValue(ds: string): nat
    requires AllDigits(ds)
  {
    if ds == [] then 0
    else DigitsValue(ds[..|ds| - 1]) * 10 + DigitValue(ds[|ds| - 1])
  }

  /** The lexical shape `str::parse::<i64>` accepts: an optional `+` or `-`
      followed by one or more ASCII digits. */
  predicate IsIntegerLiteral(s: string) {
    var digits := if s != [] && (s[0] == '+' || s[0] == '-') then s[1..] else s;
    digits != [] && AllDigits(digits)
  }

  /** `str::parse::<i64>`: a well-shaped literal whose signed value lies in the
      i64 range; anything else, the empty string included, is an error
      (`None`). */
  function ParseI64(s: string): (r: Option<int>)
    ensures r.Some? ==> IsIntegerLiteral(s) && I64_MIN <= r.value <= I64_MAX
    ensures r.Some? && r.value < 0 ==> s[0] == '-'
    ensures !IsIntegerLiteral(s) ==> r.None?
  {
    var digits := if s != [] && (s[0] == '+' || s[0] == '-') then s[1..] else s;
    if digits == [] || !AllDigits(digits) then None
    else
      var m: int := DigitsValue(digits);
      var v := if s[0] == '-' then -m else m;
      if I64_MIN <= v <= I64_MAX then Some(v) else None
  }

  /** Decimal rendering of a natural number (what `format!("{}", n)` prints). */
  function ShowNat(n: nat): (s: string)
    ensures s != [] && AllDigits(s)
  {
    if n < 10 then [DigitChar(n)] else ShowNat(n / 10) + [DigitChar(n % 10)]
  }

  /** Decimal rendering of an integer, with a leading `-` when negative. */
  function ShowInt(n: int): (s: string)
    ensures s != [] && (s[0] == '-' <==> n < 0)
  {
    if n < 0 then "-" + ShowNat(-n) else ShowNat(n)
  }

  lemma {:induction false} ShowNatValue(n: nat)
    ensures DigitsValue(ShowNat(n)) == n
  {
    if n >= 10 {
      var s := ShowNat(n);
      ShowNatValue(n / 10);
      assert s[..|s| - 1] == ShowNat(n / 10);
    }
  }

  /** Reading back what was written: every i64 survives `ShowInt` then
      `ParseI64`. */
  lemma ParseShow(n: int)
    requires I64_MIN <= n <= I64_MAX
    ensures ParseI64(ShowInt(n)) == Some(n)
  {
    var s := ShowInt(n);
    if n < 0 {
      var m: nat := -n;
      ShowNatValue(m);
      assert s[1..] == ShowNat(m);
      assert s[0] == '-';
    } else {
      ShowNatValue(n);
      assert IsDigit(s[0]);
    }
  }
}
