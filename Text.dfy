/** The string operations of JavaScript that the booking wizard relies on,
    written out over `seq<char>`: the whitespace class shared by `\s` and
    `String.prototype.trim`, decimal rendering and parsing of hours,
    `padStart(2, '0')`, `split`, `includes` and an ASCII `toLowerCase`. */
module Text {
  import opened Seqs

  /** JavaScript's WhiteSpace and LineTerminator code points: the set that
      both the regular-expression class `\s` and `trim` use. */
  predicate IsJsWhitespace(c: char)
  {
    var n := c as int;
    n == 0x09 || n == 0x0A || n == 0x0B || n == 0x0C || n == 0x0D || n == 0x20
    || n == 0xA0 || n == 0x1680 || (0x2000 <= n <= 0x200A)
    || n == 0x2028 || n == 0x2029 || n == 0x202F || n == 0x205F
    || n == 0x3000 || n == 0xFEFF
  }

  predicate IsDigit(c: char)
  {
    '0' <= c <= '9'
  }

  predicate AllDigits(s: string)
  {
    forall i :: 0 <= i < |s| ==> IsDigit(s[i])
  }

  /** A run of whitespace, such as a user types around a form field. */
  predicate AllWhitespace(s: string)
  {
    forall i :: 0 <= i < |s| ==> IsJsWhitespace(s[i])
  }

  // ---------------------------------------------------------------- trim

  function TrimStart(s: string): string
  {
    if s != [] && IsJsWhitespace(s[0]) then TrimStart(s[1..]) else s
  }

  function TrimEnd(s: string): string
  {
    if s != [] && IsJsWhitespace(s[|s| - 1]) then TrimEnd(s[..|s| - 1]) else s
  }

  /** `String.prototype.trim`. */
  function Trim(s: string): string
  {
    TrimEnd(TrimStart(s))
  }

  /** `TrimStart` removes a whitespace-only prefix and stops at the first
      other character. */
  lemma {:induction false} TrimStartSpec(s: string)
    ensures var r := TrimStart(s);
      && |r| <= |s| && r == s[|s| - |r|..]
      && (forall i :: 0 <= i < |s| - |r| ==> IsJsWhitespace(s[i]))
      && (r == [] || !IsJsWhitespace(r[0]))
  {
    if s != [] && IsJsWhitespace(s[0]) {
      var t := s[1..];
      TrimStartSpec(t);
      var r := TrimStart(t);
      assert TrimStart(s) == r;
      assert t[|t| - |r|..] == s[|s| - |r|..];
      forall i | 0 < i < |s| - |r| ensures IsJsWhitespace(s[i]) {
        assert s[i] == t[i - 1];
      }
    }
  }

  /** `TrimEnd` removes a whitespace-only suffix and stops at the last
      other character. */
  lemma {:induction false} TrimEndSpec(s: string)
    ensures var r := TrimEnd(s);
      && |r| <= |s| && r == s[..|r|]
      && (forall i :: |r| <= i < |s| ==> IsJsWhitespace(s[i]))
      && (r == [] || !IsJsWhitespace(r[|r| - 1]))
  {
    if s != [] && IsJsWhitespace(s[|s| - 1]) {
      var t := s[..|s| - 1];
      TrimEndSpec(t);
      var r := TrimEnd(t);
      assert TrimEnd(s) == r;
      assert t[..|r|] == s[..|r|];
      forall i | |r| <= i < |s| - 1 ensures IsJsWhitespace(s[i]) {
        assert s[i] == t[i];
      }
    }
  }

  /** The trimmed string is the input with a whitespace-only prefix and a
      whitespace-only suffix removed, and it neither starts nor ends with
      whitespace. */
  lemma {:induction false} TrimShape(s: string)
    ensures var r := Trim(s);
      exists a, b ::
        0 <= a <= b <= |s| && r == s[a..b]
        && (forall i :: 0 <= i < a ==> IsJsWhitespace(s[i]))
        && (forall i :: b <= i < |s| ==> IsJsWhitespace(s[i]))
    ensures Trim(s) == [] || (!IsJsWhitespace(Trim(s)[0]) && !IsJsWhitespace(Trim(s)[|Trim(s)| - 1]))
  {
    var t := TrimStart(s);
    var r := TrimEnd(t);
    TrimStartSpec(s);
    TrimEndSpec(t);
    TrimSlice(s, t, r);
    if r != [] {
      assert r[0] == t[0];
    }
  }

  /** A whitespace prefix of `s` cut off to give `t`, then a whitespace
      suffix of `t` cut off to give `r`: `r` is a slice of `s` between two
      whitespace runs. */
  lemma {:induction false} TrimSlice(s: string, t: string, r: string)
    requires |t| <= |s| && t == s[|s| - |t|..]
    requires forall i :: 0 <= i < |s| - |t| ==> IsJsWhitespace(s[i])
    requires |r| <= |t| && r == t[..|r|]
    requires forall i :: |r| <= i < |t| ==> IsJsWhitespace(t[i])
    ensures var a, b := |s| - |t|, |s| - |t| + |r|;
      && 0 <= a <= b <= |s| && r == s[a..b]
      && (forall i :: 0 <= i < a ==> IsJsWhitespace(s[i]))
      && (forall i :: b <= i < |s| ==> IsJsWhitespace(s[i]))
  {
    var a := |s| - |t|;
    forall i | a + |r| <= i < |s| ensures IsJsWhitespace(s[i]) {
      assert s[i] == t[i - a];
    }
  }

  lemma {:induction false} TrimStartNoLeading(s: string)
    requires s == [] || !IsJsWhitespace(s[0])
    ensures TrimStart(s) == s
  {
  }

  lemma {:induction false} TrimEndNoTrailing(s: string)
    requires s == [] || !IsJsWhitespace(s[|s| - 1])
    ensures TrimEnd(s) == s
  {
  }

  /** Trimming twice is trimming once. */
  lemma TrimIdempotent(s: string)
    ensures Trim(Trim(s)) == Trim(s)
  {
    var r := Trim(s);
    TrimShape(s);
    TrimStartNoLeading(r);
    TrimEndNoTrailing(r);
  }

  // ----------------------------------------------------- decimal numerals

  function DigitChar(d: nat): (c: char)
    requires d < 10
    ensures IsDigit(c) && (c as int) - ('0' as int) == d
  {
    ('0' as int + d) as char
  }

  function DigitValue(c: char): (d: nat)
    requires IsDigit(c)
    ensures d < 10 && DigitChar(d) == c
  {
    (c as int) - ('0' as int)
  }

  /** `Number.prototype.toString()` of a non-negative integer. */
  function Decimal(n: nat): (r: string)
    ensures |r| >= 1 && AllDigits(r)
    ensures n < 10 <==> |r| == 1
  {
    if n < 10 then [DigitChar(n)] else Decimal(n / 10) + [DigitChar(n % 10)]
  }

  /** The value of a string of decimal digits (leading zeros allowed). */
  function DigitsValue(s: string): nat
    requires AllDigits(s)
  {
    if s == [] then 0 else 10 * DigitsValue(s[..|s| - 1]) + DigitValue(s[|s| - 1])
  }

  /** Parsing a rendered number gives the number back. */
  lemma {:induction false} DecimalRoundTrip(n: nat)
    ensures DigitsValue(Decimal(n)) == n
  {
    if n >= 10 {
      DecimalRoundTrip(n / 10);
      var r := Decimal(n);
      assert r[..|r| - 1] == Decimal(n / 10);
    }
  }

  lemma DecimalInjective(m: nat, n: nat)
    requires Decimal(m) == Decimal(n)
    ensures m == n
  {
    DecimalRoundTrip(m);
    DecimalRoundTrip(n);
  }

  /** A leading zero does not change the value of a digit string. */
  lemma {:induction false} LeadingZero(s: string)
    requires AllDigits(s)
    ensures AllDigits("0" + s) && DigitsValue("0" + s) == DigitsValue(s)
  {
    if s != [] {
      var z := "0" + s;
      assert z[..|z| - 1] == "0" + s[..|s| - 1];
      LeadingZero(s[..|s| - 1]);
    }
  }

  /** `t.padStart(2, '0')`. */
  function PadStart2(t: string): (r: string)
    ensures |r| == if |t| < 2 then 2 else |t|
    ensures r[|r| - |t|..] == t
    ensures forall i :: 0 <= i < |r| - |t| ==> r[i] == '0'
  {
    if |t| == 0 then "00" else if |t| == 1 then "0" + t else t
  }

  // ---------------------------------------------------------------- split

  /** `s.split(sep)` for a one-character separator: the pieces between the
      separators, always at least one. */
  function Split(s: string, sep: char): (r: seq<string>)
    ensures |r| >= 1
    ensures forall i :: 0 <= i < |r| ==> sep !in r[i]
  {
    if s == [] then [[]]
    else if s[0] == sep then [[]] + Split(s[1..], sep)
    else PrependToFirst(s[0], Split(s[1..], sep))
  }

  /** Adds `c` in front of the first piece. */
  function PrependToFirst(c: char, pieces: seq<string>): (r: seq<string>)
    requires |pieces| >= 1
    ensures |r| == |pieces| && r[0] == [c] + pieces[0] && r[1..] == pieces[1..]
  {
    [[c] + pieces[0]] + pieces[1..]
  }

  /** `pieces.join(sep)`. */
  function Join(pieces: seq<string>, sep: char): string
    requires |pieces| >= 1
  {
    if |pieces| == 1 then pieces[0] else pieces[0] + [sep] + Join(pieces[1..], sep)
  }

  /** Joining the pieces with the separator restores the string. */
  lemma {:induction false} JoinSplit(s: string, sep: char)
    ensures Join(Split(s, sep), sep) == s
  {
    if s != [] {
      JoinSplit(s[1..], sep);
    }
  }

  lemma {:induction false} SplitWithoutSeparator(s: string, sep: char)
    requires sep !in s
    ensures Split(s, sep) == [s]
  {
    if s != [] {
      assert sep !in s[1..];
      SplitWithoutSeparator(s[1..], sep);
      assert [s[0]] + s[1..] == s;
    }
  }

  lemma {:induction false} SplitAfterPiece(a: string, sep: char, t: string)
    requires sep !in a
    ensures Split(a + [sep] + t, sep) == [a] + Split(t, sep)
  {
    if a != [] {
      assert (a + [sep] + t)[1..] == a[1..] + [sep] + t;
      assert sep !in a[1..];
      SplitAfterPiece(a[1..], sep, t);
      assert (a + [sep] + t)[0] == a[0] != sep;
      assert [a[0]] + a[1..] == a;
    }
  }

  /** `split` gives a single piece exactly when the separator does not
      occur. */
  lemma SplitOnePieceIff(s: string, sep: char)
    ensures |Split(s, sep)| == 1 <==> sep !in s
  {
    if sep !in s {
      SplitWithoutSeparator(s, sep);
    } else {
      JoinSplit(s, sep);
    }
  }

  /** Splitting a join of separator-free pieces restores the pieces. */
  lemma {:induction false} SplitJoin(pieces: seq<string>, sep: char)
    requires |pieces| >= 1
    requires forall i :: 0 <= i < |pieces| ==> sep !in pieces[i]
    ensures Split(Join(pieces, sep), sep) == pieces
  {
    if |pieces| == 1 {
      SplitWithoutSeparator(pieces[0], sep);
    } else {
      SplitJoin(pieces[1..], sep);
      SplitAfterPiece(pieces[0], sep, Join(pieces[1..], sep));
    }
  }

  // ------------------------------------------------------- includes, case

  /** `q` occurs in `s` starting at index `k`. */
  ghost predicate OccursAt(s: string, q: string, k: int)
  {
    0 <= k && k + |q| <= |s| && s[k..k + |q|] == q
  }

  /** `s.includes(q)`. */
  function Contains(s: string, q: string): bool
  {
    q <= s || (s != [] && Contains(s[1..], q))
  }

  lemma {:induction false} OccursAtStart(s: string, q: string)
    ensures OccursAt(s, q, 0) <==> q <= s
  {
    if |q| <= |s| {
      assert s[0..|q|] == s[..|q|];
    }
  }

  lemma {:induction false} OccursShift(s: string, q: string, k: nat)
    requires s != []
    ensures OccursAt(s, q, k + 1) <==> OccursAt(s[1..], q, k)
  {
    if k + 1 + |q| <= |s| {
      assert s[1..][k..k + |q|] == s[k + 1..k + 1 + |q|];
    }
  }

  /** `includes` holds exactly when the query occurs at some index. */
  lemma {:induction false} ContainsIffOccurs(s: string, q: string)
    ensures Contains(s, q) <==> exists k :: OccursAt(s, q, k)
  {
    OccursAtStart(s, q);
    if s != [] {
      ContainsIffOccurs(s[1..], q);
      if Contains(s[1..], q) {
        var k :| OccursAt(s[1..], q, k);
        OccursShift(s, q, k);
      }
      if exists k :: OccursAt(s, q, k) {
        var k :| OccursAt(s, q, k);
        if k > 0 {
          OccursShift(s, q, k - 1);
        }
      }
    }
  }

  function ToLowerChar(c: char): char
  {
    if 'A' <= c <= 'Z' then ((c as int) + 32) as char else c
  }

  /** `toLowerCase`, on the ASCII letters. */
  function ToLower(s: string): (r: string)
    ensures |r| == |s|
    ensures forall i :: 0 <= i < |s| ==> r[i] == ToLowerChar(s[i])
  {
    seq(|s|, i requires 0 <= i < |s| => ToLowerChar(s[i]))
  }

  lemma ToLowerIdempotent(s: string)
    ensures ToLower(ToLower(s)) == ToLower(s)
  {
  }

  // ------------------------------------------------------------ parseInt

  predicate IsHexDigit(c: char)
  {
    IsDigit(c) || ('a' <= c <= 'f') || ('A' <= c <= 'F')
  }

  function HexDigitValue(c: char): (d: nat)
    requires IsHexDigit(c)
    ensures d < 16
    ensures IsDigit(c) ==> d == DigitValue(c)
  {
    if IsDigit(c) then DigitValue(c)
    else if 'a' <= c <= 'f' then (c as int) - ('a' as int) + 10
    else (c as int) - ('A' as int) + 10
  }

  /** The value of a string of hexadecimal digits. */
  function HexValue(s: string): nat
    requires forall i :: 0 <= i < |s| ==> IsHexDigit(s[i])
  {
    if s == [] then 0 else 16 * HexValue(s[..|s| - 1]) + HexDigitValue(s[|s| - 1])
  }

  /** The longest prefix of `s` made of characters satisfying `p`. */
  function LeadingRun(s: string, p: char -> bool): (r: string)
    ensures r <= s
    ensures forall i :: 0 <= i < |r| ==> p(r[i])
    ensures |r| < |s| ==> !p(s[|r|])
  {
    if s != [] && p(s[0]) then [s[0]] + LeadingRun(s[1..], p) else []
  }

  /** `parseInt(s)` with no radix: leading whitespace skipped, an optional
      sign, an optional `0x`/`0X` prefix selecting base 16, then the longest
      run of digits of the base; `None` (for `NaN`) when that run is
      empty. */
  function ParseInt(s: string): Option<int>
  {
    var t := TrimStart(s);
    var negative := t != [] && t[0] == '-';
    var u := if t != [] && (t[0] == '-' || t[0] == '+') then t[1..] else t;
    var hex := |u| >= 2 && u[0] == '0' && (u[1] == 'x' || u[1] == 'X');
    var digits := if hex then LeadingRun(u[2..], IsHexDigit) else LeadingRun(u, IsDigit);
    if digits == [] then None
    else
      var v := if hex then HexValue(digits) else DigitsValue(digits);
      Some(if negative then -v else v)
  }

  lemma {:induction false} LeadingRunPrefix(a: string, rest: string, p: char -> bool)
    requires forall i :: 0 <= i < |a| ==> p(a[i])
    requires rest == [] || !p(rest[0])
    ensures LeadingRun(a + rest, p) == a
  {
    if a == [] {
      assert a + rest == rest;
    } else {
      assert (a + rest)[1..] == a[1..] + rest;
      LeadingRunPrefix(a[1..], rest, p);
      assert [a[0]] + a[1..] == a;
    }
  }

  /** `parseInt` stops at the first character that is not a digit, so
      `"42x"` reads 42; only a lone `"0"` before an `x` starts a hexadecimal
      number instead. */
  lemma {:induction false} ParseIntStopsAtNonDigit(a: string, rest: string)
    requires a != [] && AllDigits(a)
    requires rest == [] || (!IsDigit(rest[0]) && (a == "0" ==> rest[0] != 'x' && rest[0] != 'X'))
    ensures ParseInt(a + rest) == Some(DigitsValue(a))
  {
    var s := a + rest;
    assert s[0] == a[0];
    TrimStartNoLeading(s);
    if |s| >= 2 {
      assert s[1] == if |a| >= 2 then a[1] else rest[0];
    }
    LeadingRunPrefix(a, rest, IsDigit);
  }

  /** `parseInt` reads back what `toString` wrote. */
  lemma {:induction false} ParseIntDecimal(n: nat)
    ensures ParseInt(Decimal(n)) == Some(n)
  {
    var d := Decimal(n);
    assert d + "" == d;
    ParseIntStopsAtNonDigit(d, "");
    DecimalRoundTrip(n);
  }
}
