/** The form helpers of `main.js`: `validateEmail`, `validatePhone` and
    `generateId`. */
module Validators {
  import opened Text
  import opened Seqs

  // ------------------------------------------------------------- e-mail

  /** Position of the first occurrence of `c` in `s`. */
  function IndexOf(s: string, c: char): (k: nat)
    requires c in s
    ensures k < |s| && s[k] == c && c !in s[..k]
  {
    if s[0] == c then 0 else 1 + IndexOf(s[1..], c)
  }

  /** `d` has a '.' that is neither its first nor its last character. */
  predicate HasInnerDot(d: string)
  {
    exists k :: 0 < k < |d| - 1 && d[k] == '.'
  }

  /** `validateEmail`, read as four plain conditions: no whitespace, exactly
      one '@', something before it, and an inner '.' after it. */
  predicate ValidateEmail(s: string)
  {
    && (forall i :: 0 <= i < |s| ==> !IsJsWhitespace(s[i]))
    && multiset(s)['@'] == 1
    && var at := IndexOf(s, '@');
       at > 0 && HasInnerDot(s[at + 1..])
  }

  /** Neither whitespace nor '@': the class `[^\s@]`. */
  ghost predicate NoSpaceNoAt(t: string)
  {
    forall i :: 0 <= i < |t| ==> !IsJsWhitespace(t[i]) && t[i] != '@'
  }

  /** `s` splits as A '@' B '.' C at '@' index `i` and '.' index `j`, with
      A, B and C non-empty runs of `[^\s@]`. */
  ghost predicate EmailPatternAt(s: string, i: int, j: int)
  {
    && 0 < i && i + 1 < j && j + 1 < |s|
    && s[i] == '@' && s[j] == '.'
    && NoSpaceNoAt(s[..i]) && NoSpaceNoAt(s[i + 1..j]) && NoSpaceNoAt(s[j + 1..])
  }

  /** The regular expression `^[^\s@]+@[^\s@]+\.[^\s@]+$` matches `s`. */
  ghost predicate MatchesEmailPattern(s: string)
  {
    exists i, j :: EmailPatternAt(s, i, j)
  }

  lemma MultisetSplit(s: string, k: int)
    requires 0 <= k < |s|
    ensures multiset(s) == multiset(s[..k]) + multiset{s[k]} + multiset(s[k + 1..])
  {
    assert s == s[..k] + [s[k]] + s[k + 1..];
  }

  /** An address `validateEmail` accepts splits as the pattern demands. */
  lemma AcceptedEmailMatches(s: string)
    requires ValidateEmail(s)
    ensures MatchesEmailPattern(s)
  {
    var at := IndexOf(s, '@');
    var d := s[at + 1..];
    var k :| 0 < k < |d| - 1 && d[k] == '.';
    MultisetSplit(s, at);
    assert multiset(s[at + 1..])['@'] == 0;
    var j := at + 1 + k;
    assert s[j] == '.';
    assert NoSpaceNoAt(s[..at]);
    assert '@' !in d;
    assert s[at + 1..j] == d[..k];
    assert s[j + 1..] == d[k + 1..];
    assert EmailPatternAt(s, at, j);
  }

  /** A string matching the pattern at `i` and `j` is accepted. */
  lemma MatchingEmailAccepted(s: string, i: int, j: int)
    requires EmailPatternAt(s, i, j)
    ensures ValidateEmail(s)
  {
    forall m | 0 <= m < |s| ensures !IsJsWhitespace(s[m]) && (s[m] == '@' ==> m == i) {
      if m < i {
        assert s[m] == s[..i][m];
      } else if i < m < j {
        assert s[m] == s[i + 1..j][m - i - 1];
      } else if j < m {
        assert s[m] == s[j + 1..][m - j - 1];
      }
    }
    MultisetSplit(s, i);
    assert '@' !in s[..i];
    assert '@' !in s[i + 1..];
    assert IndexOf(s, '@') == i;
    var d := s[i + 1..];
    assert d[j - i - 1] == '.';
  }

  /** `validateEmail` accepts exactly the strings its regular expression
      matches. */
  lemma ValidateEmailIsPattern(s: string)
    ensures ValidateEmail(s) <==> MatchesEmailPattern(s)
  {
    if ValidateEmail(s) {
      AcceptedEmailMatches(s);
    }
    if MatchesEmailPattern(s) {
      var i, j :| EmailPatternAt(s, i, j);
      MatchingEmailAccepted(s, i, j);
    }
  }

  lemma ExampleEmailAccepted()
    ensures ValidateEmail("a@b.co")
  {
    var good := "a@b.co";
    assert EmailPatternAt(good, 1, 3);
    ValidateEmailIsPattern(good);
  }

  /** An address whose part after the '@' has no '.' is rejected. */
  lemma DomainWithoutDotRejected(local: string, domain: string)
    requires '@' !in local && '.' !in domain
    ensures !ValidateEmail(local + "@" + domain)
  {
    var s := local + "@" + domain;
    assert s[|local|] == '@';
    assert s[..|local|] == local;
    if '@' in s {
      var k := IndexOf(s, '@');
      assert k == |local|;
      assert s[k + 1..] == domain;
    }
  }

  lemma ExampleEmailWithoutDotRejected(s: string)
    requires s == "a.b@example"
    ensures !ValidateEmail(s)
  {
    var local, domain := s[..3], s[4..];
    assert s == local + "@" + domain;
    assert '@' !in local;
    assert '.' !in domain;
    DomainWithoutDotRejected(local, domain);
  }

  /** One whitespace character anywhere rejects the address. */
  lemma EmailWithWhitespaceRejected(s: string, k: int)
    requires 0 <= k < |s| && IsJsWhitespace(s[k])
    ensures !ValidateEmail(s)
  {
  }

  // --------------------------------------------------------------- phone

  /** The class `[\d\s\-\+\(\)]`. */
  predicate IsPhoneChar(c: char)
  {
    IsDigit(c) || IsJsWhitespace(c) || c == '-' || c == '+' || c == '(' || c == ')'
  }

  /** Phone characters throughout. */
  predicate AllPhoneChars(s: string)
  {
    forall i :: 0 <= i < |s| ==> IsPhoneChar(s[i])
  }

  /** `phone.replace(/\D/g, '')`. */
  function DigitsOf(s: string): (r: string)
    ensures AllDigits(r)
    ensures |r| == CountWhere(s, IsDigit)
    ensures IsSubsequence(r, s)
  {
    FilterSound(s, IsDigit);
    FilterLength(s, IsDigit);
    FilterIsSubsequence(s, IsDigit);
    Filter(s, IsDigit)
  }

  /** `validatePhone`: a non-empty string of phone characters (the regular
      expression `^[\d\s\-\+\(\)]+$`) holding at least ten digits. */
  predicate ValidatePhone(s: string)
  {
    |s| > 0 && AllPhoneChars(s) && |DigitsOf(s)| >= 10
  }

  /** An accepted phone number is at least ten characters long. */
  lemma AcceptedPhoneLength(s: string)
    requires ValidatePhone(s)
    ensures |s| >= 10
  {
    FilterLength(s, IsDigit);
  }

  /** Appending more phone characters (separators or digits) to an accepted
      phone number keeps it accepted. */
  lemma PhoneExtension(s: string, t: string)
    requires ValidatePhone(s)
    requires AllPhoneChars(t)
    ensures ValidatePhone(s + t)
  {
    FilterConcat(s, t, IsDigit);
    PhoneCharsConcat(s, t);
  }

  lemma PhoneCharsConcat(s: string, t: string)
    requires AllPhoneChars(s) && AllPhoneChars(t)
    ensures AllPhoneChars(s + t)
  {
    forall i | 0 <= i < |s + t| ensures IsPhoneChar((s + t)[i]) {
      if i >= |s| {
        assert (s + t)[i] == t[i - |s|];
      }
    }
  }

  /** Digits followed by a hyphen: phone characters, and the digits are
      exactly what `DigitsOf` keeps. */
  lemma DigitGroup(a: string, sep: string)
    requires AllDigits(a) && (sep == "" || sep == "-")
    ensures AllPhoneChars(a + sep) && DigitsOf(a + sep) == a
  {
    FilterAll(a, IsDigit);
    FilterConcat(a, sep, IsDigit);
    assert Filter(sep, IsDigit) == [];
    assert AllPhoneChars(a);
    PhoneCharsConcat(a, sep);
  }

  /** Three groups of digits joined by hyphens, ten digits in all, form an
      accepted phone number. */
  lemma HyphenatedPhoneAccepted(a: string, b: string, c: string)
    requires AllDigits(a) && AllDigits(b) && AllDigits(c) && |a| + |b| + |c| >= 10
    ensures ValidatePhone(a + "-" + b + "-" + c)
  {
    var x, y := a + "-", b + "-";
    assert a + "-" + b + "-" + c == x + y + c;
    GroupsArePhoneChars(a, b, c, x, y);
    GroupsKeepDigits(a, b, c, x, y);
  }

  lemma GroupsArePhoneChars(a: string, b: string, c: string, x: string, y: string)
    requires AllDigits(a) && AllDigits(b) && AllDigits(c)
    requires x == a + "-" && y == b + "-"
    ensures AllPhoneChars(x + y + c)
  {
    DigitGroup(a, "-");
    DigitGroup(b, "-");
    DigitGroup(c, "");
    assert c + "" == c;
    PhoneCharsConcat(x, y);
    PhoneCharsConcat(x + y, c);
  }

  lemma GroupsKeepDigits(a: string, b: string, c: string, x: string, y: string)
    requires AllDigits(a) && AllDigits(b) && AllDigits(c)
    requires x == a + "-" && y == b + "-"
    ensures DigitsOf(x + y + c) == a + b + c
  {
    DigitGroup(a, "-");
    DigitGroup(b, "-");
    DigitGroup(c, "");
    assert c + "" == c;
    FilterConcat(x, y, IsDigit);
    FilterConcat(x + y, c, IsDigit);
  }

  lemma ExamplePhoneAccepted(s: string)
    requires s == "555-123-4567"
    ensures ValidatePhone(s)
  {
    var a, b, c := s[..3], s[4..7], s[8..];
    assert AllDigits(a) && AllDigits(b) && AllDigits(c);
    assert s == a + "-" + b + "-" + c;
    HyphenatedPhoneAccepted(a, b, c);
  }

  /** Seven digits are too few. */
  lemma ShortPhoneRejected(s: string)
    requires s == "555-1234"
    ensures !ValidatePhone(s)
  {
    if ValidatePhone(s) {
      AcceptedPhoneLength(s);
    }
  }

  /** Letters are not phone characters. */
  lemma LetterPhoneRejected(s: string)
    requires s == "call-me"
    ensures !ValidatePhone(s)
  {
    assert !IsPhoneChar(s[0]);
  }

  // ------------------------------------------------------------------ ids

  /** `generateId`: `'id-' + Date.now() + '-' + <random base-36 digits>`;
      the clock reading and the random digits are inputs. */
  function GenerateId(now: nat, randomPart: string): (r: string)
    ensures |r| > 3 && r[..3] == "id-"
  {
    "id-" + Decimal(now) + "-" + randomPart
  }

  lemma FirstDash(a: string, b: string)
    requires '-' !in a
    ensures (a + "-" + b)[|a|] == '-'
    ensures forall i :: 0 <= i < |a| ==> (a + "-" + b)[i] != '-'
  {
    forall i | 0 <= i < |a| ensures (a + "-" + b)[i] != '-' {
      assert (a + "-" + b)[i] == a[i];
    }
  }

  lemma SplitAtFirstDash(a: string, b: string, c: string, d: string)
    requires '-' !in a && '-' !in c
    requires a + "-" + b == c + "-" + d
    ensures a == c && b == d
  {
    var s := a + "-" + b;
    FirstDash(a, b);
    FirstDash(c, d);
    assert |a| == |c|;
    assert a == s[..|a|] == c;
    assert b == s[|a| + 1..] == d;
  }

  /** Ids taken at different clock readings, or with different random
      digits, are different. */
  lemma GenerateIdInjective(n1: nat, r1: string, n2: nat, r2: string)
    requires GenerateId(n1, r1) == GenerateId(n2, r2)
    ensures n1 == n2 && r1 == r2
  {
    var s1, s2 := GenerateId(n1, r1), GenerateId(n2, r2);
    assert s1[3..] == Decimal(n1) + "-" + r1;
    assert s2[3..] == Decimal(n2) + "-" + r2;
    assert '-' !in Decimal(n1) && '-' !in Decimal(n2);
    SplitAtFirstDash(Decimal(n1), r1, Decimal(n2), r2);
    DecimalInjective(n1, n2);
  }
}
