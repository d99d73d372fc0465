/** The string handling the clinic form relies on: Python's str.strip()
    (through safe_str), SQLite's ASCII LOWER() and LIKE '%x%' substring test,
    SQLite's BINARY text order, and Python's int(s) and str(n) on decimal text. */
module Text {
  import opened Wrappers

  // ---------------------------------------------------------------------------
  // str.strip()
  // ---------------------------------------------------------------------------

  /** The characters Python's str.strip() removes (str.isspace()). */
  predicate IsSpace(c: char) {
    || ('\t' <= c <= '\r')
    || ('\U{1c}' <= c <= '\U{1f}')
    || c == ' ' || c == '\U{85}' || c == '\U{a0}' || c == '\U{1680}'
    || ('\U{2000}' <= c <= '\U{200a}')
    || c == '\U{2028}' || c == '\U{2029}' || c == '\U{202f}' || c == '\U{205f}'
    || c == '\U{3000}'
  }

  /** Every character of s at an index in [lo, hi) is white space. */
  predicate SpaceBetween(s: string, lo: int, hi: int) {
    forall k :: lo <= k < hi && 0 <= k < |s| ==> IsSpace(s[k])
  }

  predicate AllSpace(s: string) {
    SpaceBetween(s, 0, |s|)
  }

  /** The length of the run of white space s starts with. */
  function LeadingSpaces(s: string): (n: nat)
    ensures n <= |s| && SpaceBetween(s, 0, n)
    ensures n < |s| ==> !IsSpace(s[n])
    decreases |s|
  {
    if |s| > 0 && IsSpace(s[0]) then 1 + LeadingSpaces(s[1..]) else 0
  }

  /** The length of the run of white space s ends with. */
  function TrailingSpaces(s: string): (n: nat)
    ensures n <= |s| && SpaceBetween(s, |s| - n, |s|)
    ensures n < |s| ==> !IsSpace(s[|s| - n - 1])
    decreases |s|
  {
    if |s| > 0 && IsSpace(s[|s| - 1]) then 1 + TrailingSpaces(s[..|s| - 1]) else 0
  }

  /** r is s with a run of white space dropped at the front (the first i
      characters) and a run dropped at the back. */
  predicate IsStripOf(s: string, r: string, i: int) {
    && 0 <= i <= |s| - |r| && r == s[i..i + |r|]
    && SpaceBetween(s, 0, i) && SpaceBetween(s, i + |r|, |s|)
  }

  /** Python's s.strip(): the result is the part of s between a run of white
      space at the front and a run at the back, and it neither starts nor ends
      with white space. It is empty exactly when s is all white space. */
  function Trim(s: string): (r: string)
    ensures r == [] || (!IsSpace(r[0]) && !IsSpace(r[|r| - 1]))
    ensures r == [] <==> AllSpace(s)
    ensures exists i :: IsStripOf(s, r, i)
  {
    var a := LeadingSpaces(s);
    if a == |s| then
      assert IsStripOf(s, [], |s|);
      []
    else
      var b := TrailingSpaces(s);
      assert b < |s| - a;
      var r := s[a..|s| - b];
      assert IsStripOf(s, r, a);
      r
  }

  lemma TrimIdempotent(s: string)
    ensures Trim(Trim(s)) == Trim(s)
  {
  }

  /** Text that neither starts nor ends with white space is its own strip. */
  lemma TrimUnpadded(s: string)
    requires s == [] || (!IsSpace(s[0]) && !IsSpace(s[|s| - 1]))
    ensures Trim(s) == s
  {
  }

  // ---------------------------------------------------------------------------
  // SQLite LOWER() and LIKE '%needle%'
  // ---------------------------------------------------------------------------

  /** SQLite's built-in LOWER() folds ASCII letters only. */
  function LowerChar(c: char): char {
    if 'A' <= c <= 'Z' then (c as int + 32) as char else c
  }

  function Lower(s: string): (r: string)
    ensures |r| == |s|
  {
    seq(|s|, i requires 0 <= i < |s| => LowerChar(s[i]))
  }

  /** needle occurs in hay as a contiguous run. */
  predicate Contains(hay: string, needle: string)
    decreases |hay|
  {
    || (|needle| <= |hay| && hay[..|needle|] == needle)
    || (|hay| > 0 && Contains(hay[1..], needle))
  }

  predicate OccursAt(hay: string, needle: string, i: int) {
    0 <= i <= |hay| - |needle| && hay[i..i + |needle|] == needle
  }

  /** Contains is the substring relation: needle occurs at some offset. */
  lemma {:induction false} ContainsAt(hay: string, needle: string)
    ensures Contains(hay, needle) <==> exists i :: OccursAt(hay, needle, i)
    decreases |hay|
  {
    if |needle| <= |hay| && hay[..|needle|] == needle {
      assert OccursAt(hay, needle, 0);
    }
    if |hay| > 0 {
      ContainsAt(hay[1..], needle);
      if Contains(hay[1..], needle) {
        var i :| OccursAt(hay[1..], needle, i);
        assert hay[i + 1..i + 1 + |needle|] == hay[1..][i..i + |needle|];
        assert OccursAt(hay, needle, i + 1);
      }
      if exists i :: OccursAt(hay, needle, i) {
        var i :| OccursAt(hay, needle, i);
        if i > 0 {
          assert hay[1..][i - 1..i - 1 + |needle|] == hay[i..i + |needle|];
          assert OccursAt(hay[1..], needle, i - 1);
        }
      }
    }
  }

  /** LOWER(hay) LIKE LOWER('%needle%'), read as an ASCII case-insensitive
      substring test (SQLite's LIKE is itself ASCII case-insensitive). */
  predicate ContainsCI(hay: string, needle: string) {
    Contains(Lower(hay), Lower(needle))
  }

  // ---------------------------------------------------------------------------
  // SQLite BINARY collation: code-point lexicographic order
  // ---------------------------------------------------------------------------

  predicate StrLt(a: string, b: string)
    decreases |a|
  {
    if |a| == 0 then |b| > 0
    else if |b| == 0 then false
    else if a[0] != b[0] then a[0] < b[0]
    else StrLt(a[1..], b[1..])
  }

  predicate StrLe(a: string, b: string) {
    a == b || StrLt(a, b)
  }

  lemma {:induction false} StrLtIrreflexive(a: string)
    ensures !StrLt(a, a)
    decreases |a|
  {
    if |a| > 0 { StrLtIrreflexive(a[1..]); }
  }

  lemma {:induction false} StrLtAsymmetric(a: string, b: string)
    ensures !(StrLt(a, b) && StrLt(b, a))
    decreases |a|
  {
    if |a| > 0 && |b| > 0 && a[0] == b[0] { StrLtAsymmetric(a[1..], b[1..]); }
  }

  lemma {:induction false} StrLtTransitive(a: string, b: string, c: string)
    requires StrLt(a, b) && StrLt(b, c)
    ensures StrLt(a, c)
    decreases |a|
  {
    if |a| > 0 && a[0] == b[0] && b[0] == c[0] {
      StrLtTransitive(a[1..], b[1..], c[1..]);
    }
  }

  lemma {:induction false} StrLtTotal(a: string, b: string)
    ensures a == b || StrLt(a, b) || StrLt(b, a)
    decreases |a|
  {
    if |a| > 0 && |b| > 0 && a[0] == b[0] {
      StrLtTotal(a[1..], b[1..]);
      if a[1..] == b[1..] { assert a == [a[0]] + a[1..] && b == [b[0]] + b[1..]; }
    }
  }

  /** Comparing two strings cut at the same length compares the first parts
      and, when those are equal, the second parts. */
  lemma {:induction false} StrLtConcat(x1: string, x2: string, y1: string, y2: string)
    requires |x1| == |y1|
    ensures StrLt(x1 + x2, y1 + y2) <==> StrLt(x1, y1) || (x1 == y1 && StrLt(x2, y2))
    decreases |x1|
  {
    if |x1| == 0 {
      assert x1 + x2 == x2 && y1 + y2 == y2;
    } else {
      assert (x1 + x2)[0] == x1[0] && (y1 + y2)[0] == y1[0];
      assert (x1 + x2)[1..] == x1[1..] + x2 && (y1 + y2)[1..] == y1[1..] + y2;
      StrLtConcat(x1[1..], x2, y1[1..], y2);
      if x1[0] == y1[0] && x1[1..] == y1[1..] { assert x1 == y1; }
    }
  }

  // ---------------------------------------------------------------------------
  // Decimal digits
  // ---------------------------------------------------------------------------

  predicate IsDigit(c: char) { '0' <= c <= '9' }

  predicate AllDigits(s: string) {
    forall k :: 0 <= k < |s| ==> IsDigit(s[k])
  }

  function DigitValue(c: char): nat
    requires IsDigit(c)
  {
    c as int - '0' as int
  }

  function DigitChar(d: nat): (c: char)
    requires d < 10
    ensures IsDigit(c) && DigitValue(c) == d
  {
    ('0' as int + d) as char
  }

  /** The number a string of decimal digits denotes (leading zeros allowed). */
  function DecimalValue(s: string): nat
    requires AllDigits(s)
    decreases |s|
  {
    if s == [] then 0 else DecimalValue(s[..|s| - 1]) * 10 + DigitValue(s[|s| - 1])
  }

  function Pow10(w: nat): (p: nat)
    ensures p >= 1
  {
    if w == 0 then 1 else 10 * Pow10(w - 1)
  }

  lemma {:induction false} DecimalValueBound(s: string)
    requires AllDigits(s)
    ensures DecimalValue(s) < Pow10(|s|)
    decreases |s|
  {
    if s != [] { DecimalValueBound(s[..|s| - 1]); }
  }

  /** If n == d * q + m with 0 <= m < d then q and m are n's quotient and remainder. */
  lemma DivModUnique(n: int, d: int, q: int, m: int)
    requires d > 0 && n == d * q + m && 0 <= m < d
    ensures n / d == q && n % d == m
  {
    var q', m' := n / d, n % d;
    assert n == d * q' + m';
    if q' > q {
      assert d * q' >= d * (q + 1) by { MulMono(d, q + 1, q'); }
    } else if q' < q {
      assert d * q >= d * (q' + 1) by { MulMono(d, q' + 1, q); }
    }
  }

  lemma MulMono(d: int, a: int, b: int)
    requires d > 0 && a <= b
    ensures d * a <= d * b
  {
  }

  /** The last w decimal digits of n, zero padded on the left (strftime's
      %Y is PadDecimal(year, 4), %m and %d are PadDecimal(_, 2)). */
  function PadDecimal(n: nat, w: nat): (r: string)
    ensures |r| == w && AllDigits(r)
    ensures DecimalValue(r) == n % Pow10(w)
    decreases w
  {
    if w == 0 then []
    else
      var r := PadDecimal(n / 10, w - 1) + [DigitChar(n % 10)];
      assert r[..|r| - 1] == PadDecimal(n / 10, w - 1);
      PadModStep(n, Pow10(w - 1));
      r
  }

  lemma PadModStep(n: nat, p: nat)
    requires p >= 1
    ensures (n / 10) % p * 10 + n % 10 == n % (10 * p)
  {
    var q, r := n / 10, n % 10;
    var a, b := q / p, q % p;
    assert q == p * a + b;
    assert n == (10 * p) * a + (10 * b + r) by {
      assert n == 10 * q + r;
      assert 10 * q == 10 * (p * a) + 10 * b;
    }
    DivModUnique(n, 10 * p, a, 10 * b + r);
  }

  /** Reading back w padded digits gives the number when it fits in w digits. */
  lemma PadDecimalValue(n: nat, w: nat)
    requires n < Pow10(w)
    ensures DecimalValue(PadDecimal(n, w)) == n
  {
    DivModUnique(n, Pow10(w), 0, n);
  }

  /** A digit string is the zero-padded rendering of its own value. */
  lemma {:induction false} PadDecimalOfValue(s: string)
    requires AllDigits(s)
    ensures PadDecimal(DecimalValue(s), |s|) == s
    decreases |s|
  {
    if s != [] {
      var init := s[..|s| - 1];
      var v := DecimalValue(s);
      PadDecimalOfValue(init);
      DivModUnique(v, 10, DecimalValue(init), DigitValue(s[|s| - 1]));
      assert s == init + [s[|s| - 1]];
    }
  }

  /** Numbers compare by their leading digits, then by their last digit. */
  lemma LastDigitOrder(a: nat, b: nat)
    ensures a < b <==> a / 10 < b / 10 || (a / 10 == b / 10 && a % 10 < b % 10)
  {
    DivModUnique(a, 10, a / 10, a % 10);
    DivModUnique(b, 10, b / 10, b % 10);
  }

  /** Two renderings of the same width are equal only for equal numbers. */
  lemma PadDecimalInjective(a: nat, b: nat, w: nat)
    requires a < Pow10(w) && b < Pow10(w)
    ensures PadDecimal(a, w) == PadDecimal(b, w) <==> a == b
  {
    PadDecimalValue(a, w);
    PadDecimalValue(b, w);
  }

  /** Dropping the last digit of a number below 10 * p leaves one below p. */
  lemma LeadingDigitsBound(a: nat, p: nat)
    requires a < 10 * p
    ensures a / 10 < p
  {
    DivModUnique(a, 10, a / 10, a % 10);
  }

  /** The inductive step of PadDecimalOrder: one more digit on the right. */
  lemma PadDecimalOrderStep(a: nat, b: nat, w: nat)
    requires w > 0 && a / 10 < Pow10(w - 1) && b / 10 < Pow10(w - 1)
    requires StrLt(PadDecimal(a / 10, w - 1), PadDecimal(b / 10, w - 1)) <==> a / 10 < b / 10
    ensures StrLt(PadDecimal(a, w), PadDecimal(b, w)) <==> a < b
  {
    var x1, y1 := PadDecimal(a / 10, w - 1), PadDecimal(b / 10, w - 1);
    var x2, y2 := [DigitChar(a % 10)], [DigitChar(b % 10)];
    assert PadDecimal(a, w) == x1 + x2 && PadDecimal(b, w) == y1 + y2;
    PadDecimalInjective(a / 10, b / 10, w - 1);
    StrLtConcat(x1, x2, y1, y2);
    assert StrLt(x2, y2) <==> a % 10 < b % 10;
    LastDigitOrder(a, b);
  }

  /** On numbers of at most w digits, the text order of the padded renderings
      is the numeric order: this is why ISO dates compare correctly as text. */
  lemma {:induction false} PadDecimalOrder(a: nat, b: nat, w: nat)
    requires a < Pow10(w) && b < Pow10(w)
    ensures StrLt(PadDecimal(a, w), PadDecimal(b, w)) <==> a < b
    decreases w
  {
    if w > 0 {
      LeadingDigitsBound(a, Pow10(w - 1));
      LeadingDigitsBound(b, Pow10(w - 1));
      PadDecimalOrder(a / 10, b / 10, w - 1);
      PadDecimalOrderStep(a, b, w);
    }
  }

  // ---------------------------------------------------------------------------
  // Python int(s) and str(n)
  // ---------------------------------------------------------------------------

  /** The digit part Python's int() accepts: decimal digits, with single
      underscores allowed between two digits ("1_000"). */
  predicate WellFormedDigits(s: string) {
    && |s| > 0 && IsDigit(s[0]) && IsDigit(s[|s| - 1])
    && forall k :: 0 <= k < |s| ==> DigitOrSeparator(s, k)
  }

  /** s[k] is a digit, or an underscore with a digit on each side. */
  predicate DigitOrSeparator(s: string, k: int)
    requires 0 <= k < |s|
  {
    IsDigit(s[k]) || (s[k] == '_' && 0 < k < |s| - 1 && IsDigit(s[k - 1]) && IsDigit(s[k + 1]))
  }

  lemma WellFormedDigitsChars(s: string)
    requires WellFormedDigits(s)
    ensures forall k :: 0 <= k < |s| ==> IsDigit(s[k]) || s[k] == '_'
  {
    forall k | 0 <= k < |s| ensures IsDigit(s[k]) || s[k] == '_' {
      assert DigitOrSeparator(s, k);
    }
  }

  function RemoveUnderscores(s: string): (r: string)
    requires forall k :: 0 <= k < |s| ==> IsDigit(s[k]) || s[k] == '_'
    ensures AllDigits(r)
    ensures AllDigits(s) ==> r == s
    decreases |s|
  {
    if s == [] then []
    else if s[0] == '_' then RemoveUnderscores(s[1..])
    else [s[0]] + RemoveUnderscores(s[1..])
  }

  predicate IsSign(c: char) { c == '+' || c == '-' }

  /** The text int() accepts, position by position: it ends in a digit, and
      every character is a digit, a sign in front, or an underscore between
      two digits. So a letter, a '.', a lone sign, a sign after the first
      position, and a leading, trailing or doubled '_' are all refused. */
  predicate IntLiteral(s: string) {
    && |s| > 0 && IsDigit(s[|s| - 1])
    && forall k :: 0 <= k < |s| ==> LiteralChar(s, k)
  }

  predicate LiteralChar(s: string, k: int)
    requires 0 <= k < |s|
  {
    || IsDigit(s[k])
    || (k == 0 && IsSign(s[k]))
    || (s[k] == '_' && 0 < k < |s| - 1 && IsDigit(s[k - 1]) && IsDigit(s[k + 1]))
  }

  /** Splitting off the sign: the rest is a digit part exactly when the
      whole is an integer literal. */
  lemma IntLiteralSplit(s: string)
    ensures var signed := |s| > 0 && IsSign(s[0]);
            WellFormedDigits(if signed then s[1..] else s) <==> IntLiteral(s)
  {
    if |s| > 0 && IsSign(s[0]) {
      var b := s[1..];
      if WellFormedDigits(b) {
        forall k | 0 <= k < |s| ensures LiteralChar(s, k) {
          if k > 0 { assert DigitOrSeparator(b, k - 1); }
        }
        assert s[|s| - 1] == b[|b| - 1];
      }
      if IntLiteral(s) {
        assert |s| > 1 by { assert !IsDigit(s[0]); }
        assert LiteralChar(s, 1);
        forall k | 0 <= k < |b| ensures DigitOrSeparator(b, k) {
          assert LiteralChar(s, k + 1);
        }
      }
    } else {
      if WellFormedDigits(s) {
        forall k | 0 <= k < |s| ensures LiteralChar(s, k) {
          assert DigitOrSeparator(s, k);
        }
      }
      if IntLiteral(s) {
        assert LiteralChar(s, 0);
        forall k | 0 <= k < |s| ensures DigitOrSeparator(s, k) {
          assert LiteralChar(s, k);
        }
      }
    }
  }

  /** Python's int(s) for a string without surrounding white space (every
      caller passes a stripped string): an optional sign, then digits. */
  function ParseInt(s: string): (r: Option<int>)
    ensures r.Some? <==> IntLiteral(s)
    ensures r.Some? && r.value < 0 ==> s[0] == '-'
  {
    var signed := |s| > 0 && IsSign(s[0]);
    var body := if signed then s[1..] else s;
    IntLiteralSplit(s);
    if WellFormedDigits(body) then
      WellFormedDigitsChars(body);
      var v: int := DecimalValue(RemoveUnderscores(body));
      Some(if signed && s[0] == '-' then -v else v)
    else None
  }

  /** Texts int() refuses: the empty text, a lone sign, a decimal point, a
      letter, a sign after the first position, and misplaced underscores. */
  lemma ParseIntRejects()
    ensures ParseInt("").None? && ParseInt("-").None? && ParseInt("+").None?
    ensures ParseInt("1.5").None? && ParseInt("12a").None? && ParseInt("1-2").None?
    ensures ParseInt("_1").None? && ParseInt("1_").None? && ParseInt("1__0").None?
  {
    assert !LiteralChar("1.5", 1);
    assert !LiteralChar("12a", 2);
    assert !LiteralChar("1-2", 1);
    assert !LiteralChar("_1", 0);
    assert !LiteralChar("1__0", 1);
  }

  /** A '+' in front changes nothing. */
  lemma ParsePlus(s: string)
    requires s == [] || !IsSign(s[0])
    ensures ParseInt("+" + s) == ParseInt(s)
  {
    var t := "+" + s;
    assert t[0] == '+' && t[1..] == s;
  }

  lemma {:induction false} LeadingZeroValue(s: string)
    requires AllDigits(s)
    ensures DecimalValue("0" + s) == DecimalValue(s)
    decreases |s|
  {
    if s != [] {
      var t := "0" + s;
      assert t[..|t| - 1] == "0" + s[..|s| - 1];
      LeadingZeroValue(s[..|s| - 1]);
    }
  }

  /** A leading zero does not change the value. */
  lemma ParseLeadingZero(s: string)
    requires WellFormedDigits(s)
    ensures ParseInt("0" + s) == ParseInt(s)
  {
    var t := "0" + s;
    assert t[1..] == s;
    forall k | 0 <= k < |t| ensures DigitOrSeparator(t, k) {
      if k > 0 { assert DigitOrSeparator(s, k - 1); }
    }
    assert !IsSign(s[0]) by { assert IsDigit(s[0]); }
    WellFormedDigitsChars(s);
    WellFormedDigitsChars(t);
    assert RemoveUnderscores(t) == "0" + RemoveUnderscores(s);
    LeadingZeroValue(RemoveUnderscores(s));
  }

  lemma {:induction false} RemoveUnderscoresConcat(a: string, b: string)
    requires forall k :: 0 <= k < |a| ==> IsDigit(a[k]) || a[k] == '_'
    requires forall k :: 0 <= k < |b| ==> IsDigit(b[k]) || b[k] == '_'
    ensures forall k :: 0 <= k < |a + b| ==> IsDigit((a + b)[k]) || (a + b)[k] == '_'
    ensures RemoveUnderscores(a + b) == RemoveUnderscores(a) + RemoveUnderscores(b)
    decreases |a|
  {
    if a != [] {
      assert (a + b)[0] == a[0] && (a + b)[1..] == a[1..] + b;
      RemoveUnderscoresConcat(a[1..], b);
      if a[0] == '_' {
        assert RemoveUnderscores(a) == RemoveUnderscores(a[1..]);
      } else {
        assert RemoveUnderscores(a) == [a[0]] + RemoveUnderscores(a[1..]);
        assert RemoveUnderscores(a + b) == [a[0]] + RemoveUnderscores(a[1..] + b);
      }
    } else {
      assert a + b == b;
    }
  }

  lemma JoinedWellFormed(a: string, b: string)
    requires WellFormedDigits(a) && WellFormedDigits(b)
    ensures WellFormedDigits(a + "_" + b)
  {
    var s := a + "_" + b;
    forall k | 0 <= k < |s| ensures DigitOrSeparator(s, k) {
      if k < |a| {
        assert s[k] == a[k] && DigitOrSeparator(a, k);
        if k > 0 { assert s[k - 1] == a[k - 1]; }
        if k + 1 < |a| { assert s[k + 1] == a[k + 1]; }
      } else if k == |a| {
        assert s[k - 1] == a[|a| - 1] && s[k + 1] == b[0];
      } else {
        assert s[k] == b[k - |a| - 1] && DigitOrSeparator(b, k - |a| - 1);
      }
    }
    assert s[|s| - 1] == b[|b| - 1];
  }

  lemma ConcatWellFormed(a: string, b: string)
    requires WellFormedDigits(a) && WellFormedDigits(b)
    ensures WellFormedDigits(a + b)
  {
    var t := a + b;
    forall k | 0 <= k < |t| ensures DigitOrSeparator(t, k) {
      if k < |a| {
        assert t[k] == a[k] && DigitOrSeparator(a, k);
        if k > 0 { assert t[k - 1] == a[k - 1]; }
        if k + 1 < |a| { assert t[k + 1] == a[k + 1]; } else { assert t[k + 1] == b[0]; }
      } else {
        assert t[k] == b[k - |a|] && DigitOrSeparator(b, k - |a|);
        if k > |a| { assert t[k - 1] == b[k - |a| - 1]; } else { assert t[k - 1] == a[|a| - 1]; }
        if k + 1 < |t| { assert t[k + 1] == b[k - |a| + 1]; }
      }
    }
    assert t[|t| - 1] == b[|b| - 1];
  }

  /** A digit part without a sign parses to the value of its digits. */
  lemma ParseUnsigned(s: string)
    requires WellFormedDigits(s)
    ensures forall k :: 0 <= k < |s| ==> IsDigit(s[k]) || s[k] == '_'
    ensures ParseInt(s) == Some(DecimalValue(RemoveUnderscores(s)) as int)
  {
    WellFormedDigitsChars(s);
    assert !IsSign(s[0]) by { assert IsDigit(s[0]); }
  }

  lemma RemoveUnderscoresJoin(a: string, b: string)
    requires forall k :: 0 <= k < |a| ==> IsDigit(a[k]) || a[k] == '_'
    requires forall k :: 0 <= k < |b| ==> IsDigit(b[k]) || b[k] == '_'
    requires forall k :: 0 <= k < |a + "_" + b| ==> IsDigit((a + "_" + b)[k]) || (a + "_" + b)[k] == '_'
    ensures RemoveUnderscores(a + "_" + b) == RemoveUnderscores(a + b)
  {
    RemoveUnderscoresConcat(a, "_");
    RemoveUnderscoresConcat(a + "_", b);
    RemoveUnderscoresConcat(a, b);
    assert RemoveUnderscores("_") == [] by { assert "_"[1..] == []; }
  }

  /** Two digit parts joined by an underscore ("1_000") denote the same
      number as the digits written together. */
  lemma ParseUnderscore(a: string, b: string)
    requires WellFormedDigits(a) && WellFormedDigits(b)
    ensures ParseInt(a + "_" + b) == ParseInt(a + b)
  {
    JoinedWellFormed(a, b);
    ConcatWellFormed(a, b);
    ParseUnsigned(a);
    ParseUnsigned(b);
    ParseUnsigned(a + "_" + b);
    ParseUnsigned(a + b);
    RemoveUnderscoresJoin(a, b);
  }

  /** Python's str(n) for n >= 0: no sign, no leading zeros. */
  function NatToString(n: nat): (r: string)
    ensures |r| > 0 && AllDigits(r) && DecimalValue(r) == n
    ensures |r| > 1 ==> r[0] != '0'
    decreases n
  {
    if n < 10 then [DigitChar(n)]
    else
      var r := NatToString(n / 10) + [DigitChar(n % 10)];
      assert r[..|r| - 1] == NatToString(n / 10);
      r
  }

  /** Python's str(n). */
  function IntToString(n: int): string {
    if n < 0 then "-" + NatToString(-n) else NatToString(n)
  }

  /** str(n) has no white space at either end. */
  lemma IntToStringUnpadded(n: int)
    ensures Trim(IntToString(n)) == IntToString(n) != ""
  {
    var s := IntToString(n);
    var digits := NatToString(if n < 0 then -n else n);
    assert IsDigit(digits[|digits| - 1]);
    assert s[|s| - 1] == digits[|digits| - 1];
    TrimUnpadded(s);
  }

  /** A plain digit string is what int() accepts without underscores. */
  lemma DigitsWellFormed(s: string)
    requires AllDigits(s) && s != []
    ensures WellFormedDigits(s)
  {
    forall k | 0 <= k < |s| ensures DigitOrSeparator(s, k) {
      assert IsDigit(s[k]);
    }
  }

  /** A digit string parses to its value. */
  lemma ParseDigits(s: string)
    requires AllDigits(s) && s != []
    ensures ParseInt(s) == Some(DecimalValue(s))
  {
    DigitsWellFormed(s);
    assert !(s[0] == '+' || s[0] == '-') by { assert IsDigit(s[0]); }
  }

  /** A digit string behind a minus sign parses to minus its value. */
  lemma ParseNegativeDigits(s: string)
    requires AllDigits(s) && s != []
    ensures ParseInt("-" + s) == Some(-(DecimalValue(s) as int))
  {
    var t := "-" + s;
    assert |t| > 0 && t[0] == '-' && t[1..] == s;
    DigitsWellFormed(t[1..]);
  }

  /** int(str(n)) == n. */
  lemma IntToStringRoundTrip(n: int)
    ensures ParseInt(IntToString(n)) == Some(n)
  {
    if n < 0 {
      ParseNegativeDigits(NatToString(-n));
    } else {
      ParseDigits(NatToString(n));
    }
  }
}
