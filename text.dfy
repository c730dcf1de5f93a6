/** The pieces of Go's `strings`, `strconv` and `fmt` that the core relies on:
    `strings.TrimSpace`, `%d` and `%0Nd` formatting, and reading runs of decimal digits. */
module Text {

  /** Go's `unicode.IsSpace`: the characters with the Unicode White_Space property. */
  predicate IsSpace(c: char) {
    c == ' ' || c == '\t' || c == '\n' || c == '\r' || c == '\U{000B}' || c == '\U{000C}'
    || c == '\U{0085}' || c == '\U{00A0}' || c == '\U{1680}'
    || ('\U{2000}' <= c <= '\U{200A}')
    || c == '\U{2028}' || c == '\U{2029}' || c == '\U{202F}' || c == '\U{205F}' || c == '\U{3000}'
  }

  predicate IsBlank(s: string) {
    forall k :: 0 <= k < |s| ==> IsSpace(s[k])
  }

  /** Number of white-space characters at the start of `s`. */
  function LeadingSpaces(s: string): (n: nat)
    ensures n <= |s|
    ensures forall k :: 0 <= k < n ==> IsSpace(s[k])
    ensures n < |s| ==> !IsSpace(s[n])
  {
    if |s| > 0 && IsSpace(s[0]) then 1 + LeadingSpaces(s[1..]) else 0
  }

  /** Number of white-space characters at the end of `s`. */
  function TrailingSpaces(s: string): (n: nat)
    ensures n <= |s|
    ensures forall k :: |s| - n <= k < |s| ==> IsSpace(s[k])
    ensures n < |s| ==> !IsSpace(s[|s| - n - 1])
  {
    if |s| > 0 && IsSpace(s[|s| - 1]) then 1 + TrailingSpaces(s[..|s| - 1]) else 0
  }

  /** `strings.TrimSpace`: `s` without its leading and trailing white space. */
  function TrimSpace(s: string): (r: string)
    ensures |r| <= |s|
    ensures r == "" || (!IsSpace(r[0]) && !IsSpace(r[|r| - 1]))
    ensures r == "" <==> IsBlank(s)
    ensures exists i :: 0 <= i && i + |r| <= |s| && r == s[i..i + |r|] && IsBlank(s[..i]) && IsBlank(s[i + |r|..])
  {
    var i := LeadingSpaces(s);
    var j := TrailingSpaces(s[i..]);
    TrimmedEnds(s, i, j);
    TrimmedBlank(s, i, j);
    var r := s[i..|s| - j];
    assert i + |r| <= |s| && r == s[i..i + |r|] && IsBlank(s[..i]) && IsBlank(s[i + |r|..]);
    r
  }

  /** The text between the leading and the trailing white space neither starts nor ends with white
      space, and sits between two blank texts. */
  lemma TrimmedEnds(s: string, i: nat, j: nat)
    requires i == LeadingSpaces(s) && j == TrailingSpaces(s[i..])
    ensures i <= |s| - j
    ensures var r := s[i..|s| - j];
            && (r == "" || (!IsSpace(r[0]) && !IsSpace(r[|r| - 1])))
            && IsBlank(s[..i]) && IsBlank(s[i + |r|..])
  {
    var t := s[i..];
    var r := s[i..|s| - j];
    assert r == t[..|t| - j];
    if r != "" {
      assert r[0] == s[i];
      assert r[|r| - 1] == t[|t| - j - 1];
    }
    var u := s[i + |r|..];
    forall k | 0 <= k < |u| ensures IsSpace(u[k]) {
      assert u[k] == t[|t| - j + k];
    }
  }

  /** Nothing is left between the white space exactly when the text is blank. */
  lemma TrimmedBlank(s: string, i: nat, j: nat)
    requires i == LeadingSpaces(s) && j == TrailingSpaces(s[i..])
    ensures i <= |s| - j
    ensures s[i..|s| - j] == "" <==> IsBlank(s)
  {
    var t := s[i..];
    if i < |s| {
      assert t[0] == s[i] && !IsSpace(s[i]);
      assert j < |t|;
    } else {
      assert s[..i] == s;
    }
  }

  lemma {:induction false} TrimSpaceIdempotent(s: string)
    ensures TrimSpace(TrimSpace(s)) == TrimSpace(s)
  {
    var r := TrimSpace(s);
    assert LeadingSpaces(r) == 0;
    assert TrailingSpaces(r) == 0;
  }

  /** A string that neither starts nor ends with white space is its own trimming. */
  lemma TrimSpaceOfTrimmed(s: string)
    requires s != [] && !IsSpace(s[0]) && !IsSpace(s[|s| - 1])
    ensures TrimSpace(s) == s
  {
    assert LeadingSpaces(s) == 0;
    assert TrailingSpaces(s) == 0;
  }

  /** The position of the first `c` in `s`. */
  function IndexOf(s: string, c: char): (i: nat)
    requires c in s
    ensures i < |s| && s[i] == c && c !in s[..i]
  {
    if s[0] == c then 0
    else
      assert c in s[1..] by {
        var k :| 0 <= k < |s| && s[k] == c;
        assert s[1..][k - 1] == c;
      }
      var i := 1 + IndexOf(s[1..], c);
      assert s[..i] == [s[0]] + s[1..][..i - 1];
      i
  }

  /** Regrouping a concatenation of three strings. */
  lemma Assoc(a: string, b: string, c: string)
    ensures a + (b + c) == (a + b) + c
  {
  }

  /** Dropping the first of two leading characters. */
  lemma DropFirst(a: char, b: char, rest: string)
    ensures ([a, b] + rest)[1..] == [b] + rest
  {
  }

  /** Behind a prefix without `c`, the first `c` moves by the prefix's length. */
  lemma {:induction false} IndexOfAfter(head: string, tail: string, c: char)
    requires c !in head && c in tail
    ensures c in head + tail && IndexOf(head + tail, c) == |head| + IndexOf(tail, c)
  {
    var s := head + tail;
    assert s[|head| + IndexOf(tail, c)] == c;
    if head != [] {
      assert s[0] == head[0] && s[1..] == head[1..] + tail;
      IndexOfAfter(head[1..], tail, c);
    } else {
      assert s == tail;
    }
  }

  /** Dropping a prefix and then some more. */
  lemma DropConcat(head: string, tail: string, k: nat)
    requires k <= |tail|
    ensures (head + tail)[|head| + k..] == tail[k..]
  {
  }

  // ---------------------------------------------------------------- decimal digits

  predicate IsDigit(c: char) { '0' <= c <= '9' }

  predicate AllDigits(s: string) {
    forall k :: 0 <= k < |s| ==> IsDigit(s[k])
  }

  function DigitChar(d: nat): (c: char)
    requires d < 10
    ensures IsDigit(c)
  {
    "0123456789"[d]
  }

  function DigitValue(c: char): (d: nat)
    requires IsDigit(c)
    ensures d < 10
  {
    (c as int - '0' as int) as nat
  }

  lemma DigitRoundTrip(d: nat)
    requires d < 10
    ensures DigitValue(DigitChar(d)) == d
  {
  }

  /** The number written by a string of decimal digits (what `strconv.Atoi` returns for it). */
  function DecimalValue(s: string): nat
    requires AllDigits(s)
  {
    if s == [] then 0 else 10 * DecimalValue(s[..|s| - 1]) + DigitValue(s[|s| - 1])
  }

  /** `fmt.Sprintf("%d", n)` for a non-negative `n`. */
  function Decimal(n: nat): (r: string)
    ensures |r| > 0 && AllDigits(r)
    ensures |r| > 1 ==> r[0] != '0'
    ensures DecimalValue(r) == n
  {
    if n < 10 then [DigitChar(n)]
    else
      var r := Decimal(n / 10) + [DigitChar(n % 10)];
      assert r[..|r| - 1] == Decimal(n / 10);
      r
  }

  function Pow10(k: nat): (p: nat)
    ensures p >= 1
  {
    if k == 0 then 1 else 10 * Pow10(k - 1)
  }

  /** `fmt.Sprintf("%0wd", n)` for `n < 10^w`: exactly `w` digits, zero-padded on the left. */
  function Padded(n: nat, w: nat): (r: string)
    requires n < Pow10(w)
    ensures |r| == w && AllDigits(r)
    ensures DecimalValue(r) == n
  {
    if w == 0 then ""
    else
      var r := Padded(n / 10, w - 1) + [DigitChar(n % 10)];
      assert r[..|r| - 1] == Padded(n / 10, w - 1);
      r
  }

  /** Length of the run of decimal digits at the start of `s`. */
  function DigitRun(s: string): (n: nat)
    ensures n <= |s|
    ensures AllDigits(s[..n])
    ensures n < |s| ==> !IsDigit(s[n])
  {
    if |s| > 0 && IsDigit(s[0]) then
      var n := 1 + DigitRun(s[1..]);
      assert s[..n] == [s[0]] + s[1..][..n - 1];
      n
    else 0
  }

  lemma {:induction false} DigitRunOfDigitsThen(d: string, rest: string)
    requires AllDigits(d)
    requires rest == [] || !IsDigit(rest[0])
    ensures DigitRun(d + rest) == |d|
  {
    if d != [] {
      assert (d + rest)[1..] == d[1..] + rest;
      DigitRunOfDigitsThen(d[1..], rest);
    }
  }

  lemma {:induction false} DecimalValueConcat(a: string, b: string)
    requires AllDigits(a) && AllDigits(b)
    ensures AllDigits(a + b)
    ensures DecimalValue(a + b) == DecimalValue(a) * Pow10(|b|) + DecimalValue(b)
  {
    if b != [] {
      var ab := a + b;
      var b' := b[..|b| - 1];
      assert ab[..|ab| - 1] == a + b';
      DecimalValueConcat(a, b');
      var x, y, p, d := DecimalValue(a), DecimalValue(b'), Pow10(|b'|), DigitValue(b[|b| - 1]);
      assert ab[|ab| - 1] == b[|b| - 1];
      assert DecimalValue(ab) == 10 * DecimalValue(a + b') + d;
      assert DecimalValue(b) == 10 * y + d;
      assert Pow10(|b|) == 10 * p;
      ShiftDigit(x, p, y, d);
    } else {
      assert a + b == a;
    }
  }

  lemma ShiftDigit(x: int, p: int, y: int, d: int)
    ensures 10 * (x * p + y) + d == x * (10 * p) + (10 * y + d)
  {
  }

  /** Number of bytes in the UTF-8 encoding of `s`: what Go's `len` counts for a string. */
  function Utf8Length(s: string): (n: nat)
    ensures n >= |s|
  {
    if s == [] then 0
    else
      var c := s[0] as int;
      (if c < 0x80 then 1 else if c < 0x800 then 2 else if c < 0x10000 then 3 else 4) + Utf8Length(s[1..])
  }

  lemma {:induction false} Utf8LengthOfDigits(s: string)
    requires AllDigits(s)
    ensures Utf8Length(s) == |s|
  {
    if s != [] {
      Utf8LengthOfDigits(s[1..]);
    }
  }

  lemma CharRoundTrip(c: char)
    requires IsDigit(c)
    ensures DigitChar(DigitValue(c)) == c
  {
    var d := DigitValue(c);
    if d == 0 { assert c == '0'; } else if d == 1 { assert c == '1'; } else if d == 2 { assert c == '2'; }
    else if d == 3 { assert c == '3'; } else if d == 4 { assert c == '4'; } else if d == 5 { assert c == '5'; }
    else if d == 6 { assert c == '6'; } else if d == 7 { assert c == '7'; } else if d == 8 { assert c == '8'; }
    else { assert c == '9'; }
  }

  /** A string of `k` digits writes a number below `10^k`. */
  lemma {:induction false} DecimalValueBound(s: string)
    requires AllDigits(s)
    ensures DecimalValue(s) < Pow10(|s|)
  {
    if s != [] {
      DecimalValueBound(s[..|s| - 1]);
    }
  }

  /** Zero-padding to its own width gives back any digit string. */
  lemma {:induction false} PaddedOfValue(s: string)
    requires AllDigits(s)
    ensures DecimalValue(s) < Pow10(|s|) && Padded(DecimalValue(s), |s|) == s
  {
    DecimalValueBound(s);
    if s != [] {
      var s' := s[..|s| - 1];
      var c := s[|s| - 1];
      PaddedOfValue(s');
      CharRoundTrip(c);
      var n := DecimalValue(s);
      assert n == 10 * DecimalValue(s') + DigitValue(c);
      assert n / 10 == DecimalValue(s') && n % 10 == DigitValue(c);
      assert s == s' + [c];
    }
  }

  lemma {:induction false} Pow10Add(a: nat, b: nat)
    ensures Pow10(a + b) == Pow10(a) * Pow10(b)
  {
    if b != 0 {
      Pow10Add(a, b - 1);
      assert Pow10(a + b) == 10 * Pow10(a + b - 1);
      MulAssoc10(Pow10(a), Pow10(b - 1));
    }
  }

  lemma MulAssoc10(x: int, y: int)
    ensures 10 * (x * y) == x * (10 * y)
  {
  }

  /** Splitting a digit string: the head's value is the quotient by `10^|tail|`, the tail's the remainder. */
  lemma SplitDigits(s: string, k: nat)
    requires AllDigits(s) && k <= |s|
    ensures AllDigits(s[..k]) && AllDigits(s[k..])
    ensures DecimalValue(s[..k]) == DecimalValue(s) / Pow10(|s| - k)
    ensures DecimalValue(s[k..]) == DecimalValue(s) % Pow10(|s| - k)
  {
    assert s == s[..k] + s[k..];
    DecimalValueConcat(s[..k], s[k..]);
    DecimalValueBound(s[k..]);
    DivModUnique(DecimalValue(s), DecimalValue(s[..k]), DecimalValue(s[k..]), Pow10(|s| - k));
  }

  lemma DivModUnique(n: int, q: int, r: int, m: int)
    requires m > 0 && 0 <= r < m && n == q * m + r
    ensures q == n / m && r == n % m
  {
    var q', r' := n / m, n % m;
    assert n == q' * m + r';
    if q' > q {
      assert (q' - q) * m == r - r';
      MulAtLeast(q' - q, m);
    } else if q' < q {
      assert (q - q') * m == r' - r;
      MulAtLeast(q - q', m);
    }
  }

  /** Rounding down to a multiple of `m` gives a number between 0 and `x`, short of `x` by the remainder. */
  lemma RoundDown(x: nat, m: nat)
    requires m > 0
    ensures 0 <= x / m * m <= x
    ensures x == x / m * m + x % m
  {
  }

  lemma MulAtLeast(a: int, m: int)
    requires a >= 1 && m > 0
    ensures a * m >= m
  {
  }

  /** A digit string writes zero exactly when every digit is `0`. */
  lemma {:induction false} ZeroDigits(s: string)
    requires AllDigits(s)
    ensures DecimalValue(s) == 0 <==> forall k :: 0 <= k < |s| ==> s[k] == '0'
  {
    if s != [] {
      var s' := s[..|s| - 1];
      ZeroDigits(s');
      if DecimalValue(s) == 0 {
        forall k | 0 <= k < |s| ensures s[k] == '0' {
          if k < |s| - 1 { assert s[k] == s'[k]; }
        }
      }
      if forall k :: 0 <= k < |s| ==> s[k] == '0' {
        forall k | 0 <= k < |s'| ensures s'[k] == '0' { assert s'[k] == s[k]; }
        assert DecimalValue(s) == 10 * DecimalValue(s') + DigitValue(s[|s| - 1]);
      }
    }
  }

  /** Two-digit padding writes the tens digit, then the units digit. */
  lemma PaddedTwoDigits(n: nat)
    requires n < 100
    ensures Padded(n, 2) == [DigitChar(n / 10), DigitChar(n % 10)]
  {
    assert Padded(n / 10, 1) == [DigitChar(n / 10)];
  }

  /** A one-digit number zero-padded to two places. */
  lemma PaddedOneDigit(n: nat)
    requires n < 10
    ensures Padded(n, 2) == ['0', DigitChar(n)]
  {
    assert n / 10 == 0 && n % 10 == n;
    assert Padded(0, 1) == ['0'];
  }
}
