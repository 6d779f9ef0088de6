/// Go's `strconv.Atoi` on a 64-bit platform, which the page-option parser
/// calls and whose error it discards. Atoi accepts an optional '+' or '-'
/// followed by decimal digits. A syntax error yields 0. A value out of the
/// int64 range is clamped to the nearest bound, and an overflow found while
/// scanning wins over a syntax error later in the string.
module GoStrconv {

  const MaxInt64: int := 0x7fff_ffff_ffff_ffff
  const MinInt64: int := -0x8000_0000_0000_0000
  const MaxUint64: int := 0xffff_ffff_ffff_ffff
  /// strconv.ParseUint's overflow cutoff for base 10: maxUint64/10 + 1.
  const Cutoff: int := MaxUint64 / 10 + 1

  predicate IsDigit(c: char) {
    '0' <= c <= '9'
  }

  function DigitValue(c: char): nat
    requires IsDigit(c)
  {
    c as int - '0' as int
  }

  /// The state of strconv.ParseUint's left-to-right scan.
  datatype Scan = Syntax | Overflow | Value(n: nat)

  /// One step of the scan: read character `c` into the accumulated value.
  function Step(acc: Scan, c: char): Scan {
    match acc
    case Value(n) =>
      if !IsDigit(c) then Syntax
      else if n >= Cutoff || n * 10 + DigitValue(c) > MaxUint64 then Overflow
      else Value(n * 10 + DigitValue(c))
    case _ => acc
  }

  /// strconv.ParseUint(s, 10, 64)'s loop from position `i` with the value
  /// `n` read so far; it stops at the first syntax error or overflow.
  function ScanFrom(s: string, i: nat, n: nat): (r: Scan)
    requires i <= |s|
    ensures r.Value? ==> r.n <= MaxUint64 || (i == |s| && r.n == n)
    decreases |s| - i
  {
    if i == |s| then Value(n)
    else
      match Step(Value(n), s[i])
      case Value(m) => ScanFrom(s, i + 1, m)
      case other => other
  }

  /// strconv.ParseUint(s, 10, 64); the empty string is a syntax error.
  function ParseUint10(s: string): Scan {
    if s == "" then Syntax else ScanFrom(s, 0, 0)
  }

  /// strconv.Atoi(s), its error ignored.
  function Atoi(s: string): (r: int)
    ensures MinInt64 <= r <= MaxInt64
    ensures s == "" ==> r == 0
  {
    if s == "" then 0
    else
      var neg := s[0] == '-';
      var body := if s[0] == '+' || s[0] == '-' then s[1..] else s;
      match ParseUint10(body)
      case Syntax => 0
      case Overflow => if neg then MinInt64 else MaxInt64
      case Value(u) =>
        if !neg && u > MaxInt64 then MaxInt64
        else if neg && u > -MinInt64 then MinInt64
        else if neg then 0 - u as int
        else u
  }

  function DigitChar(d: nat): (c: char)
    requires d < 10
    ensures IsDigit(c) && DigitValue(c) == d
  {
    ('0' as int + d) as char
  }

  /// strconv.Itoa of a non-negative number: its decimal digits, most
  /// significant first, with no leading zero.
  function Digits(n: nat): (r: string)
    ensures r != "" && IsDigit(r[0])
    decreases n
  {
    if n < 10 then [DigitChar(n)] else Digits(n / 10) + [DigitChar(n % 10)]
  }

  /// strconv.Itoa: the decimal rendering of `n`, with a '-' when negative.
  function Decimal(n: int): string {
    if n < 0 then "-" + Digits(-n) else Digits(n)
  }

  /// Scanning one more character continues from where the shorter scan
  /// stopped: ParseUint's loop is a left fold of `Step`.
  lemma {:induction false} ScanSnoc(s: string, c: char, i: nat, n: nat)
    requires i <= |s|
    ensures ScanFrom(s + [c], i, n) == Step(ScanFrom(s, i, n), c)
    decreases |s| - i
  {
    if i < |s| {
      assert (s + [c])[i] == s[i];
      match Step(Value(n), s[i])
      case Value(m) => ScanSnoc(s, c, i + 1, m);
      case _ =>
    }
  }

  /// ParseUint reads back every number Itoa writes in range.
  lemma {:induction false} ParseDigits(n: nat)
    requires n <= MaxUint64
    ensures ParseUint10(Digits(n)) == Value(n)
    decreases n
  {
    if n >= 10 {
      ParseDigits(n / 10);
      ScanSnoc(Digits(n / 10), DigitChar(n % 10), 0, 0);
      assert n / 10 < Cutoff && n / 10 * 10 + n % 10 == n;
      assert Step(Value(n / 10), DigitChar(n % 10)) == Value(n);
    } else {
      assert Step(Value(0), DigitChar(n)) == Value(n);
      assert ScanFrom([DigitChar(n)], 1, n) == Value(n);
    }
  }

  /// Atoi is a left inverse of Itoa on the int64 range: every in-range
  /// number, negative ones included, parses back to itself.
  lemma AtoiDecimal(n: int)
    requires MinInt64 <= n <= MaxInt64
    ensures Atoi(Decimal(n)) == n
  {
    if n < 0 {
      ParseDigits(-n);
      assert ("-" + Digits(-n))[1..] == Digits(-n);
    } else {
      ParseDigits(n);
    }
  }

  /// A string that starts with anything but a sign or a digit is a syntax
  /// error, so Atoi gives 0.
  lemma AtoiNonNumeric(s: string)
    requires s != "" && s[0] != '+' && s[0] != '-' && !IsDigit(s[0])
    ensures Atoi(s) == 0
  {
  }

  /// Scanning `s + t` first scans `s`; where that scan stops (a syntax
  /// error or an overflow) the rest is never read.
  lemma {:induction false} ScanAppend(s: string, t: string, i: nat, n: nat)
    requires i <= |s|
    ensures ScanFrom(s + t, i, n) == match ScanFrom(s, i, n)
                                     case Value(m) => ScanFrom(s + t, |s|, m)
                                     case other => other
    decreases |s| - i
  {
    if i < |s| {
      assert (s + t)[i] == s[i];
      match Step(Value(n), s[i])
      case Value(m) => ScanAppend(s, t, i + 1, m);
      case _ =>
    }
  }

  /// A number too large for uint64 overflows ParseUint while it is being
  /// scanned, whatever follows it.
  lemma {:induction false} ParseDigitsOverflow(n: nat, t: string)
    requires n > MaxUint64
    ensures ParseUint10(Digits(n) + t) == Overflow
    decreases n
  {
    var d := DigitChar(n % 10);
    var init := Digits(n / 10);
    assert Digits(n) + t == init + ([d] + t);
    ScanAppend(init, [d] + t, 0, 0);
    if n / 10 > MaxUint64 {
      ParseDigitsOverflow(n / 10, []);
      assert init + [] == init;
    } else {
      ParseDigits(n / 10);
      assert ([d] + t)[0] == d;
      assert (init + ([d] + t))[|init|] == d;
      assert Step(Value(n / 10), d) == Overflow by {
        assert n / 10 * 10 + n % 10 == n;
      }
    }
  }

  /// Out-of-range numbers are clamped to the nearest int64 bound.
  lemma AtoiClamp(n: nat)
    ensures n > MaxInt64 ==> Atoi(Digits(n)) == MaxInt64
    ensures n > -MinInt64 ==> Atoi("-" + Digits(n)) == MinInt64
  {
    assert ("-" + Digits(n))[1..] == Digits(n);
    assert Digits(n) + [] == Digits(n);
    if n > MaxUint64 {
      ParseDigitsOverflow(n, []);
    } else {
      ParseDigits(n);
    }
  }

  /// An overflow found while scanning wins over a syntax error after it:
  /// "99999999999999999999x" is clamped, not 0.
  lemma AtoiOverflowBeforeSyntaxError(n: nat, t: string)
    requires n > MaxUint64
    ensures Atoi(Digits(n) + t) == MaxInt64
    ensures Atoi("-" + Digits(n) + t) == MinInt64
  {
    ParseDigitsOverflow(n, t);
    assert ("-" + Digits(n) + t)[1..] == Digits(n) + t;
  }

  /// An in-range number followed by anything that does not start with a
  /// digit is a syntax error, so Atoi gives 0 ("12x", "-3 ").
  lemma AtoiTrailingJunk(n: int, t: string)
    requires MinInt64 <= n <= MaxInt64
    requires t != "" && !IsDigit(t[0])
    ensures Atoi(Decimal(n) + t) == 0
  {
    var m: nat := if n < 0 then -n else n;
    ParseDigits(m);
    ScanAppend(Digits(m), t, 0, 0);
    assert (Digits(m) + t)[|Digits(m)|] == t[0];
    if n < 0 {
      assert (Decimal(n) + t)[1..] == Digits(m) + t;
    }
  }

  /// A lone sign has no digits: Atoi gives 0.
  lemma AtoiSignOnly()
    ensures Atoi("+") == 0 && Atoi("-") == 0
  {
    assert "+"[1..] == "" && "-"[1..] == "";
  }
}
