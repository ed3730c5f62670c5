/**
 * The rupiah formatter: an integer amount written as `Rp ` followed by its
 * sign and its decimal digits grouped in threes with `.` as the separator
 * (Python's `,` thousands grouping with the commas replaced by dots).
 * A strict parser is the formatter's inverse.
 */
module Currency {
  import opened Wrappers

  const Prefix: string := "Rp "

  predicate IsDigit(c: char)
  {
    '0' <= c <= '9'
  }

  predicate AllDigits(s: string)
  {
    forall i :: 0 <= i < |s| ==> IsDigit(s[i])
  }

  /** The shortest decimal spelling of a number: no leading zero except for zero itself. */
  predicate Canonical(s: string)
  {
    |s| >= 1 && AllDigits(s) && (s[0] == '0' ==> |s| == 1)
  }

  function DigitChar(d: nat): (c: char)
    requires d < 10
    ensures IsDigit(c)
  {
    (d + 48) as char
  }

  function DigitValue(c: char): (d: nat)
    requires IsDigit(c)
    ensures d < 10 && DigitChar(d) == c
  {
    c as int - 48
  }

  /** Decimal digits of `n`, most significant first. */
  function Digits(n: nat): (s: string)
    ensures Canonical(s)
    ensures s[0] == '0' <==> n == 0
    decreases n
  {
    if n < 10 then [DigitChar(n)] else Digits(n / 10) + [DigitChar(n % 10)]
  }

  /** The number a string of decimal digits denotes. */
  function ValueOf(s: string): nat
    requires AllDigits(s)
    decreases |s|
  {
    if |s| == 0 then 0 else ValueOf(s[..|s| - 1]) * 10 + DigitValue(s[|s| - 1])
  }

  /** Python's `str` of an integer: an optional minus sign and the digits of the magnitude. */
  function DecimalString(n: int): string
  {
    (if n < 0 then "-" else "") + Digits(if n < 0 then -n else n)
  }

  /** Digits grouped in threes from the right, the groups joined by `.`. */
  function Group(ds: string): string
    decreases |ds|
  {
    if |ds| <= 3 then ds else Group(ds[..|ds| - 3]) + "." + ds[|ds| - 3..]
  }

  /**
   * The shape of a grouped number: a first group of one to three digits and
   * then groups of exactly three digits, each preceded by a dot. Equivalently,
   * counting from the right end, every fourth character is a dot and the
   * others are digits.
   */
  predicate WellGrouped(s: string)
  {
    && |s| % 4 != 0
    && forall i :: 0 <= i < |s| ==> if (|s| - i) % 4 == 0 then s[i] == '.' else IsDigit(s[i])
  }

  function RemoveDots(s: string): string
    decreases |s|
  {
    if |s| == 0 then "" else RemoveDots(s[..|s| - 1]) + (if s[|s| - 1] == '.' then "" else [s[|s| - 1]])
  }

  /** `f"{n:,}"` with the commas replaced by dots. */
  function FormatInt(n: int): string
  {
    (if n < 0 then "-" else "") + Group(Digits(if n < 0 then -n else n))
  }

  /** `rupiah` for an integer amount. */
  function Rupiah(n: int): (s: string)
    ensures |s| > |Prefix| && s[..|Prefix|] == Prefix
  {
    Prefix + FormatInt(n)
  }

  /** Python's `int(x)` on a float: truncation toward zero. */
  function TruncateToInt(x: real): (k: int)
    ensures x >= 0.0 ==> 0 <= k && k as real <= x < k as real + 1.0
    ensures x < 0.0 ==> k <= 0 && k as real - 1.0 < x <= k as real
  {
    if x >= 0.0 then x.Floor else -((-x).Floor)
  }

  /** `rupiah` for a float amount: the amount is truncated toward zero first. */
  function RupiahOfReal(x: real): string
  {
    Rupiah(TruncateToInt(x))
  }

  /** Reads back an unsigned grouped amount written without a leading zero. */
  function ParseMagnitude(m: string): Option<nat>
  {
    var ds := RemoveDots(m);
    if WellGrouped(m) && Canonical(ds) then Some(ValueOf(ds)) else None
  }

  /** Reads back an optional minus sign and a magnitude; a negative zero is refused. */
  function ParseSigned(body: string): Option<int>
  {
    if |body| > 0 && body[0] == '-' then
      match ParseMagnitude(body[1..])
      case Some(v) => if v == 0 then None else Some(-(v as int))
      case None => None
    else
      match ParseMagnitude(body)
      case Some(v) => Some(v)
      case None => None
  }

  /**
   * Reads back a formatted amount. Only the formatter's own spellings are
   * accepted: the prefix, an optional minus sign, then well-grouped digits
   * with no leading zero and no negative zero.
   */
  function ParseRupiah(s: string): Option<int>
  {
    if |s| < |Prefix| || s[..|Prefix|] != Prefix then None else ParseSigned(s[|Prefix|..])
  }

  // ---------------------------------------------------------------------------
  // Digits and their value

  lemma {:induction false} ValueOfDigits(n: nat)
    ensures ValueOf(Digits(n)) == n
    decreases n
  {
    if n >= 10 {
      var s := Digits(n);
      assert s[..|s| - 1] == Digits(n / 10);
      ValueOfDigits(n / 10);
    }
  }

  /** A canonical digit string with a non-zero leading digit denotes a positive number. */
  lemma {:induction false} LeadingDigitPositive(s: string)
    requires Canonical(s) && s[0] != '0'
    ensures ValueOf(s) >= 1
    decreases |s|
  {
    if |s| > 1 {
      var p := s[..|s| - 1];
      assert p[0] == s[0];
      LeadingDigitPositive(p);
    } else {
      assert s[..0] == [];
    }
  }

  lemma {:induction false} DigitsOfValue(s: string)
    requires Canonical(s)
    ensures Digits(ValueOf(s)) == s
    decreases |s|
  {
    var n := |s| - 1;
    var p := s[..n];
    var d := DigitValue(s[n]);
    if n == 0 {
      assert p == [];
      assert ValueOf(s) == d;
    } else {
      assert p[0] == s[0];
      LeadingDigitPositive(p);
      DigitsOfValue(p);
      var v := ValueOf(p);
      assert ValueOf(s) == v * 10 + d;
      assert (v * 10 + d) / 10 == v && (v * 10 + d) % 10 == d;
      assert s == p + [s[n]];
    }
  }

  // ---------------------------------------------------------------------------
  // Grouping

  lemma {:induction false} RemoveDotsAppend(a: string, b: string)
    ensures RemoveDots(a + b) == RemoveDots(a) + RemoveDots(b)
    decreases |b|
  {
    if |b| == 0 {
      assert a + b == a;
    } else {
      assert (a + b)[..|a + b| - 1] == a + b[..|b| - 1];
      RemoveDotsAppend(a, b[..|b| - 1]);
    }
  }

  lemma {:induction false} RemoveDotsOfDigits(s: string)
    requires AllDigits(s)
    ensures RemoveDots(s) == s
    decreases |s|
  {
    if |s| > 0 {
      RemoveDotsOfDigits(s[..|s| - 1]);
    }
  }

  /** Deleting the separators from a grouped digit string gives the digits back. */
  lemma {:induction false} UngroupGroup(ds: string)
    requires AllDigits(ds)
    ensures RemoveDots(Group(ds)) == ds
    decreases |ds|
  {
    if |ds| <= 3 {
      RemoveDotsOfDigits(ds);
    } else {
      var hi := ds[..|ds| - 3];
      var lo := ds[|ds| - 3..];
      UngroupGroup(hi);
      assert AllDigits(lo) by {
        forall i | 0 <= i < |lo|
          ensures IsDigit(lo[i])
        {
          assert lo[i] == ds[|ds| - 3 + i];
        }
      }
      RemoveDotsSplit(Group(hi), lo);
      assert hi + lo == ds;
    }
  }

  /** Grouping a non-empty digit string produces the grouped shape. */
  lemma {:induction false} GroupWellGrouped(ds: string)
    requires |ds| >= 1 && AllDigits(ds)
    ensures WellGrouped(Group(ds))
    decreases |ds|
  {
    if |ds| > 3 {
      var hi := ds[..|ds| - 3];
      var lo := ds[|ds| - 3..];
      assert AllDigits(hi) by {
        forall i | 0 <= i < |hi|
          ensures IsDigit(hi[i])
        {
          assert hi[i] == ds[i];
        }
      }
      assert AllDigits(lo) by {
        forall i | 0 <= i < |lo|
          ensures IsDigit(lo[i])
        {
          assert lo[i] == ds[|ds| - 3 + i];
        }
      }
      GroupWellGrouped(hi);
      WellGroupedSnoc(Group(hi), lo);
    }
  }

  /** A well-grouped head, a dot and three digits form a well-grouped string. */
  lemma WellGroupedSnoc(g: string, lo: string)
    requires WellGrouped(g) && AllDigits(lo) && |lo| == 3
    ensures WellGrouped(g + "." + lo)
  {
    var s := g + "." + lo;
    forall i | 0 <= i < |s|
      ensures if (|s| - i) % 4 == 0 then s[i] == '.' else IsDigit(s[i])
    {
      if i < |g| {
        assert s[i] == g[i];
        assert |s| - i == (|g| - i) + 4;
      } else if i == |g| {
        assert s[i] == '.';
      } else {
        assert s[i] == lo[i - |g| - 1];
      }
    }
  }

  /** A well-grouped string of at most three characters is a plain digit string. */
  lemma WellGroupedShort(s: string)
    requires WellGrouped(s) && |s| <= 3
    ensures AllDigits(s)
  {
    forall i | 0 <= i < |s|
      ensures IsDigit(s[i])
    {
      assert (|s| - i) % 4 != 0;
    }
  }

  /** A longer well-grouped string is a well-grouped head, a dot and three digits. */
  lemma WellGroupedSplit(s: string)
    requires WellGrouped(s) && |s| > 3
    ensures |s| >= 5
    ensures s == s[..|s| - 4] + "." + s[|s| - 3..]
    ensures WellGrouped(s[..|s| - 4])
    ensures AllDigits(s[|s| - 3..])
  {
    var g := s[..|s| - 4];
    var lo := s[|s| - 3..];
    assert s[|s| - 4] == '.';
    forall i | 0 <= i < |g|
      ensures if (|g| - i) % 4 == 0 then g[i] == '.' else IsDigit(g[i])
    {
      assert g[i] == s[i];
      assert (|s| - i) % 4 == (|g| - i) % 4;
    }
    forall i | 0 <= i < 3
      ensures IsDigit(lo[i])
    {
      assert lo[i] == s[|s| - 3 + i];
      assert (|s| - (|s| - 3 + i)) % 4 != 0;
    }
  }

  /** Deleting the dots from `g + "." + lo` with `lo` all digits. */
  lemma RemoveDotsSplit(g: string, lo: string)
    requires AllDigits(lo)
    ensures RemoveDots(g + "." + lo) == RemoveDots(g) + lo
  {
    var a := g + ".";
    assert RemoveDots(".") == "" by {
      assert "."[..0] == "";
    }
    RemoveDotsAppend(g, ".");
    assert RemoveDots(g) + "" == RemoveDots(g);
    assert RemoveDots(a) == RemoveDots(g);
    RemoveDotsAppend(a, lo);
    RemoveDotsOfDigits(lo);
  }

  /** Grouping a digit string whose last three digits are `lo`. */
  lemma GroupSnoc(h: string, lo: string)
    requires |h| >= 1 && |lo| == 3
    ensures Group(h + lo) == Group(h) + "." + lo
  {
    var ds := h + lo;
    assert ds[..|ds| - 3] == h;
    assert ds[|ds| - 3..] == lo;
  }

  /** A well-grouped string is the grouping of its own digits. */
  lemma {:induction false} GroupUngroup(s: string)
    requires WellGrouped(s)
    ensures AllDigits(RemoveDots(s)) && |RemoveDots(s)| >= 1
    ensures Group(RemoveDots(s)) == s
    decreases |s|
  {
    if |s| <= 3 {
      WellGroupedShort(s);
      RemoveDotsOfDigits(s);
    } else {
      WellGroupedSplit(s);
      var g := s[..|s| - 4];
      var lo := s[|s| - 3..];
      GroupUngroup(g);
      UngroupStep(g, lo);
    }
  }

  /** One step of `GroupUngroup`: put the last group back after a well-grouped prefix. */
  lemma UngroupStep(g: string, lo: string)
    requires AllDigits(RemoveDots(g)) && |RemoveDots(g)| >= 1 && Group(RemoveDots(g)) == g
    requires AllDigits(lo) && |lo| == 3
    ensures AllDigits(RemoveDots(g + "." + lo)) && |RemoveDots(g + "." + lo)| >= 1
    ensures Group(RemoveDots(g + "." + lo)) == g + "." + lo
  {
    RemoveDotsSplit(g, lo);
    var h := RemoveDots(g);
    AllDigitsAppend(h, lo);
    GroupSnoc(h, lo);
  }

  lemma AllDigitsAppend(a: string, b: string)
    requires AllDigits(a) && AllDigits(b)
    ensures AllDigits(a + b)
  {
    forall i | 0 <= i < |a + b|
      ensures IsDigit((a + b)[i])
    {
      if i >= |a| {
        assert (a + b)[i] == b[i - |a|];
      }
    }
  }

  /** The magnitude parser accepts exactly the groupings of canonical digit strings. */
  lemma ParseMagnitudeIff(m: string, v: nat)
    ensures ParseMagnitude(m) == Some(v) <==> m == Group(Digits(v))
  {
    if m == Group(Digits(v)) {
      GroupWellGrouped(Digits(v));
      UngroupGroup(Digits(v));
      ValueOfDigits(v);
    }
    if ParseMagnitude(m) == Some(v) {
      GroupUngroup(m);
      DigitsOfValue(RemoveDots(m));
    }
  }

  // ---------------------------------------------------------------------------
  // Properties of the formatter

  /**
   * `rupiah(n)` is the prefix, then a minus sign exactly when `n` is negative,
   * then the magnitude in well-grouped form; deleting the prefix and the dots
   * leaves Python's decimal spelling of `n`.
   */
  lemma RupiahShape(n: int)
    ensures var body := Rupiah(n)[|Prefix|..];
      && |body| >= 1
      && (n < 0 ==> body[0] == '-' && WellGrouped(body[1..]))
      && (n >= 0 ==> WellGrouped(body))
      && RemoveDots(body) == DecimalString(n)
  {
    var m := if n < 0 then -n else n;
    var g := Group(Digits(m));
    var body := Rupiah(n)[|Prefix|..];
    GroupWellGrouped(Digits(m));
    UngroupGroup(Digits(m));
    if n < 0 {
      assert body == "-" + g;
      RemoveDotsAppend("-", g);
      assert RemoveDots("-") == "-" by {
        assert "-"[..0] == "";
      }
      assert body[1..] == g;
      assert DecimalString(n) == "-" + Digits(m);
    } else {
      assert body == g;
      assert DecimalString(n) == Digits(m);
    }
  }

  /** A grouped magnitude starts with a digit, so it is never mistaken for a sign. */
  lemma GroupStartsWithDigit(v: nat)
    ensures |Group(Digits(v))| >= 1 && IsDigit(Group(Digits(v))[0])
  {
    var g := Group(Digits(v));
    GroupWellGrouped(Digits(v));
    assert |g| % 4 != 0;
  }

  /** The sign-and-magnitude parser reads back every formatted integer. */
  lemma ParseSignedFormatted(n: int)
    ensures ParseSigned(FormatInt(n)) == Some(n)
  {
    if n < 0 {
      ParseSignedNegative(n);
    } else {
      ParseSignedNonNegative(n);
    }
  }

  lemma ParseSignedNegative(n: int)
    requires n < 0
    ensures ParseSigned(FormatInt(n)) == Some(n)
  {
    var g := Group(Digits(-n));
    ParseMagnitudeIff(g, -n);
    var body := "-" + g;
    assert (if n < 0 then -n else n) == -n;
    assert FormatInt(n) == body;
    assert body[0] == '-';
    assert body[1..] == g;
  }

  lemma ParseSignedNonNegative(n: int)
    requires n >= 0
    ensures ParseSigned(FormatInt(n)) == Some(n)
  {
    var g := Group(Digits(n));
    ParseMagnitudeIff(g, n);
    GroupStartsWithDigit(n);
    assert FormatInt(n) == g;
  }

  /** The parser reads back every formatted amount. */
  lemma ParseFormatted(n: int)
    ensures ParseRupiah(Rupiah(n)) == Some(n)
  {
    var f := FormatInt(n);
    ParseSignedFormatted(n);
    assert (Prefix + f)[..|Prefix|] == Prefix;
    assert (Prefix + f)[|Prefix|..] == f;
  }

  /** Every string the parser accepts is the formatting of the amount it returns. */
  lemma ParsedIsFormatted(s: string, n: int)
    requires ParseRupiah(s) == Some(n)
    ensures s == Rupiah(n)
  {
    var body := s[|Prefix|..];
    assert s == Prefix + body;
    if |body| > 0 && body[0] == '-' {
      var v := ParseMagnitude(body[1..]).value;
      ParseMagnitudeIff(body[1..], v);
      assert n == -(v as int) && v > 0;
      assert FormatInt(n) == "-" + Group(Digits(v));
      assert body == "-" + body[1..];
    } else {
      var v := ParseMagnitude(body).value;
      ParseMagnitudeIff(body, v);
      assert n == v;
      assert FormatInt(n) == Group(Digits(v));
    }
  }

  /** Formatting is injective and the parser is its exact inverse. */
  lemma ParseRupiahIff(s: string, n: int)
    ensures ParseRupiah(s) == Some(n) <==> s == Rupiah(n)
  {
    if s == Rupiah(n) {
      ParseFormatted(n);
    }
    if ParseRupiah(s) == Some(n) {
      ParsedIsFormatted(s, n);
    }
  }

  /** Two amounts format alike only if they are equal. */
  lemma RupiahInjective(m: int, n: int)
    requires Rupiah(m) == Rupiah(n)
    ensures m == n
  {
    ParseFormatted(m);
    ParseFormatted(n);
  }

  /**
   * Formatting a fractional amount prints its truncation toward zero: the
   * parser reads back an integer no farther from zero than the amount and
   * less than one away from it.
   */
  lemma RupiahOfRealReadsBack(x: real)
    ensures ParseRupiah(RupiahOfReal(x)).Some?
    ensures var k := ParseRupiah(RupiahOfReal(x)).value;
            && (x >= 0.0 ==> 0 <= k && k as real <= x < k as real + 1.0)
            && (x < 0.0 ==> k <= 0 && k as real - 1.0 < x <= k as real)
  {
    ParseFormatted(TruncateToInt(x));
  }

  /** Worked examples of the formatter. */
  lemma RupiahExample()
    ensures Rupiah(1234567) == "Rp 1.234.567"
    ensures Rupiah(-1000) == "Rp -1.000"
    ensures Rupiah(0) == "Rp 0"
  {
    DigitsExample();
    GroupExample();
  }

  lemma DigitsExample()
    ensures Digits(1234567) == "1234567"
    ensures Digits(1000) == "1000"
  {
    assert Digits(1) == "1";
    assert Digits(12) == "12";
    assert Digits(123) == "123";
    assert Digits(1234) == "1234";
    assert Digits(12345) == "12345";
    assert Digits(123456) == "123456";
    assert Digits(10) == "10";
    assert Digits(100) == "100";
  }

  lemma GroupExample()
    ensures Group("1234567") == "1.234.567"
    ensures Group("1000") == "1.000"
  {
    var a := "1234567";
    assert a[..4] == "1234" && a[4..] == "567";
    var b := "1234";
    assert b[..1] == "1" && b[1..] == "234";
    assert Group(b) == "1" + "." + "234";
    assert Group(a) == "1.234" + "." + "567";
    var c := "1000";
    assert c[..1] == "1" && c[1..] == "000";
  }
}
