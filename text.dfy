/** Strings as the Python source builds and compares them: integer formatting (`f"{n}"`,
    `f"{n:04d}"`), `str.isdigit`/`int`, `upper`, `lower`, `strip`, `startswith`,
    `endswith`, `replace`, `"/".join` and `PurePath.suffix`. */
module Text {
  import opened Wrappers

  predicate IsDigit(c: char) { '0' <= c <= '9' }

  /** Non-empty and made of ASCII digits only: the text `str(n)` and `f"{n:04d}"` produce. */
  predicate IsDigits(s: string)
  {
    |s| > 0 && forall i :: 0 <= i < |s| ==> IsDigit(s[i])
  }

  function DigitChar(d: nat): char
    requires d < 10
  {
    ('0' as int + d) as char
  }

  /** `int(s)` for a string of ASCII digits (leading zeros allowed, as in Python). */
  function DigitsValue(s: string): nat
    requires forall i :: 0 <= i < |s| ==> IsDigit(s[i])
  {
    if s == [] then 0
    else
      var last := s[|s| - 1];
      assert IsDigit(last);
      DigitsValue(s[..|s| - 1]) * 10 + (last as int - '0' as int)
  }

  /** The zero of the `i`-th run of ten decimal digits, in code point order: the 68 runs of
      Unicode 15.0 general category Nd (680 characters), the digits Python's `int()` reads,
      ASCII first; -1 past the last run. */
  function RunZero(i: nat): int
  {
    if i == 0 then 0x30
    else if i == 1 then 0x660
    else if i == 2 then 0x6F0
    else if i == 3 then 0x7C0
    else if i == 4 then 0x966
    else if i == 5 then 0x9E6
    else if i == 6 then 0xA66
    else if i == 7 then 0xAE6
    else if i == 8 then 0xB66
    else if i == 9 then 0xBE6
    else if i == 10 then 0xC66
    else if i == 11 then 0xCE6
    else if i == 12 then 0xD66
    else if i == 13 then 0xDE6
    else if i == 14 then 0xE50
    else if i == 15 then 0xED0
    else if i == 16 then 0xF20
    else if i == 17 then 0x1040
    else if i == 18 then 0x1090
    else if i == 19 then 0x17E0
    else if i == 20 then 0x1810
    else if i == 21 then 0x1946
    else if i == 22 then 0x19D0
    else if i == 23 then 0x1A80
    else if i == 24 then 0x1A90
    else if i == 25 then 0x1B50
    else if i == 26 then 0x1BB0
    else if i == 27 then 0x1C40
    else if i == 28 then 0x1C50
    else if i == 29 then 0xA620
    else if i == 30 then 0xA8D0
    else if i == 31 then 0xA900
    else if i == 32 then 0xA9D0
    else if i == 33 then 0xA9F0
    else if i == 34 then 0xAA50
    else if i == 35 then 0xABF0
    else if i == 36 then 0xFF10
    else if i == 37 then 0x104A0
    else if i == 38 then 0x10D30
    else if i == 39 then 0x11066
    else if i == 40 then 0x110F0
    else if i == 41 then 0x11136
    else if i == 42 then 0x111D0
    else if i == 43 then 0x112F0
    else if i == 44 then 0x11450
    else if i == 45 then 0x114D0
    else if i == 46 then 0x11650
    else if i == 47 then 0x116C0
    else if i == 48 then 0x11730
    else if i == 49 then 0x118E0
    else if i == 50 then 0x11950
    else if i == 51 then 0x11C50
    else if i == 52 then 0x11D50
    else if i == 53 then 0x11DA0
    else if i == 54 then 0x11F50
    else if i == 55 then 0x16A60
    else if i == 56 then 0x16AC0
    else if i == 57 then 0x16B50
    else if i == 58 then 0x1D7CE
    else if i == 59 then 0x1D7D8
    else if i == 60 then 0x1D7E2
    else if i == 61 then 0x1D7EC
    else if i == 62 then 0x1D7F6
    else if i == 63 then 0x1E140
    else if i == 64 then 0x1E2F0
    else if i == 65 then 0x1E4F0
    else if i == 66 then 0x1E950
    else if i == 67 then 0x1FBF0
    else -1
  }

  /** Each run ends before the next one starts. */
  lemma RunZerosOrdered(i: nat)
    requires i + 1 < 68
    ensures RunZero(i) + 10 <= RunZero(i + 1)
  {
  }

  /** The runs are in increasing order and do not overlap. */
  lemma {:induction false} RunZerosIncrease(i: nat, j: nat)
    requires i < j < 68
    ensures RunZero(i) + 10 <= RunZero(j)
    decreases j
  {
    RunZerosOrdered(j - 1);
    if i + 1 < j {
      RunZerosIncrease(i, j - 1);
    }
  }

  /** The zero of the run holding code point `k`, looked up from the `i`-th run on. */
  function ZeroFrom(k: int, i: nat): (z: Option<int>)
    ensures z.Some? ==> z.value <= k < z.value + 10
    decreases 68 - i
  {
    if i >= 68 || k < RunZero(i) then None
    else if k < RunZero(i) + 10 then Some(RunZero(i))
    else ZeroFrom(k, i + 1)
  }

  /** The lookup stops early only where no later run can hold `k`: every character of every
      run from the `i`-th on is found. */
  lemma {:induction false} ZeroFromFinds(k: int, i: nat, j: nat)
    requires i <= j < 68 && RunZero(j) <= k < RunZero(j) + 10
    ensures ZeroFrom(k, i) == Some(RunZero(j))
    decreases j - i
  {
    if i < j {
      RunZerosIncrease(i, j);
      ZeroFromFinds(k, i + 1, j);
    }
  }

  /** The zero of the run of ten decimal digits holding code point `k`, if any. */
  function DecimalZero(k: int): (z: Option<int>)
    ensures z.Some? ==> z.value <= k < z.value + 10
  {
    ZeroFrom(k, 0)
  }

  /** Every character of the 68 runs is a decimal digit, with its run's zero. */
  lemma DecimalZeroFinds(k: int, j: nat)
    requires j < 68 && RunZero(j) <= k < RunZero(j) + 10
    ensures DecimalZero(k) == Some(RunZero(j))
  {
    ZeroFromFinds(k, 0, j);
  }

  /** A decimal digit of any script, as `str.isdigit()` and `int()` both accept it. */
  predicate IsDecimal(c: char)
  {
    DecimalZero(c as int).Some?
  }

  /** The digit a decimal character stands for, counted from its run's zero. */
  function DecimalValue(c: char): nat
    requires IsDecimal(c)
  {
    c as int - DecimalZero(c as int).value
  }

  /** Non-empty and made of decimal digits: `s.isdigit()` holds and `int(s)` reads it. */
  predicate IsDecimalText(s: string)
  {
    |s| > 0 && forall i :: 0 <= i < |s| ==> IsDecimal(s[i])
  }

  /** `int(s)` for a string of decimal digits, whatever their script. */
  function DecimalTextValue(s: string): nat
    requires forall i :: 0 <= i < |s| ==> IsDecimal(s[i])
  {
    if s == [] then 0
    else
      var last := s[|s| - 1];
      assert IsDecimal(last);
      DecimalTextValue(s[..|s| - 1]) * 10 + DecimalValue(last)
  }

  /** On ASCII digits the general reading is the familiar one. */
  lemma {:induction false} AsciiDecimalText(s: string)
    requires forall i :: 0 <= i < |s| ==> IsDigit(s[i])
    ensures forall i :: 0 <= i < |s| ==> IsDecimal(s[i])
    ensures DecimalTextValue(s) == DigitsValue(s)
  {
    if s != [] {
      AsciiDecimalText(s[..|s| - 1]);
    }
  }

  /** `int("\u0662\u0660\u0662\u0663")` is 2023: Arabic-Indic digits read like ASCII ones. */
  lemma ArabicIndicYear()
    ensures IsDecimalText("\U{662}\U{660}\U{662}\U{663}")
    ensures DecimalTextValue("\U{662}\U{660}\U{662}\U{663}") == 2023
  {
    var s := "\U{662}\U{660}\U{662}\U{663}";
    assert s[..3] == "\U{662}\U{660}\U{662}";
    assert s[..3][..2] == "\U{662}\U{660}";
    assert s[..3][..2][..1] == "\U{662}";
    assert DecimalTextValue("\U{662}") == 2;
    assert DecimalTextValue("\U{662}\U{660}") == 20;
    assert DecimalTextValue("\U{662}\U{660}\U{662}") == 202;
  }

  /** `str(n)` for a non-negative integer. */
  function NatToString(n: nat): (r: string)
    ensures IsDigits(r)
    ensures DigitsValue(r) == n
  {
    if n < 10 then [DigitChar(n)]
    else
      var r := NatToString(n / 10) + [DigitChar(n % 10)];
      assert r[..|r| - 1] == NatToString(n / 10);
      r
  }

  /** `f"{i}"` for any integer. */
  function IntToString(i: int): string
  {
    if i < 0 then "-" + NatToString(-i) else NatToString(i)
  }

  /** The default year of root files, rendered. */
  lemma Year2025Text()
    ensures IntToString(2025) == "2025"
  {
    assert NatToString(2) == "2";
    assert NatToString(20) == NatToString(2) + "0";
    assert NatToString(202) == NatToString(20) + "2";
    assert NatToString(2025) == NatToString(202) + "5";
  }

  /** A rendered integer starts with a minus sign exactly when it is negative. */
  lemma IntToStringSign(i: int)
    ensures |IntToString(i)| > 0 && (IntToString(i)[0] == '-' <==> i < 0)
  {
    if i >= 0 {
      assert IsDigit(NatToString(i)[0]);
    }
  }

  /** Decimal rendering is injective, so distinct years give distinct strings. */
  lemma IntToStringInjective(a: int, b: int)
    requires IntToString(a) == IntToString(b)
    ensures a == b
  {
    IntToStringSign(a);
    IntToStringSign(b);
    if a < 0 {
      assert NatToString(-a) == IntToString(a)[1..] == IntToString(b)[1..] == NatToString(-b);
    }
  }

  function Zeros(k: nat): (r: string)
    ensures |r| == k && forall i :: 0 <= i < k ==> r[i] == '0'
  {
    if k == 0 then "" else "0" + Zeros(k - 1)
  }

  lemma {:induction false} LeadingZerosValue(k: nat, s: string)
    requires forall i :: 0 <= i < |s| ==> IsDigit(s[i])
    ensures DigitsValue(Zeros(k) + s) == DigitsValue(s)
    decreases |s|, k
  {
    if s == [] {
      assert Zeros(k) + s == Zeros(k);
      if k > 0 {
        assert Zeros(k)[..k - 1] == Zeros(k - 1);
        LeadingZerosValue(k - 1, s);
        assert Zeros(k - 1) + s == Zeros(k - 1);
      }
    } else {
      var s' := s[..|s| - 1];
      assert (Zeros(k) + s)[..|Zeros(k) + s| - 1] == Zeros(k) + s';
      LeadingZerosValue(k, s');
    }
  }

  /** Left-pads with zeros up to `width` characters. */
  function ZeroPad(s: string, width: nat): (r: string)
    ensures |r| == if |s| < width then width else |s|
  {
    if |s| < width then Zeros(width - |s|) + s else s
  }

  /** `f"{n:04d}"`: at least four characters, zero-padded after the sign. */
  function Pad4(n: int): string
  {
    if n < 0 then "-" + ZeroPad(NatToString(-n), 3) else ZeroPad(NatToString(n), 4)
  }

  /** For a non-negative number `04d` gives at least four digits that read back as it. */
  lemma Pad4Digits(n: nat)
    ensures IsDigits(Pad4(n)) && DigitsValue(Pad4(n)) == n
    ensures |Pad4(n)| >= 4
  {
    var s := NatToString(n);
    if |s| < 4 {
      LeadingZerosValue(4 - |s|, s);
    }
  }

  lemma Pad4Negative(n: int)
    requires n < 0
    ensures |Pad4(n)| >= 4 && Pad4(n)[0] == '-'
    ensures IsDigits(Pad4(n)[1..]) && DigitsValue(Pad4(n)[1..]) == -n
  {
    var s := NatToString(-n);
    assert Pad4(n)[1..] == ZeroPad(s, 3);
    if |s| < 3 {
      LeadingZerosValue(3 - |s|, s);
    }
  }

  /** Distinct sequence numbers are rendered differently. */
  lemma Pad4Injective(a: int, b: int)
    requires Pad4(a) == Pad4(b)
    ensures a == b
  {
    if a < 0 { Pad4Negative(a); } else { Pad4Digits(a); }
    if b < 0 { Pad4Negative(b); } else { Pad4Digits(b); }
  }

  function Pow10(k: nat): nat
  {
    if k == 0 then 1 else 10 * Pow10(k - 1)
  }

  lemma {:induction false} NatToStringLength(n: nat, k: nat)
    requires 1 <= k && n < Pow10(k)
    ensures |NatToString(n)| <= k
  {
    if n >= 10 {
      NatToStringLength(n / 10, k - 1);
    }
  }

  /** Below 10000, `04d` gives exactly four characters. */
  lemma Pad4Width(n: nat)
    requires n < 10000
    ensures |Pad4(n)| == 4
  {
    assert Pow10(4) == 10000;
    NatToStringLength(n, 4);
    Pad4Digits(n);
  }

  predicate StartsWith(s: string, prefix: string)
  {
    |prefix| <= |s| && s[..|prefix|] == prefix
  }

  predicate EndsWith(s: string, suffix: string)
  {
    |suffix| <= |s| && s[|s| - |suffix|..] == suffix
  }

  /** A concatenation starts with its left part and ends with its right part. */
  lemma AppendEnds(a: string, b: string)
    ensures StartsWith(a + b, a) && EndsWith(a + b, b)
  {
    assert (a + b)[..|a|] == a;
    assert (a + b)[|a|..] == b;
  }

  lemma AppendAssoc(a: string, b: string, c: string)
    ensures (a + b) + c == a + (b + c)
  {
  }

  /** `sep.join(parts)`. */
  function Join(parts: seq<string>, sep: string): string
  {
    if |parts| == 0 then ""
    else if |parts| == 1 then parts[0]
    else Join(parts[..|parts| - 1], sep) + sep + parts[|parts| - 1]
  }

  /** `c.upper()` for a character of the Latin range U+0000..U+017F (ASCII, Latin-1 and
      Latin Extended-A, so every French letter and the ligature œ), with Python's full case
      mapping: ß becomes "SS" and ŉ becomes "ʼN". Characters above U+017F are kept. */
  function UpperChar(c: char): string
  {
    var k := c as int;
    if 'a' <= c <= 'z' then [(k - 32) as char]
    else if k == 0xB5 then [0x39C as char]
    else if k == 0xDF then "SS"
    else if 0xE0 <= k <= 0xFE && k != 0xF7 then [(k - 32) as char]
    else if k == 0xFF then [0x178 as char]
    else if k == 0x131 then "I"
    else if k == 0x149 then [0x2BC as char, 'N']
    else if k == 0x17F then "S"
    else if (0x100 <= k <= 0x137 || 0x14A <= k <= 0x177) && k % 2 == 1 then [(k - 1) as char]
    else if (0x139 <= k <= 0x148 || 0x179 <= k <= 0x17E) && k % 2 == 0 then [(k - 1) as char]
    else [c]
  }

  /** A character `upper()` leaves as it is. */
  predicate Uppercased(c: char)
  {
    UpperChar(c) == [c]
  }

  /** What `upper()` produces is left alone by a second `upper()`. */
  lemma UpperCharUppercased(c: char)
    ensures forall i :: 0 <= i < |UpperChar(c)| ==> Uppercased(UpperChar(c)[i])
    ensures 1 <= |UpperChar(c)| <= 2
  {
  }

  function LowerChar(c: char): char
  {
    if 'A' <= c <= 'Z' then (c as int + 32) as char else c
  }

  /** `str.upper()`: each character's upper case, in order. */
  function Upper(s: string): (r: string)
    ensures |r| >= |s|
  {
    if s == [] then [] else Upper(s[..|s| - 1]) + UpperChar(s[|s| - 1])
  }

  /** `str.lower()` on ASCII letters (other characters are kept). */
  function Lower(s: string): string
  {
    seq(|s|, i requires 0 <= i < |s| => LowerChar(s[i]))
  }

  predicate NoLowercase(s: string)
  {
    forall i :: 0 <= i < |s| ==> Uppercased(s[i])
  }

  lemma {:induction false} UpperAppend(a: string, b: string)
    ensures Upper(a + b) == Upper(a) + Upper(b)
    decreases |b|
  {
    if b != [] {
      var front := b[..|b| - 1];
      assert (a + b)[..|a + b| - 1] == a + front;
      assert (a + b)[|a + b| - 1] == b[|b| - 1];
      UpperAppend(a, front);
      assert Upper(a + b) == Upper(a + front) + UpperChar(b[|b| - 1]);
      assert Upper(b) == Upper(front) + UpperChar(b[|b| - 1]);
      AppendAssoc(Upper(a), Upper(front), UpperChar(b[|b| - 1]));
    } else {
      assert a + b == a;
    }
  }

  /** `upper()` never shortens a text, leaves nothing to upper-case, and changes nothing in
      a text with nothing to upper-case. */
  lemma {:induction false} UpperResult(s: string)
    ensures |Upper(s)| >= |s| && NoLowercase(Upper(s))
    ensures NoLowercase(s) ==> Upper(s) == s
  {
    if s != [] {
      var front := s[..|s| - 1];
      UpperResult(front);
      UpperCharUppercased(s[|s| - 1]);
      var u := Upper(front);
      var tail := UpperChar(s[|s| - 1]);
      forall i | 0 <= i < |u + tail|
        ensures Uppercased((u + tail)[i])
      {
        if i >= |u| {
          assert (u + tail)[i] == tail[i - |u|];
        }
      }
      if NoLowercase(s) {
        assert NoLowercase(front);
        assert Uppercased(s[|s| - 1]);
        assert s == front + [s[|s| - 1]];
      }
    }
  }

  /** Accented French letters, and ß, are upper-cased as Python does. */
  lemma UpperExamples()
    ensures Upper("\U{E9}cole") == "\U{C9}COLE"
    ensures Upper("stra\U{DF}e") == "STRASSE"
    ensures Upper("c\U{153}ur") == "C\U{152}UR"
  {
    UpperEcole();
    UpperStrasse();
    UpperCoeur();
  }

  lemma UpperEcole()
    ensures Upper("\U{E9}cole") == "\U{C9}COLE"
  {
    assert "\U{E9}c"[..1] == "\U{E9}";
    assert "\U{E9}co"[..2] == "\U{E9}c";
    assert "\U{E9}col"[..3] == "\U{E9}co";
    assert "\U{E9}cole"[..4] == "\U{E9}col";
  }

  lemma UpperStrasse()
    ensures Upper("stra\U{DF}e") == "STRASSE"
  {
    assert "st"[..1] == "s";
    assert "str"[..2] == "st";
    assert "stra"[..3] == "str";
    assert "stra\U{DF}"[..4] == "stra";
    assert "stra\U{DF}e"[..5] == "stra\U{DF}";
  }

  lemma UpperCoeur()
    ensures Upper("c\U{153}ur") == "C\U{152}UR"
  {
    assert "c\U{153}"[..1] == "c";
    assert "c\U{153}u"[..2] == "c\U{153}";
    assert "c\U{153}ur"[..3] == "c\U{153}u";
  }

  /** The characters Python's `str.isspace()` accepts (Unicode White_Space and the
      ASCII separators 0x1c-0x1f). */
  predicate IsSpace(c: char)
  {
    var k := c as int;
    k == 0x20 || 0x09 <= k <= 0x0d || 0x1c <= k <= 0x1f || k == 0x85 || k == 0xa0
    || k == 0x1680 || 0x2000 <= k <= 0x200a || k == 0x2028 || k == 0x2029
    || k == 0x202f || k == 0x205f || k == 0x3000
  }

  function StripLeft(s: string): (r: string)
    ensures |r| <= |s| && r == s[|s| - |r|..]
    ensures r == [] || !IsSpace(r[0])
    ensures forall i :: 0 <= i < |s| - |r| ==> IsSpace(s[i])
  {
    if |s| > 0 && IsSpace(s[0]) then StripLeft(s[1..]) else s
  }

  function StripRight(s: string): (r: string)
    ensures |r| <= |s| && r == s[..|r|]
    ensures r == [] || !IsSpace(r[|r| - 1])
    ensures forall i :: |r| <= i < |s| ==> IsSpace(s[i])
  {
    if |s| > 0 && IsSpace(s[|s| - 1]) then StripRight(s[..|s| - 1]) else s
  }

  /** `str.strip()`. */
  function Strip(s: string): string
  {
    StripRight(StripLeft(s))
  }

  /** `strip()` removes exactly the whitespace runs at both ends: the result is a slice
      `s[i..j]` with only whitespace outside it and none at its own ends. */
  lemma StripSlice(s: string)
    ensures var r := Strip(s);
      exists i, j :: 0 <= i <= j <= |s| && r == s[i..j]
        && (forall k :: 0 <= k < i ==> IsSpace(s[k]))
        && (forall k :: j <= k < |s| ==> IsSpace(s[k]))
        && (r == [] || (!IsSpace(r[0]) && !IsSpace(r[|r| - 1])))
  {
    var l := StripLeft(s);
    var r := StripRight(l);
    var i := |s| - |l|;
    StripPieces(s, i, l, r);
    if r != [] {
      StripEnds(l, r);
    }
    assert r == s[i..i + |r|];
  }

  /** Cutting `r` off the front of the tail `l == s[i..]` is slicing `s`. */
  lemma StripPieces(s: string, i: nat, l: string, r: string)
    requires i <= |s| && l == s[i..] && |r| <= |l| && r == l[..|r|]
    requires forall k :: |r| <= k < |l| ==> IsSpace(l[k])
    ensures r == s[i..i + |r|]
    ensures forall k :: i + |r| <= k < |s| ==> IsSpace(s[k])
  {
    forall k | i + |r| <= k < |s|
      ensures IsSpace(s[k])
    {
      assert s[k] == l[k - i];
    }
  }

  lemma StripEnds(l: string, r: string)
    requires r != [] && |r| <= |l| && r == l[..|r|] && !IsSpace(l[0])
    ensures !IsSpace(r[0])
  {
    assert r[0] == l[0];
  }

  /** `strip()` leaves no whitespace at either end. */
  lemma StripTrimmed(s: string)
    ensures var r := Strip(s); r == [] || (!IsSpace(r[0]) && !IsSpace(r[|r| - 1]))
  {
    StripSlice(s);
  }

  /** Text without whitespace at its ends is left alone by `strip()`. */
  lemma StripStable(s: string)
    requires s == [] || (!IsSpace(s[0]) && !IsSpace(s[|s| - 1]))
    ensures Strip(s) == s
  {
  }

  /** How the admin handlers normalise a new name, `s.upper().strip()`. Stripping first and
      upper-casing after gives the same text (`NormalizeAsWritten`), and is the form used here. */
  function Normalize(s: string): string
  {
    Upper(Strip(s))
  }

  /** `upper()` keeps whitespace as it is and never produces whitespace from anything else. */
  lemma UpperCharSpace(c: char)
    ensures IsSpace(c) ==> UpperChar(c) == [c]
    ensures !IsSpace(c) ==> forall i :: 0 <= i < |UpperChar(c)| ==> !IsSpace(UpperChar(c)[i])
  {
  }

  /** `upper()` of a text is the upper case of its first character followed by `upper()`
      of the rest. */
  lemma UpperFirst(m: string)
    requires m != []
    ensures Upper(m) == UpperChar(m[0]) + Upper(m[1..])
  {
    UpperSingle(m[0]);
    UpperAppend([m[0]], m[1..]);
    assert [m[0]] + m[1..] == m;
  }

  lemma UpperSingle(c: char)
    ensures Upper([c]) == UpperChar(c)
  {
    assert [c][..0] == [];
  }

  /** The upper case of a character that is not whitespace starts and ends with something
      other than whitespace. */
  lemma UpperCharEnds(c: char)
    requires !IsSpace(c)
    ensures var u := UpperChar(c); u != [] && !IsSpace(u[0]) && !IsSpace(u[|u| - 1])
  {
    UpperCharSpace(c);
  }

  lemma AppendFirst(a: string, b: string)
    requires a != []
    ensures (a + b)[0] == a[0]
  {
  }

  lemma AppendLast(a: string, b: string)
    requires b != []
    ensures (a + b)[|a + b| - 1] == b[|b| - 1]
  {
  }

  /** Upper-casing text whose ends are not whitespace gives text whose ends are not
      whitespace. */
  lemma UpperEnds(m: string)
    requires m != [] && !IsSpace(m[0]) && !IsSpace(m[|m| - 1])
    ensures var u := Upper(m); u != [] && !IsSpace(u[0]) && !IsSpace(u[|u| - 1])
  {
    UpperFirst(m);
    UpperCharEnds(m[0]);
    UpperCharEnds(m[|m| - 1]);
    AppendFirst(UpperChar(m[0]), Upper(m[1..]));
    AppendLast(Upper(m[..|m| - 1]), UpperChar(m[|m| - 1]));
  }

  /** Whitespace in front of text that starts with something else is what `lstrip()` takes. */
  lemma {:induction false} StripLeftSpaces(l: string, r: string)
    requires forall k :: 0 <= k < |l| ==> IsSpace(l[k])
    requires r == [] || !IsSpace(r[0])
    ensures StripLeft(l + r) == r
    decreases |l|
  {
    if l != [] {
      assert (l + r)[1..] == l[1..] + r;
      StripLeftSpaces(l[1..], r);
    } else {
      assert l + r == r;
    }
  }

  /** Whitespace after text that ends with something else is what `rstrip()` takes. */
  lemma {:induction false} StripRightSpaces(l: string, r: string)
    requires forall k :: 0 <= k < |r| ==> IsSpace(r[k])
    requires l == [] || !IsSpace(l[|l| - 1])
    ensures StripRight(l + r) == l
    decreases |r|
  {
    if r != [] {
      assert (l + r)[..|l + r| - 1] == l + r[..|r| - 1];
      StripRightSpaces(l, r[..|r| - 1]);
    } else {
      assert l + r == l;
    }
  }

  /** Whitespace only: `upper()` leaves it as it is. */
  lemma UpperSpaces(w: string)
    requires forall k :: 0 <= k < |w| ==> IsSpace(w[k])
    ensures Upper(w) == w
  {
    forall k | 0 <= k < |w|
      ensures Uppercased(w[k])
    {
      UpperCharSpace(w[k]);
    }
    UpperResult(w);
  }

  /** `strip()` of text between two whitespace runs, when the text has no whitespace at
      its ends, is that text. */
  lemma StripAround(l: string, m: string, r: string)
    requires forall k :: 0 <= k < |l| ==> IsSpace(l[k])
    requires forall k :: 0 <= k < |r| ==> IsSpace(r[k])
    requires m == [] || (!IsSpace(m[0]) && !IsSpace(m[|m| - 1]))
    ensures Strip(l + m + r) == m
  {
    assert l + m + r == l + (m + r);
    if m == [] {
      assert m + r == r;
      assert l + r == (l + r) + [];
      StripLeftSpaces(l + r, []);
    } else {
      StripLeftSpaces(l, m + r);
      StripRightSpaces(m, r);
    }
  }

  /** Upper-casing text between two whitespace runs: the runs stay as they are. */
  lemma UpperAround(l: string, m: string, r: string)
    requires forall k :: 0 <= k < |l| ==> IsSpace(l[k])
    requires forall k :: 0 <= k < |r| ==> IsSpace(r[k])
    ensures Upper(l + m + r) == l + Upper(m) + r
  {
    UpperAppend(l + m, r);
    UpperAppend(l, m);
    UpperSpaces(l);
    UpperSpaces(r);
  }

  /** `upper()` then `strip()` of text between two whitespace runs is the upper case of
      the text, when the text has no whitespace at its ends. */
  lemma UpperThenStrip(l: string, m: string, r: string)
    requires forall k :: 0 <= k < |l| ==> IsSpace(l[k])
    requires forall k :: 0 <= k < |r| ==> IsSpace(r[k])
    requires m == [] || (!IsSpace(m[0]) && !IsSpace(m[|m| - 1]))
    ensures Strip(Upper(l + m + r)) == Upper(m)
  {
    UpperAround(l, m, r);
    if m != [] {
      UpperEnds(m);
    }
    StripAround(l, Upper(m), r);
  }

  /** Text with whitespace before `i` and from `j` on is that whitespace around its middle. */
  lemma StripSplit(s: string, i: nat, j: nat)
    requires i <= j <= |s|
    requires forall k :: 0 <= k < i ==> IsSpace(s[k])
    requires forall k :: j <= k < |s| ==> IsSpace(s[k])
    ensures s == s[..i] + s[i..j] + s[j..]
    ensures forall k :: 0 <= k < |s[..i]| ==> IsSpace(s[..i][k])
    ensures forall k :: 0 <= k < |s[j..]| ==> IsSpace(s[j..][k])
  {
    assert s == s[..i] + s[i..j] + s[j..];
  }

  /** The handlers' order, `upper()` then `strip()`, gives the normal form. */
  lemma NormalizeAsWritten(s: string)
    ensures Normalize(s) == Strip(Upper(s))
  {
    StripSlice(s);
    var m := Strip(s);
    var i, j :| 0 <= i <= j <= |s| && m == s[i..j]
        && (forall k :: 0 <= k < i ==> IsSpace(s[k]))
        && (forall k :: j <= k < |s| ==> IsSpace(s[k]))
        && (m == [] || (!IsSpace(m[0]) && !IsSpace(m[|m| - 1])));
    StripSplit(s, i, j);
    UpperThenStrip(s[..i], m, s[j..]);
  }

  /** A normal form is its own `strip()` and its own `upper()`. */
  lemma NormalFormStable(n: string)
    requires n == [] || (!IsSpace(n[0]) && !IsSpace(n[|n| - 1]))
    requires NoLowercase(n)
    ensures Upper(Strip(n)) == n
  {
    StripStable(n);
    UpperResult(n);
  }

  /** Normalising twice is normalising once: a normalised name is its own normal form. */
  lemma NormalizeIdempotent(s: string)
    ensures Normalize(Normalize(s)) == Normalize(s)
    ensures NoLowercase(Normalize(s))
  {
    var m := Strip(s);
    UpperResult(m);
    StripTrimmed(s);
    if m != [] {
      UpperEnds(m);
    }
    NormalFormStable(Upper(m));
  }

  /** Index of the last occurrence of `c`, or -1 (`str.rfind`). */
  function LastIndexOf(s: string, c: char): (r: int)
    ensures -1 <= r < |s|
    ensures r >= 0 ==> s[r] == c
    ensures forall j :: r < j < |s| ==> s[j] != c
  {
    if s == [] then -1
    else if s[|s| - 1] == c then |s| - 1
    else LastIndexOf(s[..|s| - 1], c)
  }

  /** `PurePath(name).suffix`: from the last dot on, unless that dot starts or ends the name. */
  function Suffix(name: string): (r: string)
  {
    var i := LastIndexOf(name, '.');
    if 0 < i < |name| - 1 then name[i..] else ""
  }

  /** `s.replace(pattern, replacement)`: left-to-right, non-overlapping. */
  function Replace(s: string, pattern: string, replacement: string): string
    requires |pattern| > 0
    decreases |s|
  {
    if |s| < |pattern| then s
    else if s[..|pattern|] == pattern then replacement + Replace(s[|pattern|..], pattern, replacement)
    else [s[0]] + Replace(s[1..], pattern, replacement)
  }

  predicate OccursAt(s: string, pattern: string, i: nat)
  {
    i + |pattern| <= |s| && s[i..i + |pattern|] == pattern
  }

  ghost predicate Contains(s: string, pattern: string)
  {
    exists i: nat :: OccursAt(s, pattern, i)
  }

  /** Text without the pattern is left unchanged by `replace`. */
  lemma {:induction false} ReplaceAbsent(s: string, pattern: string, replacement: string)
    requires |pattern| > 0 && !Contains(s, pattern)
    ensures Replace(s, pattern, replacement) == s
    decreases |s|
  {
    if |s| >= |pattern| {
      assert !OccursAt(s, pattern, 0);
      assert s[0..|pattern|] == s[..|pattern|];
      assert !Contains(s[1..], pattern) by {
        forall i: nat | OccursAt(s[1..], pattern, i)
          ensures false
        {
          assert s[1..][i..i + |pattern|] == s[i + 1..i + 1 + |pattern|];
          assert OccursAt(s, pattern, i + 1);
        }
      }
      ReplaceAbsent(s[1..], pattern, replacement);
      assert [s[0]] + s[1..] == s;
    }
  }

  /** Code-point lexicographic order: `a` sorts before or equal to `b`. */
  predicate LexLe(a: string, b: string)
    decreases |a|
  {
    |a| == 0 || (|b| > 0 && (a[0] < b[0] || (a[0] == b[0] && LexLe(a[1..], b[1..]))))
  }

  lemma {:induction false} LexLeTotal(a: string, b: string)
    ensures LexLe(a, b) || LexLe(b, a)
    decreases |a|
  {
    if |a| > 0 && |b| > 0 && a[0] == b[0] {
      LexLeTotal(a[1..], b[1..]);
    }
  }
}
