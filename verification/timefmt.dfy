/** `fmt_hms`: a number of seconds rendered as `m:ss` pieces, with the hours
    shown only when there are any. The float rounding step is outside the
    model, so the input is a whole number of seconds. A parser for the
    rendered text is the formatter's partner: parsing gives back the input. */
module TimeFormat {
  import opened Common

  predicate IsDigit(c: char) {
    '0' <= c <= '9'
  }

  predicate IsDigits(s: string) {
    |s| > 0 && forall i :: 0 <= i < |s| ==> IsDigit(s[i])
  }

  function DigitChar(d: nat): char
    requires d < 10
  {
    ('0' as int + d) as char
  }

  /** `str(n)` for a natural number. */
  function Decimal(n: nat): (s: string)
    ensures IsDigits(s)
    ensures n < 10 <==> |s| == 1
  {
    if n < 10 then [DigitChar(n)] else Decimal(n / 10) + [DigitChar(n % 10)]
  }

  /** `str(n)` for any integer. */
  function IntDecimal(n: int): (s: string)
    ensures ':' !in s
  {
    if n < 0 then "-" + Decimal(-n) else Decimal(n)
  }

  /** `f"{n:02d}"` for `0 <= n < 100`. */
  function Pad2(n: nat): (s: string)
    requires n < 100
    ensures |s| == 2 && IsDigits(s)
  {
    [DigitChar(n / 10), DigitChar(n % 10)]
  }

  /** `fmt_hms`; `None` is Python's `None` and renders as `Unknown`. Python's
      `divmod` floors, which for the positive divisors here is what Dafny's
      `/` and `%` compute. */
  function FmtHms(seconds: Option<int>): (r: string)
    ensures seconds.None? ==> r == "Unknown"
    ensures seconds.Some? && 0 <= seconds.value < 3600 ==> |r| == 5 && r[2] == ':'
    ensures seconds.Some? && !(0 <= seconds.value < 3600) ==> |r| >= 7 && r[|r| - 3] == ':' && r[|r| - 6] == ':'
  {
    match seconds
    case None => "Unknown"
    case Some(s) =>
      var h := s / 3600;
      var c := Clock(s % 3600);
      if h != 0 then
        var r := IntDecimal(h) + [':'] + c;
        assert r[|r| - 5..] == c;
        assert r[|r| - 5..|r| - 3] == c[..2] && r[|r| - 2..] == c[3..];
        r
      else c
  }

  /** The `mm:ss` part of `fmt_hms` for the seconds left over after the
      hours. */
  function Clock(rem: int): (r: string)
    requires 0 <= rem < 3600
    ensures |r| == 5 && r[2] == ':'
    ensures IsField(r[..2]) && IsField(r[3..])
    ensures FieldValue(r[..2]) * 60 + FieldValue(r[3..]) == rem
  {
    Pad2Value(rem / 60);
    Pad2Value(rem % 60);
    var r := Pad2(rem / 60) + [':'] + Pad2(rem % 60);
    assert r[..2] == Pad2(rem / 60) && r[3..] == Pad2(rem % 60);
    r
  }

  /** Python `s.split(sep)`. */
  function Split(s: string, sep: char): (r: seq<string>)
    ensures |r| >= 1
  {
    if |s| == 0 then [""]
    else
      var rest := Split(s[1..], sep);
      if s[0] == sep then [""] + rest else [[s[0]] + rest[0]] + rest[1..]
  }

  /** Value of a digit string (`int(s)`). */
  function DigitsValue(s: string): nat
    requires IsDigits(s) || s == ""
  {
    if |s| == 0 then 0
    else DigitsValue(s[..|s| - 1]) * 10 + (s[|s| - 1] as int - '0' as int)
  }

  predicate IsIntLiteral(s: string) {
    IsDigits(s) || (|s| > 1 && s[0] == '-' && IsDigits(s[1..]))
  }

  function IntValue(s: string): int
    requires IsIntLiteral(s)
  {
    if IsDigits(s) then DigitsValue(s) else var v: int := DigitsValue(s[1..]); -v
  }

  /** `int(s)` for a string of two characters. */
  function FieldValue(s: string): int
    requires |s| == 2
  {
    (s[0] as int - '0' as int) * 10 + (s[1] as int - '0' as int)
  }

  /** A minutes or seconds field: two digits worth less than 60. */
  predicate IsField(s: string) {
    |s| == 2 && IsDigit(s[0]) && IsDigit(s[1]) && FieldValue(s) < 60
  }

  /** An hours field: a non-zero integer written as `str` writes it, that is
      without a leading zero. */
  predicate IsHours(s: string) {
    (IsDigits(s) && s[0] != '0') || (|s| > 1 && s[0] == '-' && IsDigits(s[1..]) && s[1] != '0')
  }

  /** Reads `mm:ss` or `h:mm:ss` back into seconds; anything `fmt_hms` could
      not have written (a field of 60 or more, a zero or zero-padded hour)
      is rejected. */
  function ParseHms(t: string): Option<int> {
    var f := Split(t, ':');
    if |f| == 2 && IsField(f[0]) && IsField(f[1]) then
      Some(FieldValue(f[0]) * 60 + FieldValue(f[1]))
    else if |f| == 3 && IsHours(f[0]) && IsField(f[1]) && IsField(f[2]) then
      Some(IntValue(f[0]) * 3600 + FieldValue(f[1]) * 60 + FieldValue(f[2]))
    else None
  }

  /** Python `sep.join(fs)`. */
  function Join(fs: seq<string>, sep: char): string
    requires |fs| >= 1
  {
    if |fs| == 1 then fs[0] else fs[0] + [sep] + Join(fs[1..], sep)
  }

  lemma {:induction false} DecimalValue(n: nat)
    ensures DigitsValue(Decimal(n)) == n
    decreases n
  {
    if n >= 10 {
      var s := Decimal(n);
      assert s[..|s| - 1] == Decimal(n / 10);
      DecimalValue(n / 10);
    }
  }

  lemma IntDecimalValue(n: int)
    ensures IsIntLiteral(IntDecimal(n)) && IntValue(IntDecimal(n)) == n
  {
    if n < 0 {
      var d := Decimal(-n);
      var s := "-" + d;
      assert s[1..] == d;
      assert !IsDigits(s) by { assert !IsDigit(s[0]); }
      DecimalValue(-n);
      assert IntValue(s) == 0 - DigitsValue(d) as int;
    } else {
      DecimalValue(n);
    }
  }

  lemma Pad2Value(n: nat)
    requires n < 100
    ensures FieldValue(Pad2(n)) == n
  {
  }

  lemma {:induction false} SplitNoSep(a: string, sep: char)
    requires sep !in a
    ensures Split(a, sep) == [a]
    decreases |a|
  {
    if |a| > 0 {
      assert a[0] != sep;
      assert sep !in a[1..] by {
        forall c | c in a[1..] ensures c != sep {
          var k :| 0 <= k < |a[1..]| && a[1..][k] == c;
          assert a[k + 1] == c;
        }
      }
      SplitNoSep(a[1..], sep);
      assert [a[0]] + a[1..] == a;
    }
  }

  lemma {:induction false} SplitField(a: string, sep: char, b: string)
    requires sep !in a
    ensures Split(a + [sep] + b, sep) == [a] + Split(b, sep)
    decreases |a|
  {
    var s := a + [sep] + b;
    if |a| > 0 {
      assert s[0] == a[0] != sep;
      assert s[1..] == a[1..] + [sep] + b;
      assert sep !in a[1..] by {
        forall c | c in a[1..] ensures c != sep {
          var k :| 0 <= k < |a[1..]| && a[1..][k] == c;
          assert a[k + 1] == c;
        }
      }
      SplitField(a[1..], sep, b);
      assert Split(s[1..], sep) == [a[1..]] + Split(b, sep);
      assert [a[0]] + a[1..] == a;
    } else {
      assert s[1..] == b;
    }
  }

  /** Splitting and joining again gives the text back. */
  lemma {:induction false} SplitJoin(t: string, sep: char)
    ensures Join(Split(t, sep), sep) == t
    decreases |t|
  {
    if |t| > 0 {
      var rest := Split(t[1..], sep);
      SplitJoin(t[1..], sep);
      assert [t[0]] + t[1..] == t;
      if t[0] == sep {
        assert ([""] + rest)[1..] == rest;
      } else if |rest| > 1 {
        assert ([[t[0]] + rest[0]] + rest[1..])[1..] == rest[1..];
        assert Join(rest, sep) == rest[0] + [sep] + Join(rest[1..], sep);
      }
    }
  }

  /** A digit string without a leading zero is how `str` writes its value. */
  lemma {:induction false} DecimalOfDigits(s: string)
    requires IsDigits(s) && s[0] != '0'
    ensures DigitsValue(s) > 0 && Decimal(DigitsValue(s)) == s
    decreases |s|
  {
    if |s| > 1 {
      var init := s[..|s| - 1];
      assert IsDigit(s[|s| - 1]);
      assert init[0] == s[0];
      DecimalOfDigits(init);
      assert init + [s[|s| - 1]] == s;
    }
  }

  /** `str` writes a positive number without a leading zero. */
  lemma {:induction false} DecimalLeads(n: nat)
    requires n > 0
    ensures Decimal(n)[0] != '0'
    decreases n
  {
    if n >= 10 {
      DecimalLeads(n / 10);
    }
  }

  /** An hours field is `str` of its non-zero value. */
  lemma HoursValue(hh: string)
    requires IsHours(hh)
    ensures IntValue(hh) != 0 && IntDecimal(IntValue(hh)) == hh
  {
    if IsDigits(hh) && hh[0] != '0' {
      DecimalOfDigits(hh);
    } else {
      assert !IsDigits(hh) by { assert !IsDigit(hh[0]); }
      DecimalOfDigits(hh[1..]);
      assert "-" + hh[1..] == hh;
    }
  }

  /** `str` of a non-zero number is an hours field. */
  lemma DecimalIsHours(h: int)
    requires h != 0
    ensures IsHours(IntDecimal(h))
  {
    if h > 0 {
      DecimalLeads(h);
    } else {
      DecimalLeads(-h);
      assert ("-" + Decimal(-h))[1..] == Decimal(-h);
    }
  }

  /** A two-digit string is the padding of its value. */
  lemma Pad2OfDigits(s: string)
    requires |s| == 2 && IsDigit(s[0]) && IsDigit(s[1])
    ensures 0 <= FieldValue(s) < 100 && Pad2(FieldValue(s)) == s
  {
  }

  /** The converse of the round trip: the parser accepts only what the
      formatter writes, so every duration has exactly one rendering. */
  lemma ParseHmsCanonical(t: string, n: int)
    requires ParseHms(t) == Some(n)
    ensures FmtHms(Some(n)) == t
  {
    var f := Split(t, ':');
    if |f| == 2 && IsField(f[0]) && IsField(f[1]) {
      ShortTextCanonical(t, f, n);
    } else {
      LongTextCanonical(t, f, n);
    }
  }

  lemma ShortTextCanonical(t: string, f: seq<string>, n: int)
    requires f == Split(t, ':') && |f| == 2 && IsField(f[0]) && IsField(f[1])
    requires n == FieldValue(f[0]) * 60 + FieldValue(f[1])
    ensures FmtHms(Some(n)) == t
  {
    SplitJoin(t, ':');
    JoinTwo(f, ':');
    ClockOf(f[0], f[1]);
    ShortFormOf(n, f[0] + [':'] + f[1]);
  }

  lemma LongTextCanonical(t: string, f: seq<string>, n: int)
    requires f == Split(t, ':') && |f| == 3 && IsHours(f[0]) && IsField(f[1]) && IsField(f[2])
    requires n == IntValue(f[0]) * 3600 + FieldValue(f[1]) * 60 + FieldValue(f[2])
    ensures FmtHms(Some(n)) == t
  {
    HoursValue(f[0]);
    ClockOf(f[1], f[2]);
    LongFormOf(n, IntValue(f[0]), FieldValue(f[1]) * 60 + FieldValue(f[2]), f[0], f[1] + [':'] + f[2]);
    SplitJoin(t, ':');
    JoinThree(f, ':');
  }

  /** `h:mm:ss` from the hours and the clock. */
  lemma LongFormOf(n: int, h: int, rem: int, hh: string, c: string)
    requires n == h * 3600 + rem && h != 0 && 0 <= rem < 3600
    requires IntDecimal(h) == hh && Clock(rem) == c
    ensures FmtHms(Some(n)) == hh + [':'] + c
  {
    FmtHmsShape(n, h, rem);
  }

  /** `mm:ss` from the clock. */
  lemma ShortFormOf(rem: int, c: string)
    requires 0 <= rem < 3600 && Clock(rem) == c
    ensures FmtHms(Some(rem)) == c
  {
    FmtHmsShape(rem, 0, rem);
  }

  lemma JoinTwo(f: seq<string>, sep: char)
    requires |f| == 2
    ensures Join(f, sep) == f[0] + [sep] + f[1]
  {
    assert f[1..][1..] == [];
  }

  lemma JoinThree(f: seq<string>, sep: char)
    requires |f| == 3
    ensures Join(f, sep) == f[0] + [sep] + (f[1] + [sep] + f[2])
  {
    assert f[1..][1..] == [f[2]];
    JoinTwo(f[1..], sep);
  }

  /** The rendering of `h * 3600 + rem` from its hours and the clock. */
  lemma FmtHmsShape(n: int, h: int, rem: int)
    requires 0 <= rem < 3600 && n == h * 3600 + rem
    ensures FmtHms(Some(n)) == if h != 0 then IntDecimal(h) + [':'] + Clock(rem) else Clock(rem)
  {
    DivMod3600(h, rem);
  }

  /** The clock of a pair of fields is the two fields. */
  lemma ClockOf(mm: string, ss: string)
    requires IsField(mm) && IsField(ss)
    ensures 0 <= FieldValue(mm) * 60 + FieldValue(ss) < 3600
    ensures Clock(FieldValue(mm) * 60 + FieldValue(ss)) == mm + [':'] + ss
  {
    var a := FieldValue(mm);
    var b := FieldValue(ss);
    var c := Clock(a * 60 + b);
    Pad2OfDigits(mm);
    Pad2OfDigits(ss);
    Pad2OfDigits(c[..2]);
    Pad2OfDigits(c[3..]);
    assert FieldValue(c[..2]) == a && FieldValue(c[3..]) == b;
  }

  lemma DivMod3600(h: int, rem: int)
    requires 0 <= rem < 3600
    ensures (h * 3600 + rem) / 3600 == h && (h * 3600 + rem) % 3600 == rem
  {
  }

  /** Parsing the rendered duration gives back the number of seconds, for
      every integer, negative ones included. */
  lemma FmtHmsRoundTrip(s: int)
    ensures ParseHms(FmtHms(Some(s))) == Some(s)
  {
    var h := s / 3600;
    var rem := s % 3600;
    var c := Clock(rem);
    ClockSplits(rem);
    if h != 0 {
      IntDecimalValue(h);
      DecimalIsHours(h);
      SplitField(IntDecimal(h), ':', c);
      assert Split(FmtHms(Some(s)), ':') == [IntDecimal(h), c[..2], c[3..]];
    } else {
      assert Split(FmtHms(Some(s)), ':') == [c[..2], c[3..]];
    }
  }

  lemma ClockSplits(rem: int)
    requires 0 <= rem < 3600
    ensures Split(Clock(rem), ':') == [Clock(rem)[..2], Clock(rem)[3..]]
  {
    var c := Clock(rem);
    assert ':' !in c[..2] && ':' !in c[3..] by {
      assert IsDigit(c[..2][0]) && IsDigit(c[..2][1]) && IsDigit(c[3..][0]) && IsDigit(c[3..][1]);
    }
    assert c == c[..2] + [':'] + c[3..];
    SplitNoSep(c[3..], ':');
    SplitField(c[..2], ':', c[3..]);
  }

  /** The minutes and seconds of every rendering are two digits below 60, and
      they are the minutes and seconds left over after the whole hours. */
  lemma FmtHmsFields(s: int)
    ensures var r := FmtHms(Some(s));
      IsField(r[|r| - 5..|r| - 3]) && IsField(r[|r| - 2..])
      && FieldValue(r[|r| - 5..|r| - 3]) == s % 3600 / 60 && FieldValue(r[|r| - 2..]) == s % 60
  {
    var c := Clock(s % 3600);
    var r := FmtHms(Some(s));
    FmtHmsShape(s, s / 3600, s % 3600);
    assert r[|r| - 5..] == c;
    assert r[|r| - 5..|r| - 3] == c[..2] && r[|r| - 2..] == c[3..];
  }

  /** `Unknown` parses to nothing, so it is never mistaken for a duration. */
  lemma UnknownIsNotADuration()
    ensures ParseHms(FmtHms(None)) == None
  {
    SplitNoSep("Unknown", ':');
  }
}
