/** The string handling the generator depends on: `strftime('%Y-%m-%d')` and
    `strptime(s, '%Y-%m-%d')` on dates, `str(n)`, `int(s)`, `str.split`,
    `str.lower` and Python's ordering of strings (code point by code point). */
module Text {
  import opened Dates

  predicate IsDigit(c: char)
  {
    '0' <= c <= '9'
  }

  function DigitValue(c: char): (n: int)
    requires IsDigit(c)
    ensures 0 <= n < 10
  {
    c as int - '0' as int
  }

  function DigitChar(n: int): (c: char)
    requires 0 <= n < 10
    ensures IsDigit(c) && DigitValue(c) == n
  {
    ('0' as int + n) as char
  }

  /** The last `width` decimal digits of `n`, zero-padded: `%Y`, `%m`, `%d`
      and `{n:02d}` print a number of at most that many digits this way. */
  function Digits(n: nat, width: nat): (s: string)
    ensures |s| == width
    decreases width
  {
    if width == 0 then [] else Digits(n / 10, width - 1) + [DigitChar(n % 10)]
  }

  /** `str(n)` for a natural number: no leading zeros. */
  function NatText(n: nat): (s: string)
    ensures |s| >= 1 && forall i :: 0 <= i < |s| ==> IsDigit(s[i])
    ensures n >= 10 ==> s[0] != '0'
  {
    if n < 10 then [DigitChar(n)] else NatText(n / 10) + [DigitChar(n % 10)]
  }

  /** `str(n)` for any integer. */
  function IntText(n: int): string
  {
    if n < 0 then "-" + NatText(-n) else NatText(n)
  }

  /** `date.strftime('%Y-%m-%d')`. */
  function FormatDate(d: Date): (s: string)
    requires Valid(d)
    ensures |s| == 10 && s[4] == '-' && s[7] == '-'
  {
    Digits(d.year, 4) + "-" + Digits(d.month, 2) + "-" + Digits(d.day, 2)
  }

  /** The `%m` field of `strptime`: `1[0-2]|0[1-9]|[1-9]` and then the `-`
      that follows it. Gives the month and the rest after that `-`. */
  function MonthField(t: string): Option<(int, string)>
  {
    if |t| >= 3 && t[2] == '-' && t[0] == '1' && '0' <= t[1] <= '2' then Some((10 + DigitValue(t[1]), t[3..]))
    else if |t| >= 3 && t[2] == '-' && t[0] == '0' && '1' <= t[1] <= '9' then Some((DigitValue(t[1]), t[3..]))
    else if |t| >= 2 && t[1] == '-' && '1' <= t[0] <= '9' then Some((DigitValue(t[0]), t[2..]))
    else None
  }

  /** The `%d` field of `strptime`, which must end the string:
      `3[01]|[12]\d|0[1-9]|[1-9]| [1-9]`. */
  function DayField(t: string): Option<int>
  {
    if |t| == 2 && t[0] == '3' && (t[1] == '0' || t[1] == '1') then Some(30 + DigitValue(t[1]))
    else if |t| == 2 && (t[0] == '1' || t[0] == '2') && IsDigit(t[1]) then Some(10 * DigitValue(t[0]) + DigitValue(t[1]))
    else if |t| == 2 && t[0] == '0' && '1' <= t[1] <= '9' then Some(DigitValue(t[1]))
    else if |t| == 1 && '1' <= t[0] <= '9' then Some(DigitValue(t[0]))
    else if |t| == 2 && t[0] == ' ' && '1' <= t[1] <= '9' then Some(DigitValue(t[1]))
    else None
  }

  /** `datetime.strptime(s, '%Y-%m-%d').date()`: None where Python raises
      ValueError (no match, unconverted data, year 0, day past month end). */
  function ParseDate(s: string): (r: Option<Date>)
    ensures r.Some? ==> Valid(r.value)
  {
    if |s| < 5 || !(IsDigit(s[0]) && IsDigit(s[1]) && IsDigit(s[2]) && IsDigit(s[3])) || s[4] != '-' then None
    else
      var year := 1000 * DigitValue(s[0]) + 100 * DigitValue(s[1]) + 10 * DigitValue(s[2]) + DigitValue(s[3]);
      match MonthField(s[5..])
      case None => None
      case Some((month, rest)) =>
        match DayField(rest)
        case None => None
        case Some(day) =>
          if MIN_YEAR <= year && 1 <= month <= 12 && 1 <= day <= DaysInMonth(year, month)
          then Some(Date(year, month, day))
          else None
  }

  /** A date `strptime` accepts has four year digits, one or two month
      characters and one or two day characters around its two dashes. */
  lemma ParseDateLength(s: string)
    requires ParseDate(s).Some?
    ensures 8 <= |s| <= 10
  {
    var rest := MonthField(s[5..]).value.1;
    assert 2 <= |s[5..]| - |rest| <= 3;
  }

  /** The two digits of a number below 100. */
  lemma DigitsTwo(n: nat)
    requires n < 100
    ensures Digits(n, 2) == [DigitChar(n / 10), DigitChar(n % 10)]
  {
    var q := n / 10;
    assert q < 10;
    SingleDigit(q);
    assert Digits(q, 1) == [DigitChar(q % 10)];
    assert Digits(n, 2) == Digits(q, 1) + [DigitChar(n % 10)];
  }

  lemma SingleDigit(c: int)
    requires 0 <= c < 10
    ensures c % 10 == c
  {
  }

  /** The four digits of a number below 10000. */
  lemma DigitsFour(n: nat)
    requires n < 10000
    ensures Digits(n, 4) == [DigitChar(n / 1000), DigitChar(n / 100 % 10), DigitChar(n / 10 % 10), DigitChar(n % 10)]
  {
    DigitsOfFour(n);
    var a := n / 10;
    var b := a / 10;
    var c := b / 10;
    assert b == n / 100 && c == n / 1000;
    SingleDigit(c);
    assert Digits(c, 1) == [DigitChar(c % 10)];
    assert Digits(b, 2) == Digits(c, 1) + [DigitChar(b % 10)];
    assert Digits(a, 3) == Digits(b, 2) + [DigitChar(a % 10)];
  }

  /** `%m` reads back a zero-padded month and the `-` after it. */
  lemma MonthFieldDigits(m: int, rest: string)
    requires 1 <= m <= 12
    ensures MonthField(Digits(m, 2) + "-" + rest) == Some((m, rest))
  {
    DigitsTwo(m);
    var t := Digits(m, 2) + "-" + rest;
    assert t[3..] == rest;
  }

  /** `%d` reads back a zero-padded day that ends the string. */
  lemma DayFieldDigits(d: int)
    requires 1 <= d <= 31
    ensures DayField(Digits(d, 2)) == Some(d)
  {
    DigitsTwo(d);
    var t, a, b := Digits(d, 2), d / 10, d % 10;
    assert d == 10 * a + b && 0 <= a <= 3;
    assert t[0] == DigitChar(a) && t[1] == DigitChar(b);
    if a == 0 {
      assert DayField(t) == Some(DigitValue(t[1]));
    } else if a == 3 {
      assert DayField(t) == Some(30 + DigitValue(t[1]));
    } else {
      assert t[0] == '1' || t[0] == '2';
      assert IsDigit(t[1]) && DigitValue(t[0]) == a && DigitValue(t[1]) == b;
      assert DayField(t) == Some(10 * DigitValue(t[0]) + DigitValue(t[1]));
    }
  }

  /** The four `%Y` digits of a year read back as that year. */
  lemma YearDigits(y: int)
    requires 1 <= y <= 9999
    ensures var s := Digits(y, 4);
      && IsDigit(s[0]) && IsDigit(s[1]) && IsDigit(s[2]) && IsDigit(s[3])
      && 1000 * DigitValue(s[0]) + 100 * DigitValue(s[1]) + 10 * DigitValue(s[2]) + DigitValue(s[3]) == y
  {
    DigitsFour(y);
    DigitsOfFour(y);
  }

  /** `strptime` reads back what `strftime` wrote. */
  lemma ParseFormat(d: Date)
    requires Valid(d)
    ensures ParseDate(FormatDate(d)) == Some(d)
  {
    var s := FormatDate(d);
    var y := Digits(d.year, 4);
    YearDigits(d.year);
    assert s[..4] == y;
    assert s[5..] == Digits(d.month, 2) + "-" + Digits(d.day, 2);
    MonthFieldDigits(d.month, Digits(d.day, 2));
    DayFieldDigits(d.day);
  }

  /** Two dates with the same `%Y-%m-%d` text are the same date. */
  lemma FormatInjective(a: Date, b: Date)
    requires Valid(a) && Valid(b)
    ensures FormatDate(a) == FormatDate(b) <==> a == b
  {
    ParseFormat(a);
    ParseFormat(b);
  }

  /** `int(s)` on an optional sign and ASCII digits. */
  function ParseInt(s: string): Option<int>
  {
    if |s| > 0 && (s[0] == '-' || s[0] == '+') then
      match ParseNat(s[1..])
      case None => None
      case Some(n) => Some(if s[0] == '-' then -(n as int) else n as int)
    else
      match ParseNat(s)
      case None => None
      case Some(n) => Some(n as int)
  }

  /** A non-empty run of ASCII digits read as a decimal number. */
  function ParseNat(s: string): (r: Option<nat>)
    ensures r.Some? <==> |s| > 0 && forall i :: 0 <= i < |s| ==> IsDigit(s[i])
  {
    if |s| == 0 then None
    else if !IsDigit(s[|s| - 1]) then None
    else if |s| == 1 then Some(DigitValue(s[0]))
    else
      match ParseNat(s[..|s| - 1])
      case None => None
      case Some(n) => Some(10 * n + DigitValue(s[|s| - 1]))
  }

  lemma {:induction false} ParseNatText(n: nat)
    ensures ParseNat(NatText(n)) == Some(n)
  {
    if n >= 10 {
      ParseNatText(n / 10);
      var s := NatText(n);
      assert s[..|s| - 1] == NatText(n / 10);
    }
  }

  /** `int(str(n)) == n`. */
  lemma ParseIntText(n: int)
    ensures ParseInt(IntText(n)) == Some(n)
  {
    var s := NatText(if n < 0 then -n else n);
    ParseNatText(if n < 0 then -n else n);
    if n < 0 {
      assert ("-" + s)[1..] == s;
    } else {
      assert s[0] != '-' && s[0] != '+' by { assert IsDigit(s[0]); }
    }
  }

  /** `str(y)` of a four-digit year is its `%Y` text. */
  lemma {:induction false} IntTextFourDigits(y: int)
    requires 1000 <= y <= 9999
    ensures IntText(y) == Digits(y, 4)
  {
    DigitsOfFour(y);
    DigitsFour(y);
    assert NatText(y / 1000) == [DigitChar(y / 1000)];
    assert NatText(y / 100) == NatText(y / 1000) + [DigitChar(y / 100 % 10)];
    assert NatText(y / 10) == NatText(y / 100) + [DigitChar(y / 10 % 10)];
    assert NatText(y) == NatText(y / 10) + [DigitChar(y % 10)];
  }

  lemma DigitsOfFour(y: int)
    requires 0 <= y
    ensures y / 10 / 10 == y / 100 && y / 100 / 10 == y / 1000
    ensures y % 100 / 10 == y / 10 % 10 && y % 100 % 10 == y % 10
    ensures y < 10000 ==> 1000 * (y / 1000) + 100 * (y / 100 % 10) + 10 * (y / 10 % 10) + y % 10 == y
    ensures y < 10000 ==> y / 1000 < 10
  {
    assert y / 10 / 10 == y / 100 by {
      assert y == 10 * (y / 10) + y % 10;
      assert y / 10 == 10 * (y / 10 / 10) + y / 10 % 10;
    }
    assert y / 100 / 10 == y / 1000 by {
      assert y == 100 * (y / 100) + y % 100;
      assert y / 100 == 10 * (y / 100 / 10) + y / 100 % 10;
    }
    assert y % 100 / 10 == y / 10 % 10 && y % 100 % 10 == y % 10 by {
      assert y == 100 * (y / 100) + y % 100;
      assert y % 100 == 10 * (y % 100 / 10) + y % 100 % 10;
      assert y == 10 * (y / 10) + y % 10;
      assert y / 10 == 10 * (y / 100) + y / 10 % 10;
    }
    assert y / 10 % 10 == y / 10 - 10 * (y / 100);
    assert y / 100 % 10 == y / 100 - 10 * (y / 1000);
  }

  /** `s.split(sep)` for a one-character separator: the pieces between
      separators, empty pieces included. */
  function Split(s: string, sep: char): (parts: seq<string>)
    ensures |parts| >= 1
    ensures forall k :: 0 <= k < |parts| ==> sep !in parts[k]
  {
    if |s| == 0 then [""]
    else
      var tail := Split(s[1..], sep);
      if s[0] == sep then [""] + tail
      else [[s[0]] + tail[0]] + tail[1..]
  }

  /** A string without the separator splits into itself alone. */
  lemma {:induction false} SplitWithout(s: string, sep: char)
    requires sep !in s
    ensures Split(s, sep) == [s]
  {
    if |s| > 0 {
      SplitWithout(s[1..], sep);
      assert [s[0]] + s[1..] == s;
    }
  }

  /** `sep.join(parts)`. */
  function Join(parts: seq<string>, sep: char): string
    requires |parts| >= 1
  {
    if |parts| == 1 then parts[0] else parts[0] + [sep] + Join(parts[1..], sep)
  }

  lemma {:induction false} JoinSplit(s: string, sep: char)
    ensures Join(Split(s, sep), sep) == s
  {
    if |s| > 0 {
      JoinSplit(s[1..], sep);
      var tail := Split(s[1..], sep);
      if s[0] != sep {
        if |tail| == 1 {
          assert [[s[0]] + tail[0]] + tail[1..] == [[s[0]] + tail[0]];
        } else {
          var parts := [[s[0]] + tail[0]] + tail[1..];
          assert parts[1..] == tail[1..];
        }
      } else {
        assert ([""] + tail)[1..] == tail;
      }
    }
  }

  lemma {:induction false} SplitJoin(parts: seq<string>, sep: char)
    requires |parts| >= 1
    requires forall k :: 0 <= k < |parts| ==> sep !in parts[k]
    ensures Split(Join(parts, sep), sep) == parts
    decreases |parts|, |parts[0]|
  {
    var p := parts[0];
    if |p| == 0 {
      if |parts| > 1 {
        SplitJoin(parts[1..], sep);
        assert Join(parts, sep) == [sep] + Join(parts[1..], sep);
        assert Join(parts, sep)[1..] == Join(parts[1..], sep);
        assert parts == [""] + parts[1..];
      }
    } else {
      var rest := [p[1..]] + parts[1..];
      assert p[1..] == rest[0] && sep !in p[1..];
      SplitJoin(rest, sep);
      if |parts| == 1 {
        assert Join(parts, sep)[1..] == Join(rest, sep);
      } else {
        assert rest[1..] == parts[1..];
        assert Join(parts, sep)[1..] == Join(rest, sep);
      }
      assert p == [p[0]] + p[1..];
      assert parts == [p] + rest[1..];
    }
  }

  function LowerChar(c: char): char
  {
    if 'A' <= c <= 'Z' then (c as int + 32) as char else c
  }

  /** `s.lower()` on ASCII letters. */
  function Lower(s: string): (r: string)
    ensures |r| == |s| && forall i :: 0 <= i < |s| ==> r[i] == LowerChar(s[i])
  {
    seq(|s|, i requires 0 <= i < |s| => LowerChar(s[i]))
  }

  /** Lower-casing leaves lower-case text alone, keeps every character that
      is not an upper-case ASCII letter, and moves the upper-case ones to
      their lower-case letters. */
  lemma LowerIdempotent(s: string)
    ensures Lower(Lower(s)) == Lower(s)
    ensures forall i :: 0 <= i < |s| && !('A' <= s[i] <= 'Z') ==> Lower(s)[i] == s[i]
    ensures forall i :: 0 <= i < |s| && 'A' <= s[i] <= 'Z' ==> 'a' <= Lower(s)[i] <= 'z' && Lower(s)[i] as int == s[i] as int + 32
  {
    assert forall i :: 0 <= i < |s| ==> Lower(Lower(s))[i] == LowerChar(LowerChar(s[i]));
  }

  /** `a < b` on Python strings: code points compared left to right, a proper
      prefix first. */
  predicate Less(a: string, b: string)
    decreases |a|
  {
    if |a| == 0 then |b| > 0
    else if |b| == 0 then false
    else if a[0] != b[0] then a[0] < b[0]
    else Less(a[1..], b[1..])
  }

  lemma {:induction false} LessIrreflexive(a: string)
    ensures !Less(a, a)
    decreases |a|
  {
    if |a| > 0 {
      LessIrreflexive(a[1..]);
    }
  }

  lemma {:induction false} LessTransitive(a: string, b: string, c: string)
    requires Less(a, b) && Less(b, c)
    ensures Less(a, c)
    decreases |a|
  {
    if |a| > 0 && |b| > 0 && |c| > 0 && a[0] == b[0] && b[0] == c[0] {
      LessTransitive(a[1..], b[1..], c[1..]);
    }
  }

  lemma {:induction false} LessTotal(a: string, b: string)
    requires a != b
    ensures Less(a, b) != Less(b, a)
    decreases |a|
  {
    if |a| > 0 && |b| > 0 && a[0] == b[0] {
      assert a == [a[0]] + a[1..] && b == [b[0]] + b[1..];
      LessTotal(a[1..], b[1..]);
    }
  }
}
