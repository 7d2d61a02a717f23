/** Text helpers shared by the matcher and the compositing planner:
    decimal rendering (Python's "{}".format of an int and "%0Nd"),
    str.join with a one-character separator and str.split on one character. */
module Strings {

  predicate IsDigit(c: char) {
    '0' <= c <= '9'
  }

  predicate AllDigits(s: string) {
    forall i :: 0 <= i < |s| ==> IsDigit(s[i])
  }

  function DigitChar(d: nat): (c: char)
    requires d < 10
    ensures IsDigit(c)
  {
    ('0' as int + d) as char
  }

  function DigitValue(c: char): (d: nat)
    requires IsDigit(c)
    ensures d < 10
  {
    (c as int - '0' as int) as nat
  }

  /** The number a string of decimal digits denotes (most significant first). */
  function DigitsValue(s: string): nat
    requires AllDigits(s)
  {
    if |s| == 0 then 0 else 10 * DigitsValue(s[..|s| - 1]) + DigitValue(s[|s| - 1])
  }

  function Pow10(k: nat): (p: nat)
    ensures p >= 1
  {
    if k == 0 then 1 else 10 * Pow10(k - 1)
  }

  /** Decimal digits of `n`, at least `width` of them (zero-padded on the left),
      as Python's "%0*d" prints a non-negative integer. */
  function Pad(n: nat, width: nat): string
    decreases width + n
  {
    if n < 10 && width <= 1 then [DigitChar(n)]
    else Pad(n / 10, if width == 0 then 0 else width - 1) + [DigitChar(n % 10)]
  }

  /** Decimal rendering of a non-negative integer, as "{}".format(n). */
  function NatToString(n: nat): string {
    Pad(n, 1)
  }

  lemma {:induction false} PadDigits(n: nat, width: nat)
    ensures AllDigits(Pad(n, width))
    ensures DigitsValue(Pad(n, width)) == n
    ensures |Pad(n, width)| >= 1
    ensures |Pad(n, width)| >= width
    ensures n < Pow10(width) ==> |Pad(n, width)| == (if width == 0 then 1 else width)
    ensures |Pad(n, width)| > 1 && |Pad(n, width)| > width ==> Pad(n, width)[0] != '0'
    decreases width + n, 1
  {
    if n < 10 && width <= 1 {
    } else {
      var w := if width == 0 then 0 else width - 1;
      var p := Pad(n / 10, w);
      PadDigits(n / 10, w);
      var s := p + [DigitChar(n % 10)];
      assert s == Pad(n, width) && |s| == |p| + 1;
      assert s[..|s| - 1] == p;
      assert DigitValue(s[|s| - 1]) == n % 10;
      if n < Pow10(width) && width >= 1 {
        assert n / 10 < Pow10(w);
      }
      PadLeading(n, width);
    }
  }

  /** Digits beyond the requested width start with a non-zero digit. */
  lemma {:induction false} PadLeading(n: nat, width: nat)
    requires !(n < 10 && width <= 1)
    ensures |Pad(n, width)| > width ==> Pad(n, width)[0] != '0'
    decreases width + n, 0
  {
    var w := if width == 0 then 0 else width - 1;
    var p := Pad(n / 10, w);
    PadDigits(n / 10, w);
    var s := p + [DigitChar(n % 10)];
    assert s == Pad(n, width) && |s| == |p| + 1;
    if |s| > width && |p| == 1 {
      // a single leading digit is the whole quotient, which is not zero here
      assert p[..0] == [];
      assert DigitValue(p[0]) == n / 10 >= 1;
    }
    assert s[0] == p[0];
  }

  /** Every rendered integer reads back as itself. */
  lemma NatToStringDigits(n: nat)
    ensures AllDigits(NatToString(n)) && DigitsValue(NatToString(n)) == n
    ensures |NatToString(n)| >= 1
  {
    PadDigits(n, 1);
  }

  /** `parts` joined with `sep` between consecutive parts, as sep.join(parts). */
  function Join(parts: seq<string>, sep: char): string
  {
    if |parts| == 0 then ""
    else if |parts| == 1 then parts[0]
    else parts[0] + [sep] + Join(parts[1..], sep)
  }

  /** Python's s.split(sep) for a one-character separator: every occurrence
      separates, empty pieces are kept, and the result is never empty. */
  function Split(s: string, sep: char): (r: seq<string>)
    ensures |r| >= 1
  {
    if |s| == 0 then [""]
    else
      var rest := Split(s[1..], sep);
      if s[0] == sep then [""] + rest
      else [[s[0]] + rest[0]] + rest[1..]
  }

  /** Splitting text that starts with a separator-free piece `a`. */
  lemma {:induction false} SplitFreePrefix(a: string, t: string, sep: char)
    requires sep !in a
    ensures Split(a + t, sep) == [a + Split(t, sep)[0]] + Split(t, sep)[1..]
  {
    if |a| == 0 {
      assert a + t == t;
      var r := Split(t, sep);
      assert a + r[0] == r[0];
      assert r == [r[0]] + r[1..];
    } else {
      assert (a + t)[1..] == a[1..] + t;
      assert (a + t)[0] == a[0];
      SplitFreePrefix(a[1..], t, sep);
      assert [a[0]] + (a[1..] + Split(t, sep)[0]) == a + Split(t, sep)[0];
    }
  }

  /** Text without the separator splits into itself alone. */
  lemma SplitFree(a: string, sep: char)
    requires sep !in a
    ensures Split(a, sep) == [a]
  {
    SplitFreePrefix(a, "", sep);
    assert a + "" == a;
  }

  /** The first piece of `a + [sep] + t` is `a` when `a` holds no separator. */
  lemma SplitAtSeparator(a: string, t: string, sep: char)
    requires sep !in a
    ensures Split(a + [sep] + t, sep) == [a] + Split(t, sep)
  {
    var u := [sep] + t;
    SplitFreePrefix(a, u, sep);
    assert a + [sep] + t == a + u;
    assert u[0] == sep && u[1..] == t;
    assert Split(u, sep) == [""] + Split(t, sep);
    assert a + "" == a;
  }

  /** Splitting undoes joining, when no part holds the separator. */
  lemma {:induction false} SplitJoin(parts: seq<string>, sep: char)
    requires |parts| >= 1
    requires forall i :: 0 <= i < |parts| ==> sep !in parts[i]
    ensures Split(Join(parts, sep), sep) == parts
  {
    if |parts| == 1 {
      SplitFree(parts[0], sep);
    } else {
      SplitJoin(parts[1..], sep);
      SplitAtSeparator(parts[0], Join(parts[1..], sep), sep);
      assert [parts[0]] + parts[1..] == parts;
    }
  }

  /** A join ends with its last piece. */
  lemma {:induction false} JoinEndsWithLast(parts: seq<string>, sep: char)
    requires |parts| >= 1
    ensures |Join(parts, sep)| >= |parts[|parts| - 1]|
    ensures Join(parts, sep)[|Join(parts, sep)| - |parts[|parts| - 1]|..] == parts[|parts| - 1]
  {
    if |parts| > 1 {
      JoinEndsWithLast(parts[1..], sep);
      var tail := Join(parts[1..], sep);
      var last := parts[|parts| - 1];
      assert parts[1..][|parts[1..]| - 1] == last;
      var s := parts[0] + [sep] + tail;
      assert s[|s| - |last|..] == tail[|tail| - |last|..];
    }
  }

  /** A join does not end with the separator when its last piece is neither
      empty nor holds the separator. */
  lemma JoinNoTrailing(parts: seq<string>, sep: char)
    requires |parts| >= 1 && sep !in parts[|parts| - 1]
    ensures |parts[|parts| - 1]| > 0 ==> Join(parts, sep)[|Join(parts, sep)| - 1] != sep
  {
    JoinEndsWithLast(parts, sep);
    var text := Join(parts, sep);
    var last := parts[|parts| - 1];
    if |last| > 0 {
      assert text[|text| - |last|..][|last| - 1] == text[|text| - 1];
      assert last[|last| - 1] in last;
    }
  }

  /** The part of `s` before the first `sep`, the whole of `s` if there is
      none: Python's s.split(sep)[0]. */
  function BeforeFirst(s: string, sep: char): string {
    Split(s, sep)[0]
  }

  /** BeforeFirst is characterised by three facts: it is a prefix of `s`, it holds
      no separator, and it is followed in `s` by a separator or by nothing. */
  lemma {:induction false} BeforeFirstSpec(s: string, sep: char)
    ensures |BeforeFirst(s, sep)| <= |s|
    ensures s[..|BeforeFirst(s, sep)|] == BeforeFirst(s, sep)
    ensures sep !in BeforeFirst(s, sep)
    ensures |BeforeFirst(s, sep)| < |s| ==> s[|BeforeFirst(s, sep)|] == sep
    ensures sep !in s ==> BeforeFirst(s, sep) == s
  {
    if |s| == 0 {
      assert BeforeFirst(s, sep) == "";
    } else if s[0] == sep {
      assert BeforeFirst(s, sep) == "";
    } else {
      var t := s[1..];
      BeforeFirstSpec(t, sep);
      var p := BeforeFirst(t, sep);
      var b := [s[0]] + p;
      assert BeforeFirst(s, sep) == b;
      assert s == [s[0]] + t;
      assert s[..|b|] == [s[0]] + t[..|p|];
      if |b| < |s| {
        assert s[|b|] == t[|p|];
      }
      if sep !in s {
        assert sep !in t by {
          forall i | 0 <= i < |t| ensures t[i] != sep {
            assert t[i] == s[i + 1];
          }
        }
      }
    }
  }
}
