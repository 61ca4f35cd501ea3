/** The handful of Python string operations the handlers rely on:
    `str.strip()`, `str.lower()`, `str.split(sep)`, `sep.join(...)`,
    `int(...)` on a string and `str(n)` / `f"{n:0Wd}"` on a natural number. */
module Text {
  import opened Common

  /** Python's `str.isspace` for one character: the C0 separators
      U+0009..U+000D and U+001C..U+001F, the space, NEL, NBSP and the
      Unicode space separators and line/paragraph separators. */
  predicate IsSpace(c: char) {
    || ('\t' <= c <= '\r')
    || ('\U{1C}' <= c <= ' ')
    || c == '\U{85}' || c == '\U{A0}' || c == '\U{1680}'
    || ('\U{2000}' <= c <= '\U{200A}')
    || c == '\U{2028}' || c == '\U{2029}' || c == '\U{202F}'
    || c == '\U{205F}' || c == '\U{3000}'
  }

  predicate AllSpace(s: string) {
    forall i :: 0 <= i < |s| ==> IsSpace(s[i])
  }

  /** `s.lstrip()`: whitespace removed from the front. */
  function TrimStart(s: string): string
    decreases |s|
  {
    if s != [] && IsSpace(s[0]) then TrimStart(s[1..]) else s
  }

  /** `s.rstrip()`: whitespace removed from the back. */
  function TrimEnd(s: string): string
    decreases |s|
  {
    if s != [] && IsSpace(s[|s| - 1]) then TrimEnd(s[..|s| - 1]) else s
  }

  /** `s.strip()`: whitespace removed from both ends. */
  function Strip(s: string): string {
    TrimEnd(TrimStart(s))
  }

  /** What `lstrip` keeps is a suffix that starts with a non-space, and
      what it drops is whitespace. */
  lemma {:induction false} TrimStartShape(s: string)
    ensures |TrimStart(s)| <= |s|
    ensures TrimStart(s) == s[|s| - |TrimStart(s)|..]
    ensures AllSpace(s[..|s| - |TrimStart(s)|])
    ensures TrimStart(s) != [] ==> !IsSpace(TrimStart(s)[0])
    decreases |s|
  {
    if s != [] && IsSpace(s[0]) {
      var t := s[1..];
      TrimStartShape(t);
      var k := |t| - |TrimStart(t)|;
      assert s[1 + k..] == t[k..];
      var dropped := s[..1 + k];
      forall i | 0 <= i < |dropped| ensures IsSpace(dropped[i]) {
        if i > 0 { assert dropped[i] == t[..k][i - 1]; }
      }
    }
  }

  /** What `rstrip` keeps is a prefix that ends with a non-space, and
      what it drops is whitespace. */
  lemma {:induction false} TrimEndShape(s: string)
    ensures |TrimEnd(s)| <= |s|
    ensures TrimEnd(s) == s[..|TrimEnd(s)|]
    ensures AllSpace(s[|TrimEnd(s)|..])
    ensures TrimEnd(s) != [] ==> !IsSpace(TrimEnd(s)[|TrimEnd(s)| - 1])
    decreases |s|
  {
    if s != [] && IsSpace(s[|s| - 1]) {
      var t := s[..|s| - 1];
      TrimEndShape(t);
      var n := |TrimEnd(t)|;
      assert s[..n] == t[..n];
      var dropped := s[n..];
      forall i | 0 <= i < |dropped| ensures IsSpace(dropped[i]) {
        if i < |t| - n { assert dropped[i] == t[n..][i]; }
      }
    }
  }

  /** A stripped string starts and ends with a non-space and holds only
      characters of the original, in particular none the original lacks. */
  lemma StripShape(s: string)
    ensures Strip(s) != [] ==> !IsSpace(Strip(s)[0]) && !IsSpace(Strip(s)[|Strip(s)| - 1])
    ensures forall c :: c in Strip(s) ==> c in s
  {
    var t := TrimStart(s);
    TrimStartShape(s);
    TrimEndShape(t);
    var r := Strip(s);
    if r != [] {
      assert r[0] == t[0];
    }
    forall c | c in r ensures c in s {
      var i :| 0 <= i < |r| && r[i] == c;
      assert t[i] == c;
      assert s[|s| - |t| + i] == c;
    }
  }

  /** `lstrip` passes over a whitespace margin and stops at the first
      non-space. */
  lemma {:induction false} TrimStartAfterMargin(margin: string, t: string)
    requires AllSpace(margin)
    requires t == [] || !IsSpace(t[0])
    ensures TrimStart(margin + t) == t
    decreases |margin|
  {
    if margin != [] {
      assert (margin + t)[1..] == margin[1..] + t;
      TrimStartAfterMargin(margin[1..], t);
    }
  }

  /** `rstrip` passes back over a whitespace margin and stops at the last
      non-space. */
  lemma {:induction false} TrimEndBeforeMargin(t: string, margin: string)
    requires AllSpace(margin)
    requires t == [] || !IsSpace(t[|t| - 1])
    ensures TrimEnd(t + margin) == t
    decreases |margin|
  {
    if margin != [] {
      var m := margin[..|margin| - 1];
      assert (t + margin)[..|t + margin| - 1] == t + m;
      TrimEndBeforeMargin(t, m);
    }
  }

  /** `strip` is characterised by its result: whitespace margins around a
      core without whitespace at its ends strip to exactly that core. */
  lemma StripPadded(lead: string, core: string, trail: string)
    requires AllSpace(lead) && AllSpace(trail)
    requires core == [] || (!IsSpace(core[0]) && !IsSpace(core[|core| - 1]))
    ensures Strip(lead + core + trail) == core
  {
    if core == [] {
      assert lead + core + trail == (lead + trail) + [];
      assert AllSpace(lead + trail) by {
        forall i | 0 <= i < |lead + trail| ensures IsSpace((lead + trail)[i]) {
          if i >= |lead| { assert (lead + trail)[i] == trail[i - |lead|]; }
        }
      }
      TrimStartAfterMargin(lead + trail, []);
    } else {
      assert lead + core + trail == lead + (core + trail);
      TrimStartAfterMargin(lead, core + trail);
      TrimEndBeforeMargin(core, trail);
    }
  }

  /** A string with no whitespace at either end is its own strip. */
  lemma StripKeeps(s: string)
    requires s == [] || (!IsSpace(s[0]) && !IsSpace(s[|s| - 1]))
    ensures Strip(s) == s
  {
  }

  /** Stripping twice is stripping once. */
  lemma StripIdempotent(s: string)
    ensures Strip(Strip(s)) == Strip(s)
  {
    StripShape(s);
    StripKeeps(Strip(s));
  }

  /** Python's `str.lower()` on one character, restricted to ASCII. */
  function LowerChar(c: char): (d: char)
    ensures !('A' <= d <= 'Z')
    ensures IsSpace(d) == IsSpace(c)
  {
    if 'A' <= c <= 'Z' then (c as int + 32) as char else c
  }

  /** `s.lower()`, character by character. */
  function Lower(s: string): (r: string)
    ensures |r| == |s|
    ensures forall i :: 0 <= i < |s| ==> r[i] == LowerChar(s[i])
  {
    seq(|s|, i requires 0 <= i < |s| => LowerChar(s[i]))
  }

  /** Lower-casing does not move whitespace, so it commutes with lstrip. */
  lemma {:induction false} TrimStartLower(s: string)
    ensures TrimStart(Lower(s)) == Lower(TrimStart(s))
    decreases |s|
  {
    if s != [] {
      assert Lower(s)[1..] == Lower(s[1..]);
      TrimStartLower(s[1..]);
    }
  }

  /** Lower-casing does not move whitespace, so it commutes with rstrip. */
  lemma {:induction false} TrimEndLower(s: string)
    ensures TrimEnd(Lower(s)) == Lower(TrimEnd(s))
    decreases |s|
  {
    if s != [] {
      assert Lower(s)[..|s| - 1] == Lower(s[..|s| - 1]);
      TrimEndLower(s[..|s| - 1]);
    }
  }

  /** Lower-casing commutes with strip. */
  lemma LowerStrip(s: string)
    ensures Strip(Lower(s)) == Lower(Strip(s))
  {
    TrimStartLower(s);
    TrimEndLower(TrimStart(s));
  }

  /** Lower-casing twice is lower-casing once. */
  lemma LowerIdempotent(s: string)
    ensures Lower(Lower(s)) == Lower(s)
  {
    assert forall i :: 0 <= i < |s| ==> LowerChar(LowerChar(s[i])) == LowerChar(s[i]);
  }

  /** Python's `str.split(sep)` with an explicit one-character separator:
      always at least one piece, and no piece contains `sep`. */
  function Split(s: string, sep: char): (parts: seq<string>)
    ensures |parts| >= 1
    ensures forall i :: 0 <= i < |parts| ==> sep !in parts[i]
    decreases |s|
  {
    if s == [] then [[]]
    else
      var rest := Split(s[1..], sep);
      if s[0] == sep then [[]] + rest
      else [[s[0]] + rest[0]] + rest[1..]
  }

  /** Python's `sep.join(parts)`. */
  function Join(parts: seq<string>, sep: string): string
  {
    if parts == [] then []
    else if |parts| == 1 then parts[0]
    else parts[0] + sep + Join(parts[1..], sep)
  }

  /** Two pieces are joined with one separator between them. */
  lemma JoinPair(a: string, b: string, sep: string)
    ensures Join([a, b], sep) == a + sep + b
  {
    assert [a, b][1..] == [b];
  }

  /** Joining the pieces of a split with the separator gives back the
      original string. */
  lemma {:induction false} JoinSplit(s: string, sep: char)
    ensures Join(Split(s, sep), [sep]) == s
    decreases |s|
  {
    if s != [] {
      var rest := Split(s[1..], sep);
      JoinSplit(s[1..], sep);
      if s[0] == sep {
        assert Split(s, sep) == [[]] + rest;
        assert s == [sep] + s[1..];
      } else {
        var parts := [[s[0]] + rest[0]] + rest[1..];
        assert Split(s, sep) == parts;
        if |rest| == 1 {
          assert s == [s[0]] + rest[0];
        } else {
          assert parts[1..] == rest[1..];
          assert Join(rest, [sep]) == rest[0] + [sep] + Join(rest[1..], [sep]);
          assert s == [s[0]] + s[1..];
        }
      }
    }
  }

  /** Splitting `p + [sep] + t` where `p` holds no separator peels `p` off. */
  lemma {:induction false} SplitAfterPiece(p: string, sep: char, t: string)
    requires sep !in p
    ensures Split(p + [sep] + t, sep) == [p] + Split(t, sep)
    decreases |p|
  {
    var s := p + [sep] + t;
    if p == [] {
      assert s[1..] == t;
    } else {
      SplitAfterPiece(p[1..], sep, t);
      assert s[1..] == p[1..] + [sep] + t;
      assert [p[0]] + p[1..] == p;
    }
  }

  /** A string without the separator splits into itself alone. */
  lemma {:induction false} SplitWhole(p: string, sep: char)
    requires sep !in p
    ensures Split(p, sep) == [p]
    decreases |p|
  {
    if p != [] {
      SplitWhole(p[1..], sep);
      assert [p[0]] + p[1..] == p;
    }
  }

  /** Splitting a join of separator-free pieces gives back the pieces. */
  lemma {:induction false} SplitJoin(parts: seq<string>, sep: char)
    requires |parts| >= 1
    requires forall i :: 0 <= i < |parts| ==> sep !in parts[i]
    ensures Split(Join(parts, [sep]), sep) == parts
    decreases |parts|
  {
    if |parts| == 1 {
      SplitWhole(parts[0], sep);
    } else {
      SplitJoin(parts[1..], sep);
      SplitAfterPiece(parts[0], sep, Join(parts[1..], [sep]));
      assert [parts[0]] + parts[1..] == parts;
    }
  }

  predicate IsDigit(c: char) {
    '0' <= c <= '9'
  }

  predicate AllDigits(s: string) {
    forall i :: 0 <= i < |s| ==> IsDigit(s[i])
  }

  function DigitValue(c: char): (d: nat)
    requires IsDigit(c)
    ensures d < 10
  {
    c as int - '0' as int
  }

  function DigitChar(d: nat): (c: char)
    requires d < 10
    ensures IsDigit(c) && DigitValue(c) == d
  {
    (d + '0' as int) as char
  }

  /** The number a string of decimal digits denotes (most significant first). */
  function DecimalValue(s: string): nat
    requires AllDigits(s)
  {
    if s == [] then 0 else DecimalValue(s[..|s| - 1]) * 10 + DigitValue(s[|s| - 1])
  }

  /** Python's `str(n)` for a natural number: the shortest decimal
      rendering, which starts with '0' only for zero. */
  function Decimal(n: nat): (s: string)
    ensures s != [] && AllDigits(s) && DecimalValue(s) == n
    ensures (s[0] == '0') == (n == 0)
    decreases n
  {
    if n < 10 then [DigitChar(n)]
    else
      var s := Decimal(n / 10) + [DigitChar(n % 10)];
      assert s[..|s| - 1] == Decimal(n / 10);
      s
  }

  function Pow10(k: nat): (p: nat)
    ensures p >= 1
  {
    if k == 0 then 1 else 10 * Pow10(k - 1)
  }

  /** Python's `f"{n:0{width}d}"` when `n` fits in `width` digits: exactly
      `width` decimal digits, left-padded with zeros, denoting `n`. */
  function PadDigits(n: nat, width: nat): (s: string)
    requires n < Pow10(width)
    ensures |s| == width && AllDigits(s) && DecimalValue(s) == n
    decreases width
  {
    if width == 0 then []
    else
      var s := PadDigits(n / 10, width - 1) + [DigitChar(n % 10)];
      assert s[..|s| - 1] == PadDigits(n / 10, width - 1);
      s
  }

  /** Decimal digit strings of equal length that denote the same number
      are the same string. */
  lemma {:induction false} DecimalValueInjective(a: string, b: string)
    requires AllDigits(a) && AllDigits(b) && |a| == |b|
    requires DecimalValue(a) == DecimalValue(b)
    ensures a == b
    decreases |a|
  {
    if a != [] {
      var n := |a| - 1;
      assert DigitValue(a[n]) == DigitValue(b[n]);
      DecimalValueInjective(a[..n], b[..n]);
      assert a == a[..n] + [a[n]] && b == b[..n] + [b[n]];
    }
  }

  /** Python 3.11 and later refuse to read a decimal string of more
      digits than this (`sys.get_int_max_str_digits()`): `int` raises
      ValueError, whatever the digits are, leading zeros included. */
  const MaxStrDigits: nat := 4300

  /** The information separators U+001C..U+001F are whitespace to
      `str.strip` but not to `int`, which skips only ASCII space, tab, line
      feed, vertical tab, form feed and carriage return, and whitespace
      outside ASCII. */
  predicate IsInfoSeparator(c: char) {
    '\U{1C}' <= c <= '\U{1F}'
  }

  predicate HasInfoSeparator(s: string) {
    exists i :: 0 <= i < |s| && IsInfoSeparator(s[i])
  }

  /** Python's `int(s)` on a string: surrounding whitespace is ignored, an
      optional sign is allowed, and at least one and at most MaxStrDigits
      decimal digits must follow; anything else raises ValueError,
      modelled as None. An information separator is never skipped, so one
      anywhere in `s` makes it raise; without one, `int` skips exactly what
      `strip` removes. */
  function ParseInt(s: string): Option<int>
  {
    var t := Strip(s);
    if HasInfoSeparator(s) then None else
    if t != [] && (t[0] == '+' || t[0] == '-') then
      var digits := t[1..];
      if digits != [] && AllDigits(digits) && |digits| <= MaxStrDigits then
        Some(if t[0] == '-' then -(DecimalValue(digits) as int) else DecimalValue(digits))
      else None
    else if t != [] && AllDigits(t) && |t| <= MaxStrDigits then Some(DecimalValue(t))
    else None
  }

  /** A number below 10^k is written with at most k digits. */
  lemma {:induction false} DecimalLength(n: nat, k: nat)
    requires 1 <= k && n < Pow10(k)
    ensures |Decimal(n)| <= k
    decreases n
  {
    if n >= 10 {
      assert k >= 2;
      DecimalLength(n / 10, k - 1);
    }
  }

  /** More than MaxStrDigits digits are refused, even when they denote a
      small number. */
  lemma ParseIntDigitLimit(d: string)
    requires AllDigits(d) && |d| > MaxStrDigits
    ensures ParseInt(d) == None
    ensures ParseInt("-" + d) == None
  {
    StripKeeps(d);
    var m := "-" + d;
    StripKeeps(m);
    assert m[1..] == d;
  }

  /** `int` reads back what `str` writes, for either sign, within the
      digit limit. */
  lemma ParseIntDecimal(n: nat)
    requires |Decimal(n)| <= MaxStrDigits
    ensures ParseInt(Decimal(n)) == Some(n)
    ensures ParseInt("-" + Decimal(n)) == Some(-(n as int))
  {
    var d := Decimal(n);
    StripKeeps(d);
    var m := "-" + d;
    StripKeeps(m);
    assert m[1..] == d;
    assert !HasInfoSeparator(d) && !HasInfoSeparator(m) by {
      assert forall i :: 0 <= i < |d| ==> IsDigit(d[i]);
      assert forall i :: 1 <= i < |m| ==> m[i] == d[i - 1];
    }
  }

  /** `int` ignores whitespace around a number exactly when no information
      separator is among it. */
  lemma ParseIntPadded(lead: string, n: nat, trail: string)
    requires AllSpace(lead) && AllSpace(trail) && |Decimal(n)| <= MaxStrDigits
    ensures ParseInt(lead + Decimal(n) + trail) ==
      if HasInfoSeparator(lead) || HasInfoSeparator(trail) then None else Some(n)
  {
    var d := Decimal(n);
    var s := lead + d + trail;
    assert forall i :: 0 <= i < |d| ==> IsDigit(d[i]);
    assert forall i :: 0 <= i < |lead| ==> s[i] == lead[i];
    assert forall i :: 0 <= i < |trail| ==> s[|lead| + |d| + i] == trail[i];
    assert forall i :: 0 <= i < |d| ==> s[|lead| + i] == d[i];
    if !HasInfoSeparator(lead) && !HasInfoSeparator(trail) {
      forall i | 0 <= i < |s|
        ensures !IsInfoSeparator(s[i])
      {
        if i < |lead| {
        } else if i < |lead| + |d| {
          assert s[i] == d[i - |lead|];
        } else {
          assert s[i] == trail[i - |lead| - |d|];
        }
      }
      StripPadded(lead, d, trail);
      StripKeeps(d);
      ParseIntDecimal(n);
    }
  }
}
