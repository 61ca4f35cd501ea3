/** One-time codes for e-mail verification: how a code is drawn and
    rendered, when it expires, and when a submitted code is accepted. */
module Otp {
  import opened Common
  import Text

  /** `secrets.randbelow(1000000)` draws below this bound. */
  const CodeRange: nat := 1000000

  /** Seconds between issuing a code and its expiry (ten minutes). */
  const Lifetime: int := 600

  /** `generate_otp`: the drawn number written as exactly six decimal
      digits, left-padded with zeros. */
  function FormatCode(n: nat): (code: string)
    requires n < CodeRange
    ensures |code| == 6 && Text.AllDigits(code)
    ensures Text.DecimalValue(code) == n
  {
    assert Text.Pow10(6) == CodeRange;
    Text.PadDigits(n, 6)
  }

  /** Six digits never denote a number of seven digits. */
  lemma {:induction false} DecimalValueBound(s: string)
    requires Text.AllDigits(s)
    ensures Text.DecimalValue(s) < Text.Pow10(|s|)
    decreases |s|
  {
    if s != [] {
      DecimalValueBound(s[..|s| - 1]);
    }
  }

  /** Formatting is a bijection between the draws and the six-digit
      strings: distinct draws give distinct codes, and every six-digit
      string is the code of exactly one draw (so a uniform draw gives a
      uniform code). */
  lemma FormatCodeBijective(code: string)
    requires |code| == 6 && Text.AllDigits(code)
    ensures Text.DecimalValue(code) < CodeRange
    ensures FormatCode(Text.DecimalValue(code)) == code
  {
    DecimalValueBound(code);
    assert Text.Pow10(6) == CodeRange;
    Text.DecimalValueInjective(FormatCode(Text.DecimalValue(code)), code);
  }

  /** The stored `otp_expires` column. The application writes a number of
      seconds; anything `float(...)` cannot read is `Unparseable`. */
  datatype Stamp = Seconds(t: int) | Unparseable

  /** `float(user["otp_expires"] or "0")`, with ValueError read as 0:
      a missing or unreadable expiry counts as the epoch. */
  function ExpiryOf(stored: Option<Stamp>): (t: int)
    ensures stored.Some? && stored.value.Seconds? ==> t == stored.value.t
    ensures stored.None? || stored.value.Unparseable? ==> t == 0
  {
    match stored
    case Some(Seconds(t)) => t
    case _ => 0
  }

  /** The expiry stored when a code is issued at time `now`. */
  function IssuedExpiry(now: int): Stamp {
    Seconds(now + Lifetime)
  }

  /** The acceptance test of `verify`: the stripped submission is non-empty,
      equals the stored code (a NULL code reads as ""), and the clock has
      not passed the expiry. */
  predicate Accepts(code: string, stored: Option<string>, expires: Option<Stamp>, now: int) {
    code != [] && code == stored.GetOr([]) && now <= ExpiryOf(expires)
  }

  /** Accepted means: a code is stored, the submission is exactly it, and
      the expiry (a missing or unreadable one reads as 0) has not passed. */
  lemma AcceptsExactly(code: string, stored: Option<string>, expires: Option<Stamp>, now: int)
    ensures Accepts(code, stored, expires, now)
        <==> code != [] && stored == Some(code) && now <= ExpiryOf(expires)
  {
  }

  /** A code is accepted from the moment it is issued until its lifetime
      has run out, and never afterwards. */
  lemma IssuedCodeWindow(n: nat, issuedAt: int, now: int)
    requires n < CodeRange
    ensures Accepts(FormatCode(n), Some(FormatCode(n)), Some(IssuedExpiry(issuedAt)), now)
        <==> now <= issuedAt + Lifetime
  {
  }

  /** Once the code and its expiry are cleared (a verified account), no
      submission is accepted. */
  lemma ClearedAcceptsNothing(code: string, now: int)
    ensures !Accepts(code, None, None, now)
  {
  }

  /** A missing or unreadable expiry fails closed at any time after the epoch. */
  lemma BrokenExpiryFailsClosed(code: string, stored: Option<string>, now: int)
    requires now > 0
    ensures !Accepts(code, stored, None, now)
    ensures !Accepts(code, stored, Some(Unparseable), now)
  {
  }
}
