/**
 * `formatTime` (widget.js:151-155): a playback position in milliseconds
 * shown as minutes, a colon, and seconds padded to two digits. Only
 * non-negative whole milliseconds are modelled.
 */
module TimeFormat {
  import opened Wrappers
  import opened Text

  predicate IsDigit(c: char)
  {
    '0' <= c <= '9'
  }

  predicate AllDigits(s: string)
  {
    forall i :: 0 <= i < |s| ==> IsDigit(s[i])
  }

  function DigitChar(d: nat): (c: char)
    requires d < 10
    ensures IsDigit(c)
  {
    "0123456789"[d]
  }

  function DigitValue(c: char): nat
    requires IsDigit(c)
  {
    c as int - '0' as int
  }

  lemma DigitRoundTrip(d: nat)
    requires d < 10
    ensures DigitValue(DigitChar(d)) == d
  {
  }

  /** `n.toString()` for a natural number: its decimal digits, without leading zeros. */
  function DecimalString(n: nat): (s: string)
    ensures |s| >= 1 && AllDigits(s)
    ensures s[0] == '0' ==> s == "0"
    ensures n < 10 <==> |s| == 1
  {
    if n < 10 then [DigitChar(n)] else DecimalString(n / 10) + [DigitChar(n % 10)]
  }

  /** The number a string of decimal digits denotes. */
  function DecimalValue(s: string): nat
    requires AllDigits(s)
  {
    if s == [] then 0 else DecimalValue(s[..|s| - 1]) * 10 + DigitValue(s[|s| - 1])
  }

  /** The digits of a number denote that number. */
  lemma {:induction false} DecimalRoundTrip(n: nat)
    ensures DecimalValue(DecimalString(n)) == n
  {
    var s := DecimalString(n);
    if n < 10 {
      DigitRoundTrip(n);
      assert s[..0] == [];
    } else {
      DecimalRoundTrip(n / 10);
      DigitRoundTrip(n % 10);
      assert s[..|s| - 1] == DecimalString(n / 10);
    }
  }

  /** `sec.toString().padStart(2, '0')`. */
  function TwoDigits(sec: nat): string
  {
    PadStart(DecimalString(sec), 2, '0')
  }

  /** A number below 100 padded to two digits is exactly two digits denoting that number. */
  lemma TwoDigitsValue(sec: nat)
    requires sec < 100
    ensures |TwoDigits(sec)| == 2 && AllDigits(TwoDigits(sec))
    ensures DecimalValue(TwoDigits(sec)) == sec
  {
    var t := TwoDigits(sec);
    if sec < 10 {
      assert t == ['0', DigitChar(sec)];
      assert t[..1] == ['0'] && ['0'][..0] == [];
      DigitRoundTrip(sec);
    } else {
      DecimalRoundTrip(sec);
      assert sec / 10 < 10;
    }
  }

  /** `formatTime(ms)`: whole minutes, `:`, and the remaining whole seconds as two digits. */
  function FormatTime(ms: nat): string
  {
    DecimalString(ms / 60000) + ":" + TwoDigits((ms % 60000) / 1000)
  }

  /** Reads `m:ss` back: digits, one colon, exactly two digits; anything else is refused. */
  function ParseTime(s: string): Option<(nat, nat)>
  {
    if ':' in s then
      var i := IndexOf(s, ':');
      var m, ss := s[..i], s[i + 1..];
      if |m| >= 1 && AllDigits(m) && |ss| == 2 && AllDigits(ss) then
        Some((DecimalValue(m), DecimalValue(ss)))
      else None
    else None
  }

  /** The colon of `m:ss` is the first one in the string. */
  lemma ColonAt(m: string, ss: string)
    requires AllDigits(m)
    ensures var s := m + ":" + ss; ':' in s && IndexOf(s, ':') == |m| && s[..|m|] == m && s[|m| + 1..] == ss
  {
    var s := m + ":" + ss;
    assert s[|m|] == ':';
    var i := IndexOf(s, ':');
    assert forall j :: 0 <= j < |m| ==> s[j] == m[j];
    assert forall j :: 0 <= j < i ==> s[..i][j] == s[j];
    assert i == |m|;
    assert s[..|m|] == m;
    assert s[|m| + 1..] == ss;
  }

  /**
   * `formatTime(ms)` reads back as the pair (minutes, seconds) with
   * minutes = ms / 60000 and seconds = (ms % 60000) / 1000: the seconds are
   * exactly two digits, lie in 0..59, and together with the minutes they
   * bracket `ms` to the whole second below it.
   */
  lemma FormatTimeBounds(ms: nat)
    ensures ParseTime(FormatTime(ms)) == Some((ms / 60000, (ms % 60000) / 1000))
    ensures var min, sec := ms / 60000, (ms % 60000) / 1000;
      sec < 60 && min * 60000 + sec * 1000 <= ms < min * 60000 + (sec + 1) * 1000
  {
    var min, sec := ms / 60000, (ms % 60000) / 1000;
    var m := DecimalString(min);
    TwoDigitsValue(sec);
    DecimalRoundTrip(min);
    ColonAt(m, TwoDigits(sec));
    assert ms == min * 60000 + ms % 60000;
    assert ms % 60000 == sec * 1000 + (ms % 60000) % 1000;
  }

  /** Minutes and seconds taken from milliseconds are those taken from whole seconds. */
  lemma WholeSeconds(ms: nat)
    ensures ms / 60000 == (ms / 1000) / 60
    ensures (ms % 60000) / 1000 == (ms / 1000) % 60
  {
    var t := ms / 1000;
    assert ms == t * 1000 + ms % 1000;
    assert t == (t / 60) * 60 + t % 60;
    assert ms == (t / 60) * 60000 + ((t % 60) * 1000 + ms % 1000);
    assert (t % 60) * 1000 + ms % 1000 < 60000;
  }

  /** Two times display alike exactly when they fall in the same whole second. */
  lemma FormatTimeInjective(a: nat, b: nat)
    ensures FormatTime(a) == FormatTime(b) <==> a / 1000 == b / 1000
  {
    WholeSeconds(a);
    WholeSeconds(b);
    if FormatTime(a) == FormatTime(b) {
      FormatTimeBounds(a);
      FormatTimeBounds(b);
      var ta, tb := a / 1000, b / 1000;
      assert ta == (ta / 60) * 60 + ta % 60 && tb == (tb / 60) * 60 + tb % 60;
    }
  }
}
