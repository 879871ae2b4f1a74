/**
 The `formatTime` helper of `App` in src/App.tsx: whole minutes, a colon,
 then the remaining seconds left-padded with '0' to two characters, and a
 strict reader that takes such a text back to its number of seconds.
 */
module TimeFormat {

  import opened Options
  import opened Arith

  predicate IsDigit(c: char) {
    '0' <= c <= '9'
  }

  predicate AllDigits(s: string) {
    forall i :: 0 <= i < |s| ==> IsDigit(s[i])
  }

  function DigitChar(d: nat): (c: char)
    requires d < 10
    ensures IsDigit(c) && DigitValue(c) == d
  {
    (('0' as int) + d) as char
  }

  function DigitValue(c: char): (d: nat)
    requires IsDigit(c)
    ensures d < 10
  {
    (c as int) - ('0' as int)
  }

  /** The number a string of decimal digits denotes (most significant digit first). */
  function Value(s: string): nat
    requires AllDigits(s)
  {
    if |s| == 0 then 0 else Value(s[..|s| - 1]) * 10 + DigitValue(s[|s| - 1])
  }

  /** What `Number.prototype.toString` prints for a non-negative integer: at least one digit, no leading zero. */
  predicate Canonical(s: string) {
    |s| >= 1 && AllDigits(s) && (s[0] == '0' ==> |s| == 1)
  }

  /** `n.toString()` for a non-negative integer `n`. */
  function Decimal(n: nat): (s: string)
    ensures Canonical(s)
    ensures Value(s) == n
    decreases n
  {
    if n < 10 then [DigitChar(n)]
    else
      var p := Decimal(n / 10);
      var s := p + [DigitChar(n % 10)];
      assert s[..|s| - 1] == p;
      s
  }

  /** A canonical digit string with a leading digit other than '0' denotes a positive number. */
  lemma {:induction false} CanonicalPositive(s: string)
    requires Canonical(s) && s[0] != '0'
    ensures Value(s) >= 1
    decreases |s|
  {
    if |s| > 1 {
      var p := s[..|s| - 1];
      assert p[0] == s[0];
      CanonicalPositive(p);
    }
  }

  /** Printing the number a canonical digit string denotes gives back that string. */
  lemma {:induction false} DecimalOfValue(s: string)
    requires Canonical(s)
    ensures Decimal(Value(s)) == s
    decreases |s|
  {
    if |s| > 1 {
      var p := s[..|s| - 1];
      assert p[0] == s[0];
      CanonicalPositive(p);
      DecimalOfValue(p);
      var v := Value(s);
      DivModUnique(v, 10, Value(p), DigitValue(s[|s| - 1]));
      assert s == p + [s[|s| - 1]];
    }
  }

  /** `Decimal` is one-to-one. */
  lemma DecimalInjective(a: nat, b: nat)
    requires Decimal(a) == Decimal(b)
    ensures a == b
  {
  }

  /** `s.padStart(width, fill)`: `fill` is prepended until `s` has `width` characters. */
  function PadStart(s: string, width: nat, fill: char): (r: string)
    ensures |r| == (if |s| >= width then |s| else width)
    ensures r[|r| - |s|..] == s
    ensures forall i :: 0 <= i < |r| - |s| ==> r[i] == fill
  {
    if |s| >= width then s else seq(width - |s|, _ => fill) + s
  }

  /** A two-character digit string denotes ten times its first digit plus its second. */
  lemma ValueOfTwo(f: string)
    requires |f| == 2 && AllDigits(f)
    ensures Value(f) == DigitValue(f[0]) * 10 + DigitValue(f[1])
  {
    var p := f[..1];
    assert p[..0] == [] && p[0] == f[0];
    assert Value(p) == DigitValue(f[0]);
  }

  /** The seconds field, `secs.toString().padStart(2, '0')`: exactly the two decimal digits of a value below 60. */
  function SecondsField(v: nat): (f: string)
    requires v < 60
    ensures f == [DigitChar(v / 10), DigitChar(v % 10)]
    ensures |f| == 2 && AllDigits(f) && Value(f) == v
  {
    var f := PadStart(Decimal(v), 2, '0');
    assert v >= 10 ==> Decimal(v) == Decimal(v / 10) + [DigitChar(v % 10)];
    ValueOfTwo([DigitChar(v / 10), DigitChar(v % 10)]);
    f
  }

  /** The three parts of `m + ":" + f` when `f` has two characters. */
  lemma SplitAtColon(m: string, f: string)
    requires |f| == 2
    ensures var t := m + ":" + f;
            |t| == |m| + 3 && t[..|t| - 3] == m && t[|t| - 3] == ':' && t[|t| - 2..] == f
  {
  }

  /** `formatTime(seconds)`: `${Math.floor(seconds / 60)}:${(seconds % 60).toString().padStart(2, '0')}`. */
  function FormatTime(seconds: nat): (t: string)
    ensures |t| >= 4 && t[|t| - 3] == ':'
    ensures Canonical(t[..|t| - 3]) && Value(t[..|t| - 3]) == seconds / 60
    ensures AllDigits(t[|t| - 2..]) && Value(t[|t| - 2..]) == seconds % 60
  {
    var mins := Decimal(seconds / 60);
    var secs := SecondsField(seconds % 60);
    SplitAtColon(mins, secs);
    mins + ":" + secs
  }

  /** The position of the first `c` in `s`, if any. */
  function IndexOf(s: string, c: char): (r: Option<nat>)
    ensures r.Some? ==> r.value < |s| && s[r.value] == c && c !in s[..r.value]
    ensures r.None? ==> c !in s
  {
    if |s| == 0 then None
    else if s[0] == c then Some(0)
    else match IndexOf(s[1..], c)
      case None => None
      case Some(k) =>
        assert s[..k + 1] == [s[0]] + s[1..][..k];
        Some(k + 1)
  }

  /**
   Reads a countdown text back: split at the first ':', a canonical number of
   minutes before it, exactly two digits worth less than 60 after it.
   */
  function ParseTime(t: string): Option<nat>
  {
    match IndexOf(t, ':')
    case None => None
    case Some(k) =>
      var mins, secs := t[..k], t[k + 1..];
      if Canonical(mins) && |secs| == 2 && AllDigits(secs) && Value(secs) < 60
      then Some(Value(mins) * 60 + Value(secs))
      else None
  }

  /** The reader's accepting case, for a text whose first ':' is at `k`. */
  lemma ParseTimeAt(t: string, k: nat)
    requires IndexOf(t, ':') == Some(k)
    requires Canonical(t[..k]) && |t[k + 1..]| == 2 && AllDigits(t[k + 1..]) && Value(t[k + 1..]) < 60
    ensures ParseTime(t) == Some(Value(t[..k]) * 60 + Value(t[k + 1..]))
  {
  }

  /** A canonical minutes field, a colon and a two-digit seconds field below 60 read as their total. */
  lemma ParseJoined(m: string, f: string)
    requires Canonical(m) && |f| == 2 && AllDigits(f) && Value(f) < 60
    ensures ParseTime(m + ":" + f) == Some(Value(m) * 60 + Value(f))
  {
    var t := m + ":" + f;
    assert ':' !in m by {
      forall i | 0 <= i < |m|
        ensures m[i] != ':'
      {
        assert IsDigit(m[i]);
      }
    }
    assert t[..|m|] == m;
    assert IndexOf(t, ':') == Some(|m|);
    assert t[|m| + 1..] == f;
    ParseTimeAt(t, |m|);
  }

  /** Reading a formatted time gives back the number of seconds. */
  lemma ParseFormat(seconds: nat)
    ensures ParseTime(FormatTime(seconds)) == Some(seconds)
  {
    var m, f := Decimal(seconds / 60), SecondsField(seconds % 60);
    assert FormatTime(seconds) == m + ":" + f;
    ParseJoined(m, f);
    DivModSplit(seconds, 60);
  }

  /** Every text the reader accepts is exactly what `formatTime` prints for its value. */
  lemma FormatParse(t: string, seconds: nat)
    requires ParseTime(t) == Some(seconds)
    ensures FormatTime(seconds) == t
  {
    var k := IndexOf(t, ':').value;
    var mins, secs := t[..k], t[k + 1..];
    assert t == mins + ":" + secs;
    DivModUnique(seconds, 60, Value(mins), Value(secs));
    DecimalOfValue(mins);
    var v := Value(secs);
    ValueOfTwo(secs);
    DivModUnique(v, 10, DigitValue(secs[0]), DigitValue(secs[1]));
    assert SecondsField(v) == secs;
  }

  /** The reader and the printer are inverse: `t` is read as `seconds` exactly when `t` is how `seconds` prints. */
  lemma ParseIffFormat(t: string, seconds: nat)
    ensures ParseTime(t) == Some(seconds) <==> FormatTime(seconds) == t
  {
    if ParseTime(t) == Some(seconds) {
      FormatParse(t, seconds);
    }
    if FormatTime(seconds) == t {
      ParseFormat(seconds);
    }
  }

  /** Different numbers of seconds never print the same. */
  lemma FormatTimeInjective(a: nat, b: nat)
    requires FormatTime(a) == FormatTime(b)
    ensures a == b
  {
    ParseFormat(a);
    ParseFormat(b);
  }

  /** The value shown when the page opens. */
  lemma FormatTimeAtStart()
    ensures FormatTime(3599) == "59:59"
  {
    DivModUnique(3599, 60, 59, 59);
    assert Decimal(5) == "5";
    assert Decimal(59) == "59";
    assert SecondsField(59) == "59";
    assert FormatTime(3599) == Decimal(59) + ":" + SecondsField(59);
  }

  /** The value shown five seconds later. */
  lemma FormatTimeAfterFiveSeconds()
    ensures FormatTime(3594) == "59:54"
  {
    DivModUnique(3594, 60, 59, 54);
    assert Decimal(5) == "5";
    assert Decimal(59) == "59";
    assert SecondsField(54) == "54";
    assert FormatTime(3594) == Decimal(59) + ":" + SecondsField(54);
  }

  /** One minute and one second: the seconds field is padded. */
  lemma FormatTimeOneMinuteOneSecond()
    ensures FormatTime(61) == "1:01"
  {
    DivModUnique(61, 60, 1, 1);
    assert Decimal(1) == "1";
    assert SecondsField(1) == "01";
    assert FormatTime(61) == Decimal(1) + ":" + SecondsField(1);
  }

  /** The value shown once the countdown has run out. */
  lemma FormatTimeAtZero()
    ensures FormatTime(0) == "0:00"
  {
    assert Decimal(0) == "0";
    assert SecondsField(0) == "00";
    assert FormatTime(0) == Decimal(0) + ":" + SecondsField(0);
  }

}
