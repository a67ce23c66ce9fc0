/** The elapsed-time formatter of the system monitor: a number of seconds rendered as
    HH:MM:SS, where the hour field is at least two digits wide and never wraps. */
module Format {
  import opened Wrappers

  predicate IsDigit(c: char) { '0' <= c <= '9' }

  predicate IsDigits(s: string) { forall k :: 0 <= k < |s| ==> IsDigit(s[k]) }

  function DigitChar(d: nat): (c: char)
    requires d < 10
    ensures IsDigit(c) && c as int - '0' as int == d
  {
    ['0', '1', '2', '3', '4', '5', '6', '7', '8', '9'][d]
  }

  /** The value of a string of decimal digits, most significant digit first. */
  function DigitsValue(s: string): nat
    requires IsDigits(s)
  {
    if s == [] then 0
    else DigitsValue(s[..|s| - 1]) * 10 + (s[|s| - 1] as int - '0' as int)
  }

  /** std::to_string on a non-negative value: its decimal digits, no leading zero. */
  function NatToDecimal(n: nat): (s: string)
    ensures IsDigits(s) && DigitsValue(s) == n
    ensures |s| > 0 && (s[0] == '0' <==> n == 0)
    ensures |s| == 1 <==> n < 10
    ensures |s| <= 2 <==> n < 100
  {
    if n < 10 then [DigitChar(n)]
    else
      var prefix := NatToDecimal(n / 10);
      var s := prefix + [DigitChar(n % 10)];
      assert s[..|s| - 1] == prefix;
      s
  }

  /** std::to_string on a long: the decimal digits of the value without leading zeros,
      after a minus sign when it is negative. */
  function IntToDecimal(n: int): (s: string)
    ensures 0 <= n ==> IsDigits(s) && DigitsValue(s) == n && |s| > 0 && (s[0] == '0' <==> n == 0)
    ensures n < 0 ==> |s| > 1 && s[0] == '-' && IsDigits(s[1..]) && DigitsValue(s[1..]) == -n && s[1] != '0'
  {
    if n < 0 then
      var s := ['-'] + NatToDecimal(-n);
      assert s[1..] == NatToDecimal(-n);
      s
    else NatToDecimal(n)
  }

  /** Format::TimeValueToString: a value below ten gets one '0' in front of its decimal form. */
  function TimeValueToString(time: int): (s: string)
    ensures time < 10 ==> s == ['0'] + IntToDecimal(time)
    ensures 10 <= time ==> s == IntToDecimal(time)
    ensures 0 <= time ==> IsDigits(s) && DigitsValue(s) == time && |s| >= 2
    ensures 0 <= time ==> (s[0] == '0' <==> time < 10)
    ensures 0 <= time < 100 ==> |s| == 2
    ensures 100 <= time ==> |s| > 2
  {
    if time < 10 then
      var s := ['0'] + IntToDecimal(time);
      assert 0 <= time ==> IsDigits(s) && DigitsValue(s) == time by {
        if 0 <= time { LeadingZero(IntToDecimal(time)); }
      }
      s
    else IntToDecimal(time)
  }

  /** A leading zero does not change the value of a digit string. */
  lemma {:induction false} LeadingZero(s: string)
    requires IsDigits(s)
    ensures IsDigits(['0'] + s) && DigitsValue(['0'] + s) == DigitsValue(s)
  {
    var t := ['0'] + s;
    if s != [] {
      assert t[..|t| - 1] == ['0'] + s[..|s| - 1];
      LeadingZero(s[..|s| - 1]);
    }
  }

  /** Format::ElapsedTime. */
  function ElapsedTime(seconds: int): (time: string)
    ensures seconds <= 0 ==> time == "00:00:00"
  {
    if seconds > 0 then
      TimeValueToString(seconds / 3600) + ":"
        + TimeValueToString((seconds / 60) % 60) + ":"
        + TimeValueToString(seconds % 60)
    else "00:00:00"
  }

  /** Reads a string of the form H:MM:SS back into a number of seconds, where H is
      at least two digits and MM, SS are exactly two digits with values below 60. */
  function ParseElapsed(time: string): Option<nat>
  {
    var n := |time|;
    if n < 8 || time[n - 6] != ':' || time[n - 3] != ':' then None
    else
      var h, m, s := time[..n - 6], time[n - 5..n - 3], time[n - 2..];
      if !IsDigits(h) || !IsDigits(m) || !IsDigits(s) then None
      else if DigitsValue(m) >= 60 || DigitsValue(s) >= 60 then None
      else Some(DigitsValue(h) * 3600 + DigitsValue(m) * 60 + DigitsValue(s))
  }

  /** The number of occurrences of c in s. */
  function Count(s: string, c: char): nat
  {
    if s == [] then 0 else (if s[0] == c then 1 else 0) + Count(s[1..], c)
  }

  lemma {:induction false} CountConcat(a: string, b: string, c: char)
    ensures Count(a + b, c) == Count(a, c) + Count(b, c)
  {
    if a != [] {
      assert (a + b)[0] == a[0] && (a + b)[1..] == a[1..] + b;
      CountConcat(a[1..], b, c);
    } else {
      assert a + b == b;
    }
  }

  lemma {:induction false} CountDigits(s: string)
    requires IsDigits(s)
    ensures Count(s, ':') == 0
  {
    if s != [] { CountDigits(s[1..]); }
  }

  /** Hours, minutes and seconds put back together give the number they were taken from. */
  lemma ClockSplit(seconds: nat)
    ensures (seconds / 60) % 60 < 60 && seconds % 60 < 60
    ensures (seconds / 3600) * 3600 + ((seconds / 60) % 60) * 60 + seconds % 60 == seconds
    ensures seconds / 3600 < 100 <==> seconds < 360000
  {
    var q := seconds / 60;
    assert seconds == q * 60 + seconds % 60;
    assert q == (q / 60) * 60 + q % 60;
    assert seconds / 3600 == q / 60;
  }

  /** t is laid out as H:MM:SS: an hour field of at least two digits worth h, a colon, two
      digits worth m, a colon and two digits worth s, with m and s below 60. */
  predicate HasFields(t: string, h: nat, m: nat, s: nat)
  {
    var n := |t|;
    && n >= 8 && t[n - 6] == ':' && t[n - 3] == ':'
    && IsDigits(t[..n - 6]) && DigitsValue(t[..n - 6]) == h
    && IsDigits(t[n - 5..n - 3]) && DigitsValue(t[n - 5..n - 3]) == m < 60
    && IsDigits(t[n - 2..]) && DigitsValue(t[n - 2..]) == s < 60
  }

  /** Three digit fields joined by colons, the last two two wide, are laid out as H:MM:SS
      and hold exactly two colons. */
  lemma {:induction false} JoinFields(h: string, m: string, s: string, hv: nat, mv: nat, sv: nat)
    requires IsDigits(h) && DigitsValue(h) == hv && |h| >= 2
    requires IsDigits(m) && DigitsValue(m) == mv < 60 && |m| == 2
    requires IsDigits(s) && DigitsValue(s) == sv < 60 && |s| == 2
    ensures var t := h + ":" + m + ":" + s;
      && |t| == |h| + 6 && HasFields(t, hv, mv, sv) && Count(t, ':') == 2
  {
    var t := h + ":" + m + ":" + s;
    var n := |t|;
    assert t[..n - 6] == h;
    assert t[n - 5..n - 3] == m;
    assert t[n - 2..] == s;
    CountConcat(h + ":" + m + ":", s, ':');
    CountConcat(h + ":" + m, ":", ':');
    CountConcat(h + ":", m, ':');
    CountConcat(h, ":", ':');
    CountDigits(h);
    CountDigits(m);
    CountDigits(s);
  }

  /** The layout of a non-zero result: a digit hour field of at least two characters (more
      exactly when the count reaches 100 hours), a colon, two minute digits, a colon and two
      second digits, minutes and seconds both below 60, and exactly two colons in all. */
  lemma ElapsedTimeLayout(seconds: int)
    requires seconds > 0
    ensures var t := ElapsedTime(seconds);
      && HasFields(t, seconds / 3600, (seconds / 60) % 60, seconds % 60)
      && (|t| - 6 > 2 <==> seconds >= 360000)
      && Count(t, ':') == 2
  {
    ClockSplit(seconds);
    var h := TimeValueToString(seconds / 3600);
    JoinFields(h, TimeValueToString((seconds / 60) % 60), TimeValueToString(seconds % 60),
               seconds / 3600, (seconds / 60) % 60, seconds % 60);
  }

  /** Round trip: reading the formatted time back gives the number of seconds, or zero for
      a count that is not positive. */
  lemma ElapsedTimeRoundTrip(seconds: int)
    ensures ParseElapsed(ElapsedTime(seconds)) == Some(if seconds > 0 then seconds else 0)
  {
    if seconds > 0 {
      ElapsedTimeLayout(seconds);
      ParseFields(ElapsedTime(seconds), seconds / 3600, (seconds / 60) % 60, seconds % 60);
      ClockSplit(seconds);
    } else {
      ZeroRoundTrip();
    }
  }

  /** What ParseElapsed reads from any string laid out as H:MM:SS with the given field values. */
  lemma ParseFields(t: string, h: nat, m: nat, s: nat)
    requires HasFields(t, h, m, s)
    ensures ParseElapsed(t) == Some(h * 3600 + m * 60 + s)
  {
  }

  lemma ZeroRoundTrip()
    ensures ParseElapsed("00:00:00") == Some(0)
  {
    var t := "00:00:00";
    assert t[..2] == "00" && t[3..5] == "00" && t[6..] == "00";
    ZeroLayout();
  }

  /** The result for a count that is not positive, read as three two-digit fields. */
  lemma ZeroLayout()
    ensures var z := "00"; "00:00:00" == z + ":" + z + ":" + z
    ensures IsDigits("00") && DigitsValue("00") == 0
    ensures Count("00:00:00", ':') == 2
  {
    var z := "00";
    assert z[..1] == "0";
    assert "0"[..0] == [];
    JoinFields(z, z, z, 0, 0, 0);
  }

  /** The formatted string always has exactly two colons. */
  lemma ElapsedTimeColons(seconds: int)
    ensures Count(ElapsedTime(seconds), ':') == 2
  {
    if seconds > 0 {
      ElapsedTimeLayout(seconds);
    } else {
      ZeroLayout();
    }
  }
}
