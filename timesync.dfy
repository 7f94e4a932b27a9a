/**
  The client's view of the server clock and the countdown text. The client
  clock (`Date.now()`) is the parameter `clientNow`; ISO timestamps are
  already milliseconds since the epoch.
*/
module TimeSync {
  import opened Optional

  const MS_PER_SECOND: nat := 1000
  const MS_PER_MINUTE: nat := 60 * MS_PER_SECOND
  const MS_PER_HOUR: nat := 60 * MS_PER_MINUTE

  /** The module-level `serverTimeOffset` and the functions that read it. */
  class ServerClock {
    /** Server time minus client time, in milliseconds. */
    var serverTimeOffset: int

    constructor ()
      ensures serverTimeOffset == 0
    {
      serverTimeOffset := 0;
    }

    /** `getServerTime`: the client clock moved by the offset. */
    function GetServerTime(clientNow: int): (r: int)
      reads this
      ensures r - clientNow == serverTimeOffset
    {
      clientNow + serverTimeOffset
    }

    /**
      `setServerTimeOffset`: after it, the server time read at the same client
      instant is the server time that was received.
    */
    method SetServerTimeOffset(serverTime: int, clientNow: int)
      modifies this
      ensures GetServerTime(clientNow) == serverTime
      ensures forall later :: GetServerTime(later) == serverTime + (later - clientNow)
    {
      serverTimeOffset := serverTime - clientNow;
    }

    /** `getTimeRemaining`: milliseconds to the end by the server clock, never negative. */
    function GetTimeRemaining(endTime: int, clientNow: int): (r: int)
      reads this
      ensures r >= 0
      ensures r == 0 <==> endTime <= GetServerTime(clientNow)
      ensures r > 0 ==> r == endTime - GetServerTime(clientNow)
    {
      var remaining := endTime - GetServerTime(clientNow);
      if remaining > 0 then remaining else 0
    }
  }

  /** The countdown never goes up as the client clock advances. */
  lemma RemainingCountsDown(clock: ServerClock, endTime: int, earlier: int, later: int)
    requires earlier <= later
    ensures clock.GetTimeRemaining(endTime, later) <= clock.GetTimeRemaining(endTime, earlier)
    ensures later - earlier <= clock.GetTimeRemaining(endTime, earlier) ==>
      clock.GetTimeRemaining(endTime, later) == clock.GetTimeRemaining(endTime, earlier) - (later - earlier)
  {
  }

  // ---------------------------------------------------------------------------
  // Splitting milliseconds: `Math.floor` of a ratio of non-negative integers is
  // integer division, and the remainder modulo 60 of that ratio floors the same way.

  function Seconds(ms: nat): nat { (ms / MS_PER_SECOND) % 60 }
  function Minutes(ms: nat): nat { (ms / MS_PER_MINUTE) % 60 }
  function Hours(ms: nat): nat { ms / MS_PER_HOUR }

  /** The three parts are in range and rebuild the duration to within a second. */
  lemma SplitBounds(ms: nat)
    ensures Seconds(ms) < 60 && Minutes(ms) < 60
    ensures var whole := Hours(ms) * MS_PER_HOUR + Minutes(ms) * MS_PER_MINUTE + Seconds(ms) * MS_PER_SECOND;
      whole <= ms < whole + MS_PER_SECOND
    ensures Hours(ms) > 0 <==> ms >= MS_PER_HOUR
    ensures Hours(ms) == 0 ==> (Minutes(ms) > 0 <==> ms >= MS_PER_MINUTE)
  {
    var q, r := ms / 1000, ms % 1000;
    var q2, s := q / 60, q % 60;
    var h, m := q2 / 60, q2 % 60;
    assert ms == 60000 * q2 + (1000 * s + r);
    assert q2 == ms / 60000;
    assert ms == 3600000 * h + (60000 * m + 1000 * s + r);
    assert h == ms / 3600000;
  }

  // ---------------------------------------------------------------------------
  // Decimal numerals

  predicate IsDigit(c: char) { '0' <= c <= '9' }

  predicate AllDigits(s: string) { forall i :: 0 <= i < |s| ==> IsDigit(s[i]) }

  /** How `${n}` writes a non-negative integer: no sign, no leading zeros. */
  function NatToDecimal(n: nat): (r: string)
    ensures |r| > 0 && AllDigits(r)
    ensures |r| > 1 ==> r[0] != '0'
  {
    var d := ['0' + (n % 10) as char];
    if n < 10 then d else NatToDecimal(n / 10) + d
  }

  /** The value of a numeral. */
  function ParseDecimal(s: string): nat
    requires AllDigits(s)
  {
    if s == [] then 0 else 10 * ParseDecimal(s[..|s| - 1]) + (s[|s| - 1] - '0') as nat
  }

  lemma {:induction false} DecimalRoundTrip(n: nat)
    ensures ParseDecimal(NatToDecimal(n)) == n
  {
    if n >= 10 {
      DecimalRoundTrip(n / 10);
      var s := NatToDecimal(n);
      assert s[..|s| - 1] == NatToDecimal(n / 10);
    }
  }

  /** The length of the run of digits at the front of `s`. */
  function DigitPrefixLen(s: string): (k: nat)
    ensures k <= |s| && AllDigits(s[..k])
    ensures k < |s| ==> !IsDigit(s[k])
  {
    if s == [] || !IsDigit(s[0]) then 0 else 1 + DigitPrefixLen(s[1..])
  }

  lemma {:induction false} DigitPrefixOf(d: string, t: string)
    requires AllDigits(d)
    requires t != [] && !IsDigit(t[0])
    ensures DigitPrefixLen(d + t) == |d|
  {
    if d != [] {
      assert (d + t)[1..] == d[1..] + t;
      DigitPrefixOf(d[1..], t);
    }
  }

  // ---------------------------------------------------------------------------
  // The countdown text and its reading

  /** One part of the countdown: a number and its unit letter. */
  function Part(n: nat, unit: char): string { NatToDecimal(n) + [unit] }

  /** The countdown text for a split duration: leading zero parts are dropped. */
  function CountdownText(h: nat, m: nat, s: nat): string
  {
    if h > 0 then Part(h, 'h') + " " + Part(m, 'm') + " " + Part(s, 's')
    else if m > 0 then Part(m, 'm') + " " + Part(s, 's')
    else Part(s, 's')
  }

  /** The text starts with a digit and names exactly the non-zero leading parts. */
  lemma CountdownLetters(h: nat, m: nat, s: nat)
    ensures var r := CountdownText(h, m, s);
      && |r| > 0 && IsDigit(r[0])
      && ('h' in r <==> h > 0)
      && ('m' in r <==> h > 0 || m > 0)
  {
    PartLetters(h, 'h');
    PartLetters(m, 'm');
    PartLetters(s, 's');
  }

  /** `formatTimeRemaining`. */
  function FormatTimeRemaining(ms: int): (r: string)
    ensures r == "Ended" <==> ms <= 0
    ensures ms > 0 ==> ('h' in r <==> ms >= MS_PER_HOUR)
    ensures ms > 0 ==> ('m' in r <==> ms >= MS_PER_MINUTE)
  {
    if ms <= 0 then "Ended"
    else
      SplitBounds(ms);
      CountdownLetters(Hours(ms), Minutes(ms), Seconds(ms));
      CountdownText(Hours(ms), Minutes(ms), Seconds(ms))
  }

  lemma PartLetters(n: nat, unit: char)
    ensures IsDigit(Part(n, unit)[0])
    ensures forall c :: c in Part(n, unit) && !IsDigit(c) ==> c == unit
  {
    var p := Part(n, unit);
    assert forall i :: 0 <= i < |p| - 1 ==> p[i] == NatToDecimal(n)[i];
  }

  /** Read `N<u>` parts separated by single spaces; `None` for anything else. */
  function ParseParts(s: string): Option<seq<(nat, char)>>
    decreases |s|
  {
    var k := DigitPrefixLen(s);
    if k == 0 || k == |s| then None
    else
      var part := (ParseDecimal(s[..k]), s[k]);
      if k + 1 == |s| then Some([part])
      else if s[k + 1] != ' ' then None
      else match ParseParts(s[k + 2..])
        case None => None
        case Some(rest) => Some([part] + rest)
  }

  /** Hours, minutes and seconds written by the countdown text; `None` for "Ended". */
  function ParseTimeRemaining(s: string): Option<(nat, nat, nat)>
  {
    match ParseParts(s)
    case None => None
    case Some(ps) =>
      if |ps| == 3 && ps[0].1 == 'h' && ps[1].1 == 'm' && ps[2].1 == 's' then Some((ps[0].0, ps[1].0, ps[2].0))
      else if |ps| == 2 && ps[0].1 == 'm' && ps[1].1 == 's' then Some((0, ps[0].0, ps[1].0))
      else if |ps| == 1 && ps[0].1 == 's' then Some((0, 0, ps[0].0))
      else None
  }

  lemma ParseLastPart(n: nat, unit: char)
    requires !IsDigit(unit)
    ensures ParseParts(Part(n, unit)) == Some([(n, unit)])
  {
    var d := NatToDecimal(n);
    DigitPrefixOf(d, [unit]);
    assert Part(n, unit)[..|d|] == d;
    DecimalRoundTrip(n);
  }

  lemma ParseNextPart(n: nat, unit: char, rest: string)
    requires !IsDigit(unit) && ParseParts(rest).Some?
    ensures ParseParts(Part(n, unit) + " " + rest) == Some([(n, unit)] + ParseParts(rest).value)
  {
    var d := NatToDecimal(n);
    var tail := [unit] + " " + rest;
    var s := d + tail;
    assert Part(n, unit) + " " + rest == s;
    DigitPrefixOf(d, tail);
    var k := |d|;
    assert s[..k] == d;
    assert s[k] == unit && s[k + 1] == ' ';
    assert s[k + 2..] == rest;
    DecimalRoundTrip(n);
    assert ParseParts(s) == Some([(ParseDecimal(s[..k]), s[k])] + ParseParts(rest).value);
  }

  lemma ParseMinutesSeconds(m: nat, sec: nat)
    ensures ParseParts(Part(m, 'm') + " " + Part(sec, 's')) == Some([(m, 'm'), (sec, 's')])
  {
    ParseLastPart(sec, 's');
    ParseNextPart(m, 'm', Part(sec, 's'));
    assert [(m, 'm')] + [(sec, 's')] == [(m, 'm'), (sec, 's')];
  }

  lemma ParseTwoParts(m: nat, sec: nat)
    requires m > 0
    ensures ParseTimeRemaining(CountdownText(0, m, sec)) == Some((0, m, sec))
  {
    assert CountdownText(0, m, sec) == Part(m, 'm') + " " + Part(sec, 's');
    ParseMinutesSeconds(m, sec);
  }

  lemma ParseHoursMinutesSeconds(h: nat, m: nat, sec: nat)
    ensures ParseParts(Part(h, 'h') + " " + (Part(m, 'm') + " " + Part(sec, 's')))
         == Some([(h, 'h'), (m, 'm'), (sec, 's')])
  {
    ParseMinutesSeconds(m, sec);
    ParseNextPart(h, 'h', Part(m, 'm') + " " + Part(sec, 's'));
    assert [(h, 'h')] + [(m, 'm'), (sec, 's')] == [(h, 'h'), (m, 'm'), (sec, 's')];
  }

  lemma ParseThreeParts(h: nat, m: nat, sec: nat)
    requires h > 0
    ensures ParseTimeRemaining(CountdownText(h, m, sec)) == Some((h, m, sec))
  {
    assert CountdownText(h, m, sec) == Part(h, 'h') + " " + (Part(m, 'm') + " " + Part(sec, 's'));
    ParseHoursMinutesSeconds(h, m, sec);
  }

  lemma ParseOnePart(sec: nat)
    ensures ParseTimeRemaining(CountdownText(0, 0, sec)) == Some((0, 0, sec))
  {
    ParseLastPart(sec, 's');
  }

  /** The countdown text reads back as the parts it was written from. */
  lemma ParseCountdown(h: nat, m: nat, sec: nat)
    ensures ParseTimeRemaining(CountdownText(h, m, sec)) == Some((h, m, sec))
  {
    if h > 0 {
      ParseThreeParts(h, m, sec);
    } else if m > 0 {
      ParseTwoParts(m, sec);
    } else {
      ParseOnePart(sec);
    }
  }

  /** The text names exactly the parts the duration splits into, and "Ended" names none. */
  lemma FormatRoundTrip(ms: int)
    ensures ms <= 0 ==> ParseTimeRemaining(FormatTimeRemaining(ms)) == None
    ensures ms > 0 ==> ParseTimeRemaining(FormatTimeRemaining(ms)) == Some((Hours(ms), Minutes(ms), Seconds(ms)))
  {
    if ms <= 0 {
      assert DigitPrefixLen("Ended") == 0;
    } else {
      ParseCountdown(Hours(ms), Minutes(ms), Seconds(ms));
    }
  }
}
