/** The duration string of the analyze response: total seconds split by
    two `divmod` calls and printed as H:MM:SS when there is at least one
    hour, M:SS otherwise. */
module Duration {
  import opened Wrappers
  import opened Text

  datatype Clock = Clock(hours: nat, minutes: nat, seconds: nat)

  /** `m, s = divmod(total, 60); h, m = divmod(m, 60)`. */
  function Split(total: nat): (c: Clock)
    ensures c.hours * 3600 + c.minutes * 60 + c.seconds == total
    ensures c.minutes < 60 && c.seconds < 60
  {
    var m, s := total / 60, total % 60;
    Clock(m / 60, m % 60, s)
  }

  /** The decomposition is the only one with minutes and seconds below 60. */
  lemma SplitUnique(total: nat, c: Clock)
    requires c.hours * 3600 + c.minutes * 60 + c.seconds == total
    requires c.minutes < 60 && c.seconds < 60
    ensures c == Split(total)
  {
    var m := c.hours * 60 + c.minutes;
    assert total == m * 60 + c.seconds;
    assert total / 60 == m && total % 60 == c.seconds;
  }

  /** `f'{h}:{m:02d}:{s:02d}' if h > 0 else f'{m}:{s:02d}'`. */
  function Format(total: nat): string
  {
    var c := Split(total);
    if c.hours > 0 then Show(c.hours) + ":" + ZeroPad2(c.minutes) + ":" + ZeroPad2(c.seconds)
    else Show(c.minutes) + ":" + ZeroPad2(c.seconds)
  }

  /** Reads "H:MM:SS" or "M:SS" back into seconds: the inverse of Format. */
  function ParseClock(text: string): Option<nat>
  {
    var fields := SplitOn(text, ':');
    if |fields| == 3 then
      match (Parse(fields[0]), Parse(fields[1]), Parse(fields[2]))
      case (Some(h), Some(m), Some(s)) => Some(h * 3600 + m * 60 + s)
      case _ => None
    else if |fields| == 2 then
      match (Parse(fields[0]), Parse(fields[1]))
      case (Some(m), Some(s)) => Some(m * 60 + s)
      case _ => None
    else None
  }

  /** The long form splits into its three printed fields. */
  lemma LongFields(h: nat, m: nat, s: nat)
    ensures SplitOn(Show(h) + ":" + ZeroPad2(m) + ":" + ZeroPad2(s), ':') == [Show(h), ZeroPad2(m), ZeroPad2(s)]
  {
    var hh, mm, ss := Show(h), ZeroPad2(m), ZeroPad2(s);
    assert hh + ":" + mm + ":" + ss == hh + [':'] + (mm + [':'] + ss);
    SplitOnNone(ss, ':');
    SplitOnFirst(mm, ':', ss);
    SplitOnFirst(hh, ':', mm + [':'] + ss);
  }

  /** The short form splits into its two printed fields. */
  lemma ShortFields(m: nat, s: nat)
    ensures SplitOn(Show(m) + ":" + ZeroPad2(s), ':') == [Show(m), ZeroPad2(s)]
  {
    var mm, ss := Show(m), ZeroPad2(s);
    assert mm + ":" + ss == mm + [':'] + ss;
    SplitOnNone(ss, ':');
    SplitOnFirst(mm, ':', ss);
  }

  /** The fields of the duration string: three when there is at least one
      hour, two otherwise; the last is always two digits. */
  lemma FormatFields(total: nat)
    ensures var fields := SplitOn(Format(total), ':');
      && |fields| == (if total >= 3600 then 3 else 2)
      && |fields[|fields| - 1]| == 2
      && (|fields[0]| == 1 || fields[0][0] != '0')
      && Parse(fields[|fields| - 1]) == Some(total % 60)
      && (total >= 3600 ==> Parse(fields[0]) == Some(total / 3600) && |fields[1]| == 2)
      && (total < 3600 ==> Parse(fields[0]) == Some(total / 60))
  {
    var c := Split(total);
    SplitUnique(total, c);
    ParseZeroPad2(c.seconds);
    if c.hours > 0 {
      LongFields(c.hours, c.minutes, c.seconds);
      ParseShow(c.hours);
    } else {
      ShortFields(c.minutes, c.seconds);
      ParseShow(c.minutes);
    }
  }

  /** Round trip: the printed duration reads back as the same number of seconds. */
  lemma ParseFormat(total: nat)
    ensures ParseClock(Format(total)) == Some(total)
  {
    var c := Split(total);
    ParseZeroPad2(c.seconds);
    ParseZeroPad2(c.minutes);
    if c.hours > 0 {
      LongFields(c.hours, c.minutes, c.seconds);
      ParseShow(c.hours);
    } else {
      ShortFields(c.minutes, c.seconds);
      ParseShow(c.minutes);
    }
  }

  /** Two different durations never print the same. */
  lemma FormatInjective(a: nat, b: nat)
    ensures Format(a) == Format(b) ==> a == b
  {
    ParseFormat(a);
    ParseFormat(b);
  }

  /** The worked examples: an hour, a minute and a second; under a minute;
      and the default duration 0 when the extractor reports none. */
  lemma Examples()
    ensures Format(3661) == "1:01:01"
    ensures Format(59) == "0:59"
    ensures Format(0) == "0:00"
  {
    assert Split(3661) == Clock(1, 1, 1);
    assert Split(59) == Clock(0, 0, 59);
    assert Split(0) == Clock(0, 0, 0);
  }
}
