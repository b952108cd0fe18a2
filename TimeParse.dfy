/**
 * `parse_time_to_seconds`: the encoder's progress time stamp, either plain
 * seconds or `HH:MM:SS.ms`, as a number of seconds.
 *
 * Rust's `str::parse::<f64>` is left abstract as a parameter `parse`.
 */
module TimeParse {
  import opened Wrappers
  import opened Text

  /** Rust's `str::parse::<f64>`: the number a text denotes, or None when it is not a number. */
  type NumberParse = string -> Option<real>

  /** The number a field denotes, with 0 for a field that is not a number. */
  function ParseOrZero(text: string, parse: NumberParse): (x: real)
    ensures parse(text).Some? ==> x == parse(text).value
    ensures parse(text).None? ==> x == 0.0
  {
    parse(text).UnwrapOr(0.0)
  }

  /** Seconds denoted by a time stamp; anything that is neither one field nor three gives 0. */
  function ParseTimeToSeconds(timeStr: string, parse: NumberParse): (seconds: real)
    ensures Count(timeStr, ':') != 0 && Count(timeStr, ':') != 2 ==> seconds == 0.0
  {
    var parts := Split(timeStr, ':');
    if |parts| == 1 then ParseOrZero(timeStr, parse)
    else if |parts| == 3 then
      ParseOrZero(parts[0], parse) * 3600.0 + ParseOrZero(parts[1], parse) * 60.0 + ParseOrZero(parts[2], parse)
    else 0.0
  }

  /** A stamp without `:` is plain seconds: the parsed number, or 0 when it does not parse. */
  lemma PlainSeconds(timeStr: string, parse: NumberParse)
    requires ':' !in timeStr
    ensures parse(timeStr).Some? ==> ParseTimeToSeconds(timeStr, parse) == parse(timeStr).value
    ensures parse(timeStr).None? ==> ParseTimeToSeconds(timeStr, parse) == 0.0
  {
    SplitCount(timeStr, ':');
  }

  /**
   * A stamp `h:m:s` of three colon-free fields is h hours, m minutes and s
   * seconds, with a field that does not parse counting as 0.
   */
  lemma ClockTime(h: string, m: string, s: string, parse: NumberParse)
    requires ':' !in h && ':' !in m && ':' !in s
    ensures ParseTimeToSeconds(h + ":" + m + ":" + s, parse)
            == ParseOrZero(h, parse) * 3600.0 + ParseOrZero(m, parse) * 60.0 + ParseOrZero(s, parse)
  {
    var fields := [h, m, s];
    assert Join(fields, [':']) == h + ":" + m + ":" + s by {
      assert Join(fields[2..], [':']) == s;
      assert fields[1..][1..] == fields[2..];
    }
    SplitJoin(fields, ':');
  }
}
