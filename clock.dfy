/** Instants, and the second-precision text form ("2006-01-02T15:04:05Z",
    the layout of section 5.6 of RFC 3339 without fractional seconds) in which
    the local backend stores a memory's timestamps. */
module Clock {

  /** A UTC instant: nanoseconds since 1970-01-01T00:00:00Z (`time.Now()` is a parameter). */
  type Instant = int

  const NanosPerSecond: int := 1_000_000_000
  const NanosPerHour: int := 3600 * NanosPerSecond

  /** Go's zero `time.Time`: 0001-01-01T00:00:00Z. */
  const ZeroTime: Instant := -62135596800 * NanosPerSecond

  /** 0000-01-01T00:00:00Z and 10000-01-01T00:00:00Z, in seconds: the years
      whose four-digit form the layout can parse back. */
  const FirstFormattableSecond: int := -62167219200
  const EndFormattableSecond: int := 253402300800

  /** A timestamp as written to meta.json: its second count when the year
      fits four digits, otherwise text that the parser rejects. */
  datatype StampText = Seconds(secs: int) | Unparsable

  /** `t.Format("2006-01-02T15:04:05Z")`: drops the nanoseconds (rounding
      toward the past). */
  function FormatTime(t: Instant): (r: StampText)
    ensures r.Seconds? ==> r.secs * NanosPerSecond <= t < (r.secs + 1) * NanosPerSecond
  {
    var secs := t / NanosPerSecond;
    if FirstFormattableSecond <= secs < EndFormattableSecond then Seconds(secs) else Unparsable
  }

  /** `parseTime` with its error discarded, as ReadMemory does: an
      unparsable stamp becomes the zero time. */
  function ParseTimeOrZero(s: StampText): (t: Instant)
    ensures s.Unparsable? ==> t == ZeroTime
    ensures s.Seconds? ==> t % NanosPerSecond == 0
  {
    match s
    case Seconds(secs) => secs * NanosPerSecond
    case Unparsable => ZeroTime
  }

  predicate Formattable(t: Instant)
  {
    FirstFormattableSecond * NanosPerSecond <= t < EndFormattableSecond * NanosPerSecond
  }

  /** `t` cut down to its whole second. */
  function TruncateToSecond(t: Instant): (r: Instant)
    ensures r <= t < r + NanosPerSecond && r % NanosPerSecond == 0
  {
    t - t % NanosPerSecond
  }

  /** Writing a timestamp and reading it back yields it truncated to the
      second when its year has four digits, and the zero time otherwise. */
  lemma StampRoundTrip(t: Instant)
    ensures Formattable(t) ==> ParseTimeOrZero(FormatTime(t)) == TruncateToSecond(t)
    ensures !Formattable(t) ==> ParseTimeOrZero(FormatTime(t)) == ZeroTime
  {
    var secs := t / NanosPerSecond;
    assert t == secs * NanosPerSecond + t % NanosPerSecond;
    if FirstFormattableSecond <= secs < EndFormattableSecond {
      assert Formattable(t);
    } else if secs < FirstFormattableSecond {
      assert secs * NanosPerSecond <= (FirstFormattableSecond - 1) * NanosPerSecond;
    } else {
      assert EndFormattableSecond * NanosPerSecond <= secs * NanosPerSecond;
    }
  }

  /** A stamp that went through one round trip survives another unchanged:
      a whole second stays put, and so does the zero time. */
  lemma StampRoundTripStable(t: Instant)
    ensures ParseTimeOrZero(FormatTime(ParseTimeOrZero(FormatTime(t)))) == ParseTimeOrZero(FormatTime(t))
  {
    StampRoundTrip(t);
    if Formattable(t) {
      var u := TruncateToSecond(t);
      assert Formattable(u);
      StampRoundTrip(u);
    } else {
      StampRoundTrip(ZeroTime);
    }
  }
}
