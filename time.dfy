/** The fixed menu of mute and rollback periods offered to moderators. */
module TimeTable {
  import opened Wrappers
  import opened Text
  import Tables

  datatype Time =
    | FiveMinutes | FifteenMinutes | ThirtyMinutes
    | OneHour | TwoHours | SixHours | TwelveHours
    | OneDay | ThreeDays | OneWeek | TwoWeeks | OneMonth
    | Permanent

  /** The text a moderator types for each period. */
  function Duration(t: Time): string {
    match t
    case FiveMinutes => "5m"
    case FifteenMinutes => "15m"
    case ThirtyMinutes => "30m"
    case OneHour => "1h"
    case TwoHours => "2h"
    case SixHours => "6h"
    case TwelveHours => "12h"
    case OneDay => "1d"
    case ThreeDays => "3d"
    case OneWeek => "7d"
    case TwoWeeks => "14d"
    case OneMonth => "30d"
    case Permanent => "permanent"
  }

  /** The constants in declaration order (`Time.entries`). */
  const Entries: seq<Time> := [
    FiveMinutes, FifteenMinutes, ThirtyMinutes,
    OneHour, TwoHours, SixHours, TwelveHours,
    OneDay, ThreeDays, OneWeek, TwoWeeks, OneMonth,
    Permanent]

  predicate HasDuration(input: string, t: Time) { Duration(t) == input }

  /** No two periods share a text. */
  lemma DurationInjective(a: Time, b: Time)
    requires Duration(a) == Duration(b)
    ensures a == b
  {
    var s := Duration(a);
    if s == "permanent" || |s| == 2 {
      assert |Duration(b)| == |s| && Duration(b)[0] == s[0] && Duration(b)[1] == s[1];
    } else {
      assert |Duration(b)| == 3 && Duration(b)[0] == s[0] && Duration(b)[1] == s[1] && Duration(b)[2] == s[2];
    }
  }

  /** `Time.fromString`: the first entry whose text equals the input exactly (case and
      spelling included), or None. Because the texts are pairwise distinct, the answer
      is the one period with that text. */
  function FromString(input: string): (r: Option<Time>)
    ensures forall t :: r == Some(t) <==> Duration(t) == input
  {
    var r := Tables.FirstWhere(Entries, (t: Time) => HasDuration(input, t));
    forall t ensures r == Some(t) <==> Duration(t) == input {
      EntriesComplete(t);
      if r.Some? && Duration(t) == input {
        DurationInjective(t, r.value);
      }
    }
    r
  }

  /** Every constant appears in the entries, at its declaration position. */
  lemma EntriesComplete(t: Time)
    ensures Entries[Ordinal(t)] == t
  {
  }

  function Ordinal(t: Time): (i: nat)
    ensures i < |Entries|
  {
    match t
    case FiveMinutes => 0
    case FifteenMinutes => 1
    case ThirtyMinutes => 2
    case OneHour => 3
    case TwoHours => 4
    case SixHours => 5
    case TwelveHours => 6
    case OneDay => 7
    case ThreeDays => 8
    case OneWeek => 9
    case TwoWeeks => 10
    case OneMonth => 11
    case Permanent => 12
  }

  /** Amount and unit letter of a non-permanent period. */
  function Amount(t: Time): (n: nat)
    requires t != Permanent
    ensures n > 0
  {
    match t
    case FiveMinutes => 5
    case FifteenMinutes => 15
    case ThirtyMinutes => 30
    case OneHour => 1
    case TwoHours => 2
    case SixHours => 6
    case TwelveHours => 12
    case OneDay => 1
    case ThreeDays => 3
    case OneWeek => 7
    case TwoWeeks => 14
    case OneMonth => 30
  }

  function Unit(t: Time): (u: char)
    requires t != Permanent
    ensures u in "mhd"
  {
    match t
    case FiveMinutes | FifteenMinutes | ThirtyMinutes => 'm'
    case OneHour | TwoHours | SixHours | TwelveHours => 'h'
    case OneDay | ThreeDays | OneWeek | TwoWeeks | OneMonth => 'd'
  }

  /** Every period but PERMANENT is a positive decimal amount followed by one of the unit
      letters m, h or d, which is the shape both duration parsers accept. */
  lemma DurationShape(t: Time)
    requires t != Permanent
    ensures Duration(t) == NatToString(Amount(t)) + [Unit(t)]
  {
    match t
    case FiveMinutes =>
    case FifteenMinutes =>
      assert NatToString(15) == NatToString(1) + [DigitChar(5)];
    case ThirtyMinutes =>
      assert NatToString(30) == NatToString(3) + [DigitChar(0)];
    case OneHour =>
    case TwoHours =>
    case SixHours =>
    case TwelveHours =>
      assert NatToString(12) == NatToString(1) + [DigitChar(2)];
    case OneDay =>
    case ThreeDays =>
    case OneWeek =>
    case TwoWeeks =>
      assert NatToString(14) == NatToString(1) + [DigitChar(4)];
    case OneMonth =>
      assert NatToString(30) == NatToString(3) + [DigitChar(0)];
  }

  /** Matching is exact: another case, or an amount the table does not list, finds nothing. */
  lemma FromStringIsExact()
    ensures FromString("5M") == None && FromString("10m") == None && FromString("PERMANENT") == None
  {
    NoEntry("5M");
    NoEntry("10m");
    NoEntry("PERMANENT");
  }

  lemma NoEntry(s: string)
    requires s == "5M" || s == "10m" || s == "PERMANENT"
    ensures FromString(s) == None
  {
    forall t ensures Duration(t) != s {
      NotListed(t, s);
    }
  }

  lemma NotListed(t: Time, s: string)
    requires s == "5M" || s == "10m" || s == "PERMANENT"
    ensures Duration(t) != s
  {
    match t
    case FiveMinutes =>
    case FifteenMinutes =>
      assert Duration(t)[1] != s[1];
    case ThirtyMinutes =>
    case OneHour =>
    case TwoHours =>
    case SixHours =>
    case TwelveHours =>
    case OneDay =>
    case ThreeDays =>
    case OneWeek =>
    case TwoWeeks =>
    case OneMonth =>
    case Permanent =>
      assert Duration(t)[0] != s[0];
  }
}
