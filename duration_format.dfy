/** `formatDuration`, which the mute command and the chat listener each define with the same
    body: a length of time in milliseconds as "D days H hours M minutes S seconds", leaving out
    every part that is not positive. The parts come from `TimeUnit.MILLISECONDS.toX`, that is
    Java's `long` division, which truncates toward zero, and `%`, which keeps the sign of
    the dividend. */
module DurationFormat {
  import opened Text

  const MillisPerSecond: int := 1000
  const MillisPerMinute: int := 60_000
  const MillisPerHour: int := 3_600_000
  const MillisPerDay: int := 86_400_000

  /** The quotient of a non-negative number by a positive one, as repeated subtraction. */
  function Quotient(a: nat, b: nat): nat
    requires b > 0
    decreases a
  {
    if a < b then 0 else 1 + Quotient(a - b, b)
  }

  /** Java's `/` on `long`: the quotient truncated toward zero. */
  function TruncDiv(a: int, b: int): int
    requires b > 0
  {
    if a >= 0 then Quotient(a, b) else -(Quotient(-a, b) as int)
  }

  /** Java's `%` on `long`: the remainder with the sign of the dividend. */
  function TruncMod(a: int, b: int): int
    requires b > 0
  {
    a - b * TruncDiv(a, b)
  }

  lemma {:induction false} QuotientIsDiv(a: nat, b: nat)
    requires b > 0
    ensures Quotient(a, b) == a / b
    decreases a
  {
    if a >= b {
      QuotientIsDiv(a - b, b);
      DivModUnique(a, b, 1 + (a - b) / b, (a - b) % b);
    } else {
      DivModUnique(a, b, 0, a);
    }
  }

  /** The truncated quotient is the floor quotient for a non-negative dividend and never
      positive for a negative one. */
  lemma TruncDivSign(a: int, b: int)
    requires b > 0
    ensures a >= 0 ==> TruncDiv(a, b) == a / b
    ensures a < 0 ==> TruncDiv(a, b) <= 0
  {
    if a >= 0 {
      QuotientIsDiv(a, b);
    }
  }

  /** The truncated remainder is the floor remainder for a non-negative dividend and never
      positive for a negative one. */
  lemma TruncModSign(a: int, b: int)
    requires b > 0
    ensures a >= 0 ==> TruncMod(a, b) == a % b
    ensures a < 0 ==> TruncMod(a, b) <= 0
  {
    TruncDivSign(a, b);
    if a < 0 {
      var q := Quotient(-a, b);
      QuotientIsDiv(-a, b);
      assert b * q <= -a;
      assert TruncMod(a, b) == a + b * q;
    }
  }

  /** The parts of a non-negative length, in floor arithmetic. */
  lemma PartsArithmetic(d: int)
    requires d >= 0
    ensures Days(d) == d / MillisPerDay
    ensures Hours(d) == d / MillisPerHour % 24
    ensures Minutes(d) == d / MillisPerMinute % 60
    ensures Seconds(d) == d / MillisPerSecond % 60
  {
    TruncDivSign(d, MillisPerDay);
    TruncDivSign(d, MillisPerHour);
    TruncDivSign(d, MillisPerMinute);
    TruncDivSign(d, MillisPerSecond);
    TruncModSign(d / MillisPerHour, 24);
    TruncModSign(d / MillisPerMinute, 60);
    TruncModSign(d / MillisPerSecond, 60);
  }

  type Positive = n: int | n > 0 witness 1

  /** One of the four `TimeUnit.MILLISECONDS.toX` conversions: the whole count of a unit,
      or that count taken modulo the next unit's size. */
  datatype Conversion =
    | Whole(millis: Positive, word: string)
    | Within(millis: Positive, cycle: Positive, word: string)

  function Value(d: int, c: Conversion): int {
    match c
    case Whole(m, _) => TruncDiv(d, m)
    case Within(m, n, _) => TruncMod(TruncDiv(d, m), n)
  }

  const DaysConversion: Conversion := Whole(MillisPerDay, "days")
  const HoursConversion: Conversion := Within(MillisPerHour, 24, "hours")
  const MinutesConversion: Conversion := Within(MillisPerMinute, 60, "minutes")
  const SecondsConversion: Conversion := Within(MillisPerSecond, 60, "seconds")

  /** The conversions in the order the text names them. */
  const Conversions: seq<Conversion> := [DaysConversion, HoursConversion, MinutesConversion, SecondsConversion]

  function Days(d: int): int { Value(d, DaysConversion) }
  function Hours(d: int): int { Value(d, HoursConversion) }
  function Minutes(d: int): int { Value(d, MinutesConversion) }
  function Seconds(d: int): int { Value(d, SecondsConversion) }

  /** `if (n > 0) append("$n word<tail>")` */
  function Piece(n: int, word: string, tail: string): string {
    if n > 0 then NatToString(n) + " " + word + tail else ""
  }

  /** The appends of `buildString`, one per conversion; every piece but the last ends in a
      space. */
  function Pieces(d: int, cs: seq<Conversion>): string
    decreases |cs|
  {
    if cs == [] then ""
    else Piece(Value(d, cs[0]), cs[0].word, if |cs| == 1 then "" else " ") + Pieces(d, cs[1..])
  }

  /** The text `buildString` assembles, before the trim. */
  function Built(d: int): string {
    Pieces(d, Conversions)
  }

  /** `formatDuration(duration)` */
  function FormatDuration(d: int): string {
    Trim(Built(d))
  }

  /** The text assembled is the four conditional appends of the source, in order. */
  lemma BuiltPieces(d: int)
    ensures Built(d) == Piece(Days(d), "days", " ") + Piece(Hours(d), "hours", " ") +
                        Piece(Minutes(d), "minutes", " ") + Piece(Seconds(d), "seconds", "")
  {
    var cs := Conversions;
    var cs1, cs2, cs3 := cs[1..], cs[2..], cs[3..];
    assert cs[0] == DaysConversion && cs1 == [HoursConversion, MinutesConversion, SecondsConversion];
    assert cs1[0] == HoursConversion && cs1[1..] == cs2 == [MinutesConversion, SecondsConversion];
    assert cs2[0] == MinutesConversion && cs2[1..] == cs3 == [SecondsConversion];
    assert cs3[0] == SecondsConversion && cs3[1..] == [];
    var a, b, c, e := Piece(Days(d), "days", " "), Piece(Hours(d), "hours", " "),
                      Piece(Minutes(d), "minutes", " "), Piece(Seconds(d), "seconds", "");
    assert Pieces(d, cs3) == e + "" == e;
    assert Pieces(d, cs2) == c + e;
    assert Pieces(d, cs1) == b + (c + e);
    assert Built(d) == a + (b + (c + e));
    Regroup(a, b, c, e);
  }

  /** Four sequences glued right to left are the same glued left to right. */
  lemma Regroup<T>(a: seq<T>, b: seq<T>, c: seq<T>, e: seq<T>)
    ensures a + (b + (c + e)) == a + b + c + e
  {
    assert b + (c + e) == (b + c) + e;
    assert a + ((b + c) + e) == (a + (b + c)) + e;
    assert a + (b + c) == (a + b) + c;
  }

  // ----- the reference reading: the positive parts, separated by single spaces -----

  function Part(n: int, word: string): seq<string> {
    if n > 0 then [NatToString(n) + " " + word] else []
  }

  function PartsOf(d: int, cs: seq<Conversion>): seq<string>
    decreases |cs|
  {
    if cs == [] then [] else Part(Value(d, cs[0]), cs[0].word) + PartsOf(d, cs[1..])
  }

  /** The positive parts among days, hours, minutes and seconds. */
  function Parts(d: int): seq<string> {
    PartsOf(d, Conversions)
  }

  /** The parts are those of the days, the hours, the minutes and the seconds, in order. */
  lemma PartsSpelled(d: int)
    ensures Parts(d) == Part(Days(d), "days") + Part(Hours(d), "hours") + Part(Minutes(d), "minutes") + Part(Seconds(d), "seconds")
  {
    var cs := Conversions;
    var cs1, cs2, cs3 := cs[1..], cs[2..], cs[3..];
    assert cs[0] == DaysConversion && cs1 == [HoursConversion, MinutesConversion, SecondsConversion];
    assert cs1[0] == HoursConversion && cs1[1..] == cs2 == [MinutesConversion, SecondsConversion];
    assert cs2[0] == MinutesConversion && cs2[1..] == cs3 == [SecondsConversion];
    assert cs3[0] == SecondsConversion && cs3[1..] == [];
    var a, b, c, e := Part(Days(d), "days"), Part(Hours(d), "hours"),
                      Part(Minutes(d), "minutes"), Part(Seconds(d), "seconds");
    assert PartsOf(d, cs3) == e + [] == e;
    assert PartsOf(d, cs2) == c + e;
    assert PartsOf(d, cs1) == b + (c + e);
    assert Parts(d) == a + (b + (c + e));
    Regroup(a, b, c, e);
  }

  /** A text that neither starts nor ends with whitespace. */
  predicate Tight(s: string) {
    s != [] && !IsWhitespace(s[0]) && !IsWhitespace(s[|s| - 1])
  }

  /** Each part followed by one space. */
  function Spaced(ss: seq<string>): string {
    if ss == [] then "" else ss[0] + " " + Spaced(ss[1..])
  }

  lemma {:induction false} SpacedAppend(a: seq<string>, b: seq<string>)
    ensures Spaced(a + b) == Spaced(a) + Spaced(b)
  {
    if a == [] {
      assert a + b == b;
    } else {
      assert (a + b)[1..] == a[1..] + b;
      SpacedAppend(a[1..], b);
    }
  }

  lemma {:induction false} SpacedIsJoin(ss: seq<string>)
    requires ss != []
    ensures Spaced(ss) == Join(ss, " ") + " "
  {
    if |ss| > 1 {
      SpacedIsJoin(ss[1..]);
    } else {
      assert ss[1..] == [];
    }
  }

  lemma {:induction false} JoinSnoc(ss: seq<string>, x: string, sep: string)
    requires ss != []
    ensures Join(ss + [x], sep) == Join(ss, sep) + sep + x
  {
    if |ss| > 1 {
      assert (ss + [x])[1..] == ss[1..] + [x];
      JoinSnoc(ss[1..], x, sep);
    } else {
      assert ss + [x] == [ss[0], x];
      assert [ss[0], x][1..] == [x];
    }
  }

  lemma {:induction false} JoinTight(ss: seq<string>)
    requires ss != [] && forall k :: 0 <= k < |ss| ==> Tight(ss[k])
    ensures Tight(Join(ss, " "))
  {
    if |ss| > 1 {
      JoinTight(ss[1..]);
      var rest := Join(ss[1..], " ");
      assert Join(ss, " ") == ss[0] + " " + rest;
      assert Join(ss, " ")[0] == ss[0][0];
    }
  }

  lemma TrimTight(s: string)
    requires Tight(s)
    ensures Trim(s) == s
  {
  }

  lemma TrimTightSpace(s: string)
    requires Tight(s)
    ensures Trim(s + " ") == s
  {
    var t := s + " ";
    assert t[0] == s[0];
    assert TrimStart(t) == t;
    assert IsWhitespace(t[|t| - 1]);
    assert t[..|t| - 1] == s;
    assert TrimEnd(t) == TrimEnd(s);
  }

  lemma PartTight(n: int, word: string)
    requires word != [] && !IsWhitespace(word[|word| - 1])
    ensures forall k :: 0 <= k < |Part(n, word)| ==> Tight(Part(n, word)[k])
  {
    if n > 0 {
      var s := NatToString(n) + " " + word;
      assert s[0] == NatToString(n)[0];
      assert s[|s| - 1] == word[|word| - 1];
    }
  }

  lemma PieceIsSpaced(n: int, word: string)
    ensures Piece(n, word, " ") == Spaced(Part(n, word))
  {
    if n > 0 {
      assert Part(n, word)[1..] == [];
    }
  }

  /** Trimming the spaced parts, followed by a last part or nothing, leaves the parts
      separated by single spaces. */
  lemma TrimSpaced(front: seq<string>, tail: seq<string>)
    requires forall k :: 0 <= k < |front| ==> Tight(front[k])
    requires |tail| <= 1 && forall k :: 0 <= k < |tail| ==> Tight(tail[k])
    ensures Trim(Spaced(front) + Join(tail, " ")) == Join(front + tail, " ")
  {
    if tail == [] {
      assert front + tail == front;
      assert Spaced(front) + Join(tail, " ") == Spaced(front);
      if front != [] {
        SpacedIsJoin(front);
        JoinTight(front);
        TrimTightSpace(Join(front, " "));
      }
    } else {
      var x := tail[0];
      assert tail == [x];
      if front == [] {
        assert front + tail == tail;
        assert Spaced(front) + Join(tail, " ") == x;
        TrimTight(x);
      } else {
        SpacedIsJoin(front);
        JoinSnoc(front, x, " ");
        JoinTight(front + [x]);
        TrimTight(Join(front + [x], " "));
      }
    }
  }

  /** The formatted text is the positive parts, separated by single spaces (the trim only
      ever removes the space after the last part). */
  lemma FormatDurationIsJoin(d: int)
    ensures FormatDuration(d) == Join(Parts(d), " ")
    ensures forall k :: 0 <= k < |Parts(d)| ==> Tight(Parts(d)[k])
  {
    BuiltPieces(d);
    PartsSpelled(d);
    TrimPiecesIsJoin(Days(d), Hours(d), Minutes(d), Seconds(d));
  }

  /** The four conditional appends, trimmed, are the positive parts joined by spaces. */
  lemma TrimPiecesIsJoin(days: int, hours: int, minutes: int, seconds: int)
    ensures var parts := Part(days, "days") + Part(hours, "hours") + Part(minutes, "minutes") + Part(seconds, "seconds");
            && Trim(Piece(days, "days", " ") + Piece(hours, "hours", " ") +
                    Piece(minutes, "minutes", " ") + Piece(seconds, "seconds", "")) == Join(parts, " ")
            && forall k :: 0 <= k < |parts| ==> Tight(parts[k])
  {
    var front := Part(days, "days") + Part(hours, "hours") + Part(minutes, "minutes");
    var last := Part(seconds, "seconds");
    PartTight(days, "days");
    PartTight(hours, "hours");
    PartTight(minutes, "minutes");
    PartTight(seconds, "seconds");
    PieceIsSpaced(days, "days");
    PieceIsSpaced(hours, "hours");
    PieceIsSpaced(minutes, "minutes");
    SpacedAppend(Part(days, "days"), Part(hours, "hours"));
    SpacedAppend(Part(days, "days") + Part(hours, "hours"), Part(minutes, "minutes"));
    assert Piece(seconds, "seconds", "") == Join(last, " ") by {
      if seconds > 0 {
        var x := NatToString(seconds) + " " + "seconds";
        assert x + "" == x;
      }
    }
    TrimSpaced(front, last);
  }

  // ----- arithmetic -----

  lemma DivModUnique(a: int, m: int, q: int, r: int)
    requires m > 0 && 0 <= r < m && a == m * q + r
    ensures a / m == q && a % m == r
  {
    var q0, r0 := a / m, a % m;
    assert m * (q0 - q) == r - r0;
    MulBounds(m, q0 - q);
  }

  lemma MulBounds(m: int, k: int)
    requires m > 0
    ensures k >= 1 ==> m * k >= m
    ensures k <= -1 ==> m * k <= -m
  {
    if k >= 1 {
      MulLeq(m, 1, k);
    }
    if k <= -1 {
      MulLeq(m, k, -1);
    }
  }

  /** Dividing by b and then by c is dividing by b * c. */
  lemma DivDiv(a: int, b: int, c: int)
    requires a >= 0 && b > 0 && c > 0
    ensures a / b / c == a / (b * c)
  {
    var q, r := a / b, a % b;
    var q2, r2 := q / c, q % c;
    assert a == b * q + r;
    assert q == c * q2 + r2;
    assert a == (b * c) * q2 + (b * r2 + r) by {
      assert b * q == b * (c * q2) + b * r2;
      assert b * (c * q2) == (b * c) * q2;
    }
    assert b * r2 <= b * (c - 1) by { MulLeq(b, r2, c - 1); }
    assert b * (c - 1) == b * c - b;
    MulNonneg(b, r2);
    DivModUnique(a, b * c, q2, b * r2 + r);
  }

  lemma MulLeq(b: int, x: int, y: int)
    requires b > 0 && x <= y
    ensures b * x <= b * y
  {
  }

  lemma MulNonneg(b: int, x: int)
    requires b >= 0 && x >= 0
    ensures b * x >= 0
  {
  }

  /** Every part is 0 or negative for a negative length, and 0 below one second. */
  lemma PartsBelowOneSecond(d: int)
    requires d < MillisPerSecond
    ensures Parts(d) == []
  {
    PartsSpelled(d);
    if d >= 0 {
      PartsArithmetic(d);
      DivModUnique(d, MillisPerDay, 0, d);
      DivModUnique(d, MillisPerHour, 0, d);
      DivModUnique(d, MillisPerMinute, 0, d);
      DivModUnique(d, MillisPerSecond, 0, d);
    } else {
      TruncDivSign(d, MillisPerDay);
      TruncDivSign(d, MillisPerHour);
      TruncDivSign(d, MillisPerMinute);
      TruncDivSign(d, MillisPerSecond);
      TruncModSign(TruncDiv(d, MillisPerHour), 24);
      TruncModSign(TruncDiv(d, MillisPerMinute), 60);
      TruncModSign(TruncDiv(d, MillisPerSecond), 60);
    }
  }

  /** From one second on, some part is positive. */
  lemma PartsFromOneSecond(d: int)
    requires d >= MillisPerSecond
    ensures Parts(d) != []
  {
    PartsSpelled(d);
    PartsArithmetic(d);
    var s := d / 1000;
    DivDiv(d, 1000, 60);
    DivDiv(d, 60_000, 60);
    DivDiv(d, 3_600_000, 24);
    var m := d / 60_000;
    var h := d / 3_600_000;
    assert m == s / 60 && h == m / 60 && d / 86_400_000 == h / 24;
    if Seconds(d) <= 0 && Minutes(d) <= 0 && Hours(d) <= 0 {
      assert s % 60 == 0 && s >= 1;
      assert m >= 1;
      assert m % 60 == 0;
      assert h >= 1;
      assert h % 24 == 0;
      assert Days(d) >= 1;
    }
  }

  /** The text is empty exactly when the length is under one second. */
  lemma FormatDurationEmpty(d: int)
    ensures FormatDuration(d) == "" <==> d < MillisPerSecond
  {
    FormatDurationIsJoin(d);
    if d < MillisPerSecond {
      PartsBelowOneSecond(d);
    } else {
      PartsFromOneSecond(d);
      JoinTight(Parts(d));
    }
  }

  /** A whole number of minutes under an hour reads as just the minutes. */
  lemma FormatWholeMinutes(n: nat)
    requires 0 < n < 60
    ensures FormatDuration(n * MillisPerMinute) == NatToString(n) + " minutes"
  {
    PartsSpelled(n * MillisPerMinute);
    var d := n * MillisPerMinute;
    PartsArithmetic(d);
    DivModUnique(d, 60_000, n, 0);
    DivModUnique(d, 1000, 60 * n, 0);
    DivModUnique(60 * n, 60, n, 0);
    DivModUnique(d, 3_600_000, 0, d);
    DivModUnique(d, 86_400_000, 0, d);
    DivModUnique(n, 60, 0, n);
    assert Days(d) == 0 && Hours(d) == 0 && Minutes(d) == n && Seconds(d) == 0;
    assert NatToString(n) + " " + "minutes" == NatToString(n) + " minutes";
    assert Parts(d) == [NatToString(n) + " minutes"];
    FormatDurationIsJoin(d);
  }

  /** A whole number of hours under a day reads as just the hours. */
  lemma FormatWholeHours(n: nat)
    requires 0 < n < 24
    ensures FormatDuration(n * MillisPerHour) == NatToString(n) + " hours"
  {
    PartsSpelled(n * MillisPerHour);
    var d := n * MillisPerHour;
    PartsArithmetic(d);
    DivModUnique(d, 3_600_000, n, 0);
    DivModUnique(d, 60_000, 60 * n, 0);
    DivModUnique(60 * n, 60, n, 0);
    DivModUnique(d, 1000, 3600 * n, 0);
    DivModUnique(3600 * n, 60, 60 * n, 0);
    DivModUnique(d, 86_400_000, 0, d);
    DivModUnique(n, 24, 0, n);
    assert Days(d) == 0 && Hours(d) == n && Minutes(d) == 0 && Seconds(d) == 0;
    assert NatToString(n) + " " + "hours" == NatToString(n) + " hours";
    assert Parts(d) == [NatToString(n) + " hours"];
    FormatDurationIsJoin(d);
  }

  /** A whole number of days reads as just the days. */
  lemma FormatWholeDays(n: nat)
    requires 0 < n
    ensures FormatDuration(n * MillisPerDay) == NatToString(n) + " days"
  {
    PartsSpelled(n * MillisPerDay);
    var d := n * MillisPerDay;
    PartsArithmetic(d);
    DivModUnique(d, 86_400_000, n, 0);
    DivModUnique(d, 3_600_000, 24 * n, 0);
    DivModUnique(24 * n, 24, n, 0);
    DivModUnique(d, 60_000, 1440 * n, 0);
    DivModUnique(1440 * n, 60, 24 * n, 0);
    DivModUnique(d, 1000, 86400 * n, 0);
    DivModUnique(86400 * n, 60, 1440 * n, 0);
    assert Days(d) == n && Hours(d) == 0 && Minutes(d) == 0 && Seconds(d) == 0;
    assert NatToString(n) + " " + "days" == NatToString(n) + " days";
    assert Parts(d) == [NatToString(n) + " days"];
    FormatDurationIsJoin(d);
  }

  lemma MinutesLessASecondParts(n: nat, elapsed: int)
    requires 2 <= n < 60 && 1 <= elapsed <= MillisPerSecond
    ensures var d := n * MillisPerMinute - elapsed;
      Days(d) == 0 && Hours(d) == 0 && Minutes(d) == n - 1 && Seconds(d) == 59
  {
    var d := n * MillisPerMinute - elapsed;
    PartsArithmetic(d);
    DivModUnique(d, 60_000, n - 1, 60_000 - elapsed);
    DivModUnique(d, 1000, 60 * n - 1, 1000 - elapsed);
    DivModUnique(60 * n - 1, 60, n - 1, 59);
    DivModUnique(d, 3_600_000, 0, d);
    DivModUnique(d, 86_400_000, 0, d);
    DivModUnique(n - 1, 60, 0, n - 1);
  }

  /** A length of some minutes and seconds, under an hour, reads as those two parts. */
  lemma MinutesSecondsParts(d: int, m: nat, sec: nat)
    requires Days(d) == 0 && Hours(d) == 0 && Minutes(d) == m > 0 && Seconds(d) == sec > 0
    ensures FormatDuration(d) == NatToString(m) + " minutes " + NatToString(sec) + " seconds"
  {
    PartsSpelled(d);
    var mins := NatToString(m) + " " + "minutes";
    var secs := NatToString(sec) + " " + "seconds";
    assert Parts(d) == [mins, secs] by {
      assert Part(Days(d), "days") == [] && Part(Hours(d), "hours") == [];
      assert Part(Minutes(d), "minutes") == [mins] && Part(Seconds(d), "seconds") == [secs];
    }
    FormatDurationIsJoin(d);
    assert Join([mins, secs], " ") == mins + " " + secs;
    TwoPartsText(NatToString(m), NatToString(sec));
  }

  lemma TwoPartsText(a: string, b: string)
    ensures a + " " + "minutes" + " " + (b + " " + "seconds") == a + " minutes " + b + " seconds"
  {
  }

  lemma FiftyNineSecondsText(a: string)
    ensures a + " minutes " + NatToString(59) + " seconds" == a + " minutes 59 seconds"
  {
    assert NatToString(59) == "59" by {
      assert NatToString(59) == NatToString(5) + [DigitChar(9)];
    }
  }

  /** A whole number of minutes, less up to one second, loses a minute and gains 59 seconds. */
  lemma FormatMinutesLessASecond(n: nat, elapsed: int)
    requires 2 <= n < 60 && 1 <= elapsed <= MillisPerSecond
    ensures FormatDuration(n * MillisPerMinute - elapsed) == NatToString(n - 1) + " minutes 59 seconds"
  {
    var d := n * MillisPerMinute - elapsed;
    MinutesLessASecondParts(n, elapsed);
    MinutesSecondsParts(d, n - 1, 59);
    FiftyNineSecondsText(NatToString(n - 1));
  }
}
