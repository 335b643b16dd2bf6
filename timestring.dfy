/** `TimeString.Parse`: reads a duration written as segments such as
    "1d 12h 34m 20s" and returns it in milliseconds.

    `Parse` is the loop of the source; `Duration` says independently what a
    string denotes, segment by segment; `Fold` is the loop written as a
    function, which ties the two together. */
module TimeStringParser {
  import opened Common
  import opened Ascii

  /** `ArgumentException`, `FormatException("Unknown string part …")` and
      the `OverflowException` of `int.Parse`. */
  datatype ParseError = NullOrWhiteSpace | UnknownPart(part: string) | Overflow

  const IntMax: nat := 0x7fff_ffff

  const MillisecondsPerSecond: nat := 1000
  const MillisecondsPerMinute: nat := 60_000
  const MillisecondsPerHour: nat := 3_600_000
  const MillisecondsPerDay: nat := 86_400_000

  /** The alternatives of the five unit patterns, which are anchored at the
      start of the unit word and ignore case. */
  const MillisecondsWords: seq<string> := ["ms"]
  const DaysWords: seq<string> := ["days", "day", "d"]
  const HoursWords: seq<string> := ["hours", "hour", "h"]
  const MinutesWords: seq<string> := ["mins", "min", "m"]
  const SecondsWords: seq<string> := ["secs", "sec", "s"]

  predicate StartsWithIgnoreCase(u: string, word: string) {
    |word| <= |u| && ToLowerString(u[..|word|]) == word
  }

  /** Whether one of the alternatives matches at the start of `u`. */
  predicate MatchesUnit(u: string, words: seq<string>) {
    exists k :: 0 <= k < |words| && StartsWithIgnoreCase(u, words[k])
  }

  /** The five units a segment can be in. */
  datatype Unit = Millisecond | Day | Hour | Minute | Second

  /** The unit of a unit word, tried in the source's order: no unit word or
      "ms", then days, hours, minutes and seconds; `None` for a unit word no
      pattern matches. */
  function UnitOf(u: string): Option<Unit> {
    if u == [] || MatchesUnit(u, MillisecondsWords) then Some(Millisecond)
    else if MatchesUnit(u, DaysWords) then Some(Day)
    else if MatchesUnit(u, HoursWords) then Some(Hour)
    else if MatchesUnit(u, MinutesWords) then Some(Minute)
    else if MatchesUnit(u, SecondsWords) then Some(Second)
    else None
  }

  /** `TimeSpan.FromMilliseconds`, `FromDays`, `FromHours`, `FromMinutes`
      and `FromSeconds`, in milliseconds. */
  function InMilliseconds(value: int, unit: Unit): int {
    match unit
    case Millisecond => value
    case Day => value * MillisecondsPerDay
    case Hour => value * MillisecondsPerHour
    case Minute => value * MillisecondsPerMinute
    case Second => value * MillisecondsPerSecond
  }

  function DigitValue(c: char): nat {
    if IsDigit(c) then c as int - '0' as int else 0
  }

  /** The decimal number written by a run of digits, as `int.Parse` reads
      it: a leading zero does not change it. */
  function DecimalValue(d: string): (r: nat)
    ensures d != [] && d[0] == '0' ==> r == DecimalValue(d[1..])
  {
    if d == [] then 0
    else
      var init := d[..|d| - 1];
      assert init != [] ==> init[1..] == d[1..][..|d| - 2];
      10 * DecimalValue(init) + DigitValue(d[|d| - 1])
  }

  /** One segment: a number and the unit word after it. A segment with no
      digits is an unknown part; `int.Parse` overflows beyond `int.MaxValue`;
      an unknown unit word is an unknown part. */
  function Segment(number: string, unit: string): (r: Result<int, ParseError>)
    ensures IsNullOrWhiteSpace(number) ==> r == Err(UnknownPart(unit))
    ensures !IsNullOrWhiteSpace(number) && DecimalValue(number) > IntMax ==> r == Err(Overflow)
    ensures !IsNullOrWhiteSpace(number) && DecimalValue(number) <= IntMax && UnitOf(unit).None? ==>
      r == Err(UnknownPart(unit))
    ensures r.Ok? <==> !IsNullOrWhiteSpace(number) && DecimalValue(number) <= IntMax && UnitOf(unit).Some?
    ensures r.Ok? ==> r.value == InMilliseconds(DecimalValue(number), UnitOf(unit).value)
  {
    if IsNullOrWhiteSpace(number) then Err(UnknownPart(unit))
    else
      var value := DecimalValue(number);
      if value > IntMax then Err(Overflow)
      else match UnitOf(unit)
        case None => Err(UnknownPart(unit))
        case Some(kind) => Ok(InMilliseconds(value, kind))
  }

  // ------------------------------------------------------------ what a string denotes

  /** The length of the longest run of digits at the start of `t`. */
  function DigitSpan(t: string): (n: nat)
    ensures n <= |t|
    ensures forall i :: 0 <= i < n ==> IsDigit(t[i])
    ensures n < |t| ==> !IsDigit(t[n])
  {
    if t != [] && IsDigit(t[0]) then 1 + DigitSpan(t[1..]) else 0
  }

  /** The length of the longest run of letters at the start of `t`. */
  function LetterSpan(t: string): (n: nat)
    ensures n <= |t|
    ensures forall i :: 0 <= i < n ==> IsLetter(t[i])
    ensures n < |t| ==> !IsLetter(t[n])
  {
    if t != [] && IsLetter(t[0]) then 1 + LetterSpan(t[1..]) else 0
  }

  /** The digits and letters of `s`, in order: white space is dropped before
      tokenizing and every other character is passed over. */
  function Significant(s: string): (r: string)
    ensures |r| <= |s|
    ensures forall i :: 0 <= i < |r| ==> IsDigit(r[i]) || IsLetter(r[i])
  {
    if s == [] then []
    else (if IsDigit(s[0]) || IsLetter(s[0]) then [s[0]] else []) + Significant(s[1..])
  }

  /** A string of digits and letters is a series of segments, each a
      maximal run of digits followed by a maximal run of letters. These are
      the values of the segments, in input order, or the error of the first
      segment in error. */
  function Segments(t: string): (r: Result<seq<int>, ParseError>)
    ensures r.Err? ==> r.error != NullOrWhiteSpace
    decreases |t|
  {
    var n := DigitSpan(t);
    var m := LetterSpan(t[n..]);
    match Segment(t[..n], t[n..n + m])
    case Err(e) => Err(e)
    case Ok(v) =>
      if n + m == |t| then Ok([v])
      else
        match Segments(t[n + m..])
        case Err(e) => Err(e)
        case Ok(w) => Ok([v] + w)
  }

  function Sum(xs: seq<int>): int {
    if xs == [] then 0 else xs[0] + Sum(xs[1..])
  }

  /** The duration, in milliseconds, that `Parse` returns for a string: the
      sum of its segments. */
  function Duration(timeString: Option<string>): (r: Result<int, ParseError>)
    ensures r == Err(NullOrWhiteSpace) <==> timeString.None? || IsNullOrWhiteSpace(timeString.value)
  {
    if timeString.None? || IsNullOrWhiteSpace(timeString.value) then Err(NullOrWhiteSpace)
    else
      var values :- Segments(Significant(timeString.value));
      Ok(Sum(values))
  }

  // ------------------------------------------------------------ the loop

  /** The three locals of `Parse`. */
  datatype Locals = Locals(timeSpan: int, currentString: string, currentNumber: string)

  /** The inner `Process`: adds the pending segment to the total. */
  function Process(locals: Locals): (r: Result<int, ParseError>)
    ensures r.Ok? <==> Segment(locals.currentNumber, locals.currentString).Ok?
    ensures r.Ok? ==> r.value == locals.timeSpan + Segment(locals.currentNumber, locals.currentString).value
    ensures r.Err? ==> r.error == Segment(locals.currentNumber, locals.currentString).error
  {
    var value :- Segment(locals.currentNumber, locals.currentString);
    Ok(locals.timeSpan + value)
  }

  /** What the rest of the loop, and the final `Process`, make of `s` from
      the given locals. */
  ghost function Fold(locals: Locals, s: string): Result<int, ParseError>
    decreases |s|
  {
    if s == [] then Process(locals)
    else if IsDigit(s[0]) then
      if locals.currentString != [] then
        var timeSpan :- Process(locals);
        Fold(Locals(timeSpan, [], [s[0]]), s[1..])
      else
        Fold(locals.(currentNumber := locals.currentNumber + [s[0]]), s[1..])
    else if IsLetter(s[0]) then
      Fold(locals.(currentString := locals.currentString + [s[0]]), s[1..])
    else
      Fold(locals, s[1..])
  }

  /** `TimeString.Parse`. */
  method Parse(timeString: Option<string>) returns (r: Result<int, ParseError>)
    ensures r == Duration(timeString)
  {
    if timeString.None? || IsNullOrWhiteSpace(timeString.value) {
      return Err(NullOrWhiteSpace);
    }
    var s := timeString.value;
    var timeSpan := 0;
    var currentString := "";
    var currentNumber := "";
    ghost var start := Locals(0, "", "");
    for i := 0 to |s|
      invariant Fold(Locals(timeSpan, currentString, currentNumber), s[i..]) == Fold(start, s)
    {
      assert s[i..][1..] == s[i + 1..];
      var c := s[i];
      ghost var locals := Locals(timeSpan, currentString, currentNumber);
      if !IsWhiteSpace(c) {
        if IsDigit(c) {
          if currentString != [] {
            var processed := Process(Locals(timeSpan, currentString, currentNumber));
            FoldProcess(locals, s[i..]);
            if processed.Err? {
              FoldIsDuration(s);
              return Err(processed.error);
            }
            timeSpan, currentString, currentNumber := processed.value, "", "";
            assert currentNumber + [c] == [c];
          } else {
            assert Fold(locals, s[i..]) == Fold(locals.(currentNumber := currentNumber + [c]), s[i + 1..]);
          }
          currentNumber := currentNumber + [c];
        } else if IsLetter(c) {
          assert Fold(locals, s[i..]) == Fold(locals.(currentString := currentString + [c]), s[i + 1..]);
          currentString := currentString + [c];
        } else {
          assert Fold(locals, s[i..]) == Fold(locals, s[i + 1..]);
        }
      } else {
        assert !IsDigit(c) && !IsLetter(c);
        assert Fold(locals, s[i..]) == Fold(locals, s[i + 1..]);
      }
    }
    r := Process(Locals(timeSpan, currentString, currentNumber));
    FoldIsDuration(s);
  }

  // ------------------------------------------------------------ the loop computes Duration

  lemma DigitSpanUnique(t: string, n: nat)
    requires n <= |t|
    requires forall i :: 0 <= i < n ==> IsDigit(t[i])
    requires n < |t| ==> !IsDigit(t[n])
    ensures DigitSpan(t) == n
    decreases n
  {
    if n > 0 {
      DigitSpanUnique(t[1..], n - 1);
    }
  }

  lemma LetterSpanUnique(t: string, n: nat)
    requires n <= |t|
    requires forall i :: 0 <= i < n ==> IsLetter(t[i])
    requires n < |t| ==> !IsLetter(t[n])
    ensures LetterSpan(t) == n
    decreases n
  {
    if n > 0 {
      LetterSpanUnique(t[1..], n - 1);
    }
  }

  /** The first two runs of `d + u + r`, for digits `d`, letters `u` and a
      rest `r` that starts with a digit. */
  lemma SplitSegment(d: string, u: string, r: string)
    requires forall i :: 0 <= i < |d| ==> IsDigit(d[i])
    requires forall i :: 0 <= i < |u| ==> IsLetter(u[i])
    requires u != [] || r == [] || !IsDigit(r[0])
    requires r == [] || !IsLetter(r[0])
    ensures var t := d + u + r;
      && DigitSpan(t) == |d|
      && LetterSpan(t[|d|..]) == |u|
      && t[..|d|] == d && t[|d|..|d| + |u|] == u && t[|d| + |u|..] == r
  {
    var t := d + u + r;
    DigitSpanUnique(t, |d|);
    assert t[|d|..] == u + r;
    LetterSpanUnique(u + r, |u|);
  }

  lemma DigitsNotBlank(d: string)
    requires d != [] && IsDigit(d[0])
    ensures !IsNullOrWhiteSpace(d)
  {
  }

  /** `total` added to the sum of the segments, errors passed through. */
  function Plus(total: int, r: Result<seq<int>, ParseError>): Result<int, ParseError> {
    if r.Err? then Err(r.error) else Ok(total + Sum(r.value))
  }

  /** One more segment value in front, errors passed through. */
  function Cons(v: int, r: Result<seq<int>, ParseError>): Result<seq<int>, ParseError> {
    if r.Err? then Err(r.error) else Ok([v] + r.value)
  }

  lemma SumCons(v: int, xs: seq<int>)
    ensures Sum([v] + xs) == v + Sum(xs)
  {
    assert ([v] + xs)[1..] == xs;
  }

  /** `Segments` of a string that starts with the segment `d`, `u`. */
  lemma SegmentsOf(d: string, u: string, r: string)
    requires d != [] && forall i :: 0 <= i < |d| ==> IsDigit(d[i])
    requires forall i :: 0 <= i < |u| ==> IsLetter(u[i])
    requires u != [] || r == [] || !IsDigit(r[0])
    requires r == [] || !IsLetter(r[0])
    ensures Segments(d + u + r) ==
      if Segment(d, u).Err? then Err(Segment(d, u).error)
      else if r == [] then Ok([Segment(d, u).value])
      else Cons(Segment(d, u).value, Segments(r))
  {
    SplitSegment(d, u, r);
  }

  lemma SumSingle(v: int)
    ensures Sum([v]) == v
  {
    assert [v][1..] == [];
  }

  /** From locals holding digits `d` and then letters `u`, the loop ends as
      the segments of `d + u` followed by the rest of the input. */
  lemma {:induction false} FoldNumber(total: int, u: string, d: string, t: string)
    requires d != [] && forall i :: 0 <= i < |d| ==> IsDigit(d[i])
    requires forall i :: 0 <= i < |u| ==> IsLetter(u[i])
    ensures Fold(Locals(total, u, d), t) == Plus(total, Segments(d + u + Significant(t)))
    decreases |t|, 1
  {
    if t == [] {
      FoldNumberEnd(total, u, d);
    } else if IsDigit(t[0]) && u != [] {
      FoldNumberNext(total, u, d, t);
    } else if IsDigit(t[0]) {
      FoldNumberDigit(total, d, t);
    } else if IsLetter(t[0]) {
      FoldNumberLetter(total, u, d, t);
    } else {
      FoldNumberOther(total, u, d, t);
    }
  }

  /** The final `Process`. */
  lemma FoldNumberEnd(total: int, u: string, d: string)
    requires d != [] && forall i :: 0 <= i < |d| ==> IsDigit(d[i])
    requires forall i :: 0 <= i < |u| ==> IsLetter(u[i])
    ensures Fold(Locals(total, u, d), []) == Plus(total, Segments(d + u + Significant([])))
  {
    assert d + u + Significant([]) == d + u + [];
    SegmentsOf(d, u, []);
    if Segment(d, u).Ok? {
      SumSingle(Segment(d, u).value);
    }
  }

  /** A digit after the unit word closes the segment and starts the next. */
  lemma {:induction false} FoldNumberNext(total: int, u: string, d: string, t: string)
    requires d != [] && forall i :: 0 <= i < |d| ==> IsDigit(d[i])
    requires forall i :: 0 <= i < |u| ==> IsLetter(u[i])
    requires t != [] && IsDigit(t[0]) && u != []
    ensures Fold(Locals(total, u, d), t) == Plus(total, Segments(d + u + Significant(t)))
    decreases |t|, 0
  {
    var r := Significant(t);
    assert r == [t[0]] + Significant(t[1..]);
    FoldProcess(Locals(total, u, d), t);
    NextSegment(total, d, u, r);
    if Segment(d, u).Ok? {
      FoldFromDigit(total + Segment(d, u).value, t[0], t[1..]);
    }
  }

  /** The segments of `d + u + r` when a digit starts `r`: the segment
      `d`, `u` and then those of `r`. */
  lemma NextSegment(total: int, d: string, u: string, r: string)
    requires d != [] && forall i :: 0 <= i < |d| ==> IsDigit(d[i])
    requires u != [] && forall i :: 0 <= i < |u| ==> IsLetter(u[i])
    requires r != [] && IsDigit(r[0])
    ensures Plus(total, Segments(d + u + r)) ==
      if Segment(d, u).Err? then Err(Segment(d, u).error)
      else Plus(total + Segment(d, u).value, Segments(r))
  {
    SegmentsOf(d, u, r);
    PlusStep(total, Segment(d, u), Segments(r), Segments(d + u + r));
  }

  /** `Plus` over a segment in front of the rest, errors passed through. */
  lemma PlusStep(total: int, s: Result<int, ParseError>, rest: Result<seq<int>, ParseError>,
                 whole: Result<seq<int>, ParseError>)
    requires whole == if s.Err? then Err(s.error) else Cons(s.value, rest)
    ensures Plus(total, whole) == if s.Err? then Err(s.error) else Plus(total + s.value, rest)
  {
    if s.Ok? {
      PlusCons(total, s.value, rest);
    }
  }

  /** The loop from a digit just read into an empty segment. */
  lemma {:induction false} FoldFromDigit(total: int, c: char, t: string)
    requires IsDigit(c)
    ensures Fold(Locals(total, [], [c]), t) == Plus(total, Segments([c] + Significant(t)))
    decreases |t|, 2
  {
    FoldNumber(total, [], [c], t);
    assert [c] + [] + Significant(t) == [c] + Significant(t);
  }

  lemma PlusCons(total: int, v: int, r: Result<seq<int>, ParseError>)
    ensures Plus(total, Cons(v, r)) == Plus(total + v, r)
  {
    if r.Ok? {
      SumCons(v, r.value);
    }
  }

  /** The loop's step on a digit that follows a unit word. */
  lemma FoldProcess(locals: Locals, t: string)
    requires t != [] && IsDigit(t[0]) && locals.currentString != []
    ensures Fold(locals, t) ==
      if Process(locals).Err? then Err(Process(locals).error)
      else Fold(Locals(Process(locals).value, [], [t[0]]), t[1..])
  {
  }

  /** A digit before any unit letter extends the number. */
  lemma {:induction false} FoldNumberDigit(total: int, d: string, t: string)
    requires d != [] && forall i :: 0 <= i < |d| ==> IsDigit(d[i])
    requires t != [] && IsDigit(t[0])
    ensures Fold(Locals(total, [], d), t) == Plus(total, Segments(d + [] + Significant(t)))
    decreases |t|, 0
  {
    FoldDigitStep(Locals(total, [], d), t);
    FoldNumber(total, [], d + [t[0]], t[1..]);
    DigitShift(d, t);
  }

  lemma FoldDigitStep(locals: Locals, t: string)
    requires t != [] && IsDigit(t[0]) && locals.currentString == []
    ensures Fold(locals, t) == Fold(locals.(currentNumber := locals.currentNumber + [t[0]]), t[1..])
  {
  }

  lemma DigitShift(d: string, t: string)
    requires t != [] && IsDigit(t[0])
    ensures d + [t[0]] + [] + Significant(t[1..]) == d + [] + Significant(t)
  {
    assert Significant(t) == [t[0]] + Significant(t[1..]);
    assert d + [t[0]] + [] == d + [t[0]];
    assert d + [] == d;
    Associative(d, [t[0]], Significant(t[1..]));
  }

  /** A letter extends the unit word. */
  lemma {:induction false} FoldNumberLetter(total: int, u: string, d: string, t: string)
    requires d != [] && forall i :: 0 <= i < |d| ==> IsDigit(d[i])
    requires forall i :: 0 <= i < |u| ==> IsLetter(u[i])
    requires t != [] && IsLetter(t[0])
    ensures Fold(Locals(total, u, d), t) == Plus(total, Segments(d + u + Significant(t)))
    decreases |t|, 0
  {
    FoldLetterStep(Locals(total, u, d), t);
    FoldNumber(total, u + [t[0]], d, t[1..]);
    LetterShift(d, u, t);
  }

  lemma FoldLetterStep(locals: Locals, t: string)
    requires t != [] && IsLetter(t[0])
    ensures Fold(locals, t) == Fold(locals.(currentString := locals.currentString + [t[0]]), t[1..])
  {
  }

  lemma LetterShift(d: string, u: string, t: string)
    requires t != [] && IsLetter(t[0])
    ensures d + (u + [t[0]]) + Significant(t[1..]) == d + u + Significant(t)
  {
    assert Significant(t) == [t[0]] + Significant(t[1..]);
    Associative(d, u + [t[0]], Significant(t[1..]));
    Associative(d + u, [t[0]], Significant(t[1..]));
    Associative(u, [t[0]], Significant(t[1..]));
    Associative(d, u, [t[0]] + Significant(t[1..]));
  }

  /** Any other character is passed over. */
  lemma {:induction false} FoldNumberOther(total: int, u: string, d: string, t: string)
    requires d != [] && forall i :: 0 <= i < |d| ==> IsDigit(d[i])
    requires forall i :: 0 <= i < |u| ==> IsLetter(u[i])
    requires t != [] && !IsDigit(t[0]) && !IsLetter(t[0])
    ensures Fold(Locals(total, u, d), t) == Plus(total, Segments(d + u + Significant(t)))
    decreases |t|, 0
  {
    FoldOtherStep(Locals(total, u, d), t);
    FoldNumber(total, u, d, t[1..]);
  }

  lemma FoldOtherStep(locals: Locals, t: string)
    requires t != [] && !IsDigit(t[0]) && !IsLetter(t[0])
    ensures Fold(locals, t) == Fold(locals, t[1..])
    ensures Significant(t) == Significant(t[1..])
  {
  }

  /** From locals holding letters `u` and no digits, the loop ends as the
      segments of `u` followed by the rest of the input. */
  lemma {:induction false} FoldLetters(total: int, u: string, t: string)
    requires forall i :: 0 <= i < |u| ==> IsLetter(u[i])
    ensures Fold(Locals(total, u, []), t) == Plus(total, Segments(u + Significant(t)))
    decreases |t|, 3
  {
    if t == [] || (IsDigit(t[0]) && u != []) {
      FoldLettersUnknown(total, u, t);
    } else if IsDigit(t[0]) {
      FoldLettersDigit(total, t);
    } else if IsLetter(t[0]) {
      FoldLettersLetter(total, u, t);
    } else {
      FoldLettersOther(total, u, t);
    }
  }

  /** The first digit, with no letters before it, starts a number. */
  lemma {:induction false} FoldLettersDigit(total: int, t: string)
    requires t != [] && IsDigit(t[0])
    ensures Fold(Locals(total, [], []), t) == Plus(total, Segments([] + Significant(t)))
    decreases |t|, 2
  {
    assert [] + [t[0]] == [t[0]];
    assert Fold(Locals(total, [], []), t) == Fold(Locals(total, [], [t[0]]), t[1..]);
    FoldFromDigit(total, t[0], t[1..]);
    assert [] + Significant(t) == [t[0]] + Significant(t[1..]);
  }

  /** A letter before any digit extends the unit word. */
  lemma {:induction false} FoldLettersLetter(total: int, u: string, t: string)
    requires forall i :: 0 <= i < |u| ==> IsLetter(u[i])
    requires t != [] && IsLetter(t[0])
    ensures Fold(Locals(total, u, []), t) == Plus(total, Segments(u + Significant(t)))
    decreases |t|, 2
  {
    FoldLetterStep(Locals(total, u, []), t);
    FoldLetters(total, u + [t[0]], t[1..]);
    UnitShift(u, t);
  }

  lemma UnitShift(u: string, t: string)
    requires t != [] && IsLetter(t[0])
    ensures (u + [t[0]]) + Significant(t[1..]) == u + Significant(t)
  {
    assert Significant(t) == [t[0]] + Significant(t[1..]);
    Associative(u, [t[0]], Significant(t[1..]));
  }

  /** Any other character before the first digit is passed over. */
  lemma {:induction false} FoldLettersOther(total: int, u: string, t: string)
    requires forall i :: 0 <= i < |u| ==> IsLetter(u[i])
    requires t != [] && !IsDigit(t[0]) && !IsLetter(t[0])
    ensures Fold(Locals(total, u, []), t) == Plus(total, Segments(u + Significant(t)))
    decreases |t|, 2
  {
    FoldOtherStep(Locals(total, u, []), t);
    FoldLetters(total, u, t[1..]);
  }

  /** Letters that no digit precedes are an unknown part, at the end of the
      input or when a digit follows them. */
  lemma FoldLettersUnknown(total: int, u: string, t: string)
    requires forall i :: 0 <= i < |u| ==> IsLetter(u[i])
    requires t == [] || (IsDigit(t[0]) && u != [])
    ensures Fold(Locals(total, u, []), t) == Err(UnknownPart(u))
    ensures Segments(u + Significant(t)) == Err(UnknownPart(u))
  {
    var r := Significant(t);
    if t != [] {
      assert r == [t[0]] + Significant(t[1..]);
    }
    SplitSegment([], u, r);
    assert [] + u + r == u + r;
  }

  lemma FoldIsDuration(s: string)
    requires !IsNullOrWhiteSpace(s)
    ensures Fold(Locals(0, "", ""), s) == Duration(Some(s))
  {
    FoldLetters(0, [], s);
    assert [] + Significant(s) == Significant(s);
  }

  // ------------------------------------------------------------ properties of Duration

  /** Null, empty and white-space strings are rejected before any scanning. */
  lemma BlankRejected(timeString: Option<string>)
    requires timeString.None? || IsNullOrWhiteSpace(timeString.value)
    ensures Duration(timeString) == Err(NullOrWhiteSpace)
  {
  }

  /** The string without its white space. */
  function RemoveWhiteSpace(s: string): (r: string)
    ensures |r| <= |s|
    ensures forall i :: 0 <= i < |r| ==> !IsWhiteSpace(r[i])
  {
    if s == [] then []
    else (if IsWhiteSpace(s[0]) then [] else [s[0]]) + RemoveWhiteSpace(s[1..])
  }

  lemma {:induction false} SignificantRemoveWhiteSpace(s: string)
    ensures Significant(RemoveWhiteSpace(s)) == Significant(s)
  {
    if s != [] {
      SignificantRemoveWhiteSpace(s[1..]);
      var rest := RemoveWhiteSpace(s[1..]);
      if IsWhiteSpace(s[0]) {
        assert RemoveWhiteSpace(s) == rest;
      } else {
        assert RemoveWhiteSpace(s) == [s[0]] + rest;
        SignificantCons(s[0], rest);
      }
    }
  }

  lemma {:induction false} RemoveWhiteSpaceEmpty(s: string)
    ensures RemoveWhiteSpace(s) == [] <==> IsNullOrWhiteSpace(s)
  {
    if s != [] {
      RemoveWhiteSpaceEmpty(s[1..]);
      if IsWhiteSpace(s[0]) {
        assert RemoveWhiteSpace(s) == RemoveWhiteSpace(s[1..]);
        if IsNullOrWhiteSpace(s[1..]) {
          forall i | 0 <= i < |s|
            ensures IsWhiteSpace(s[i])
          {
            if i > 0 {
              assert s[i] == s[1..][i - 1];
            }
          }
        }
      } else {
        assert RemoveWhiteSpace(s)[0] == s[0];
      }
    }
  }

  lemma SignificantCons(c: char, s: string)
    ensures Significant([c] + s) == (if IsDigit(c) || IsLetter(c) then [c] else []) + Significant(s)
  {
    assert ([c] + s)[1..] == s;
  }

  /** White space anywhere in the string changes nothing: "1 h 4 m" is
      "1h4m". */
  lemma WhiteSpaceIgnored(s: string)
    ensures Duration(Some(RemoveWhiteSpace(s))) == Duration(Some(s))
  {
    SignificantRemoveWhiteSpace(s);
    RemoveWhiteSpaceEmpty(s);
    var t := RemoveWhiteSpace(s);
    assert IsNullOrWhiteSpace(t) <==> t == [] by {
      if t != [] {
        assert !IsWhiteSpace(t[0]);
      }
    }
  }

  lemma {:induction false} SignificantAppend(a: string, b: string)
    ensures Significant(a + b) == Significant(a) + Significant(b)
  {
    if a != [] {
      assert (a + b)[1..] == a[1..] + b;
      SignificantAppend(a[1..], b);
    } else {
      assert a + b == b;
    }
  }

  lemma {:induction false} SumAppend(a: seq<int>, b: seq<int>)
    ensures Sum(a + b) == Sum(a) + Sum(b)
  {
    if a != [] {
      assert (a + b)[1..] == a[1..] + b;
      SumAppend(a[1..], b);
    } else {
      assert a + b == b;
    }
  }

  /** A string of segments with no error starts with a digit. */
  lemma SegmentsStart(t: string)
    requires Segments(t).Ok?
    ensures t != [] && IsDigit(t[0])
  {
    if t == [] || !IsDigit(t[0]) {
      SegmentsNoNumber(t);
    }
  }

  /** A string that does not start with a digit has no number for its
      first segment. */
  lemma SegmentsNoNumber(t: string)
    requires t == [] || !IsDigit(t[0])
    ensures Segments(t) == Err(UnknownPart(t[..LetterSpan(t)]))
  {
    assert DigitSpan(t) == 0;
    assert t[0..] == t;
  }

  /** The first segment of a string of digits and letters with no error,
      and the rest. */
  lemma Decompose(x: string) returns (d: string, u: string, r: string)
    requires forall i :: 0 <= i < |x| ==> IsDigit(x[i]) || IsLetter(x[i])
    requires Segments(x).Ok?
    ensures x == d + u + r
    ensures d != [] && forall i :: 0 <= i < |d| ==> IsDigit(d[i])
    ensures forall i :: 0 <= i < |u| ==> IsLetter(u[i])
    ensures Segment(d, u).Ok?
    ensures r == [] ==> x == d + u && Segments(x) == Ok([Segment(d, u).value])
    ensures r != [] ==>
      && u != [] && IsDigit(r[0]) && Segments(r).Ok?
      && Segments(x).value == [Segment(d, u).value] + Segments(r).value
  {
    SegmentsStart(x);
    var n, m := Spans(x);
    d, u, r := DecomposeParts(x, n, m);
    SegmentsOf(d, u, r);
  }

  /** The lengths of the leading digits and of the letters after them. */
  lemma Spans(x: string) returns (n: nat, m: nat)
    requires x != [] && IsDigit(x[0])
    ensures 0 < n && n + m <= |x|
    ensures forall i :: 0 <= i < n ==> IsDigit(x[i])
    ensures n < |x| ==> !IsDigit(x[n])
    ensures forall i :: n <= i < n + m ==> IsLetter(x[i])
    ensures n + m < |x| ==> !IsLetter(x[n + m])
  {
    n := DigitSpan(x);
    m := LetterSpan(x[n..]);
    assert forall i :: n <= i < n + m ==> x[i] == x[n..][i - n];
  }

  lemma DecomposeParts(x: string, n: nat, m: nat) returns (d: string, u: string, r: string)
    requires forall i :: 0 <= i < |x| ==> IsDigit(x[i]) || IsLetter(x[i])
    requires n + m <= |x|
    requires forall i :: 0 <= i < n ==> IsDigit(x[i])
    requires n < |x| ==> !IsDigit(x[n])
    requires forall i :: n <= i < n + m ==> IsLetter(x[i])
    requires n + m < |x| ==> !IsLetter(x[n + m])
    ensures d == x[..n] && u == x[n..n + m] && r == x[n + m..]
    ensures x == d + u + r
    ensures forall i :: 0 <= i < |d| ==> IsDigit(d[i])
    ensures forall i :: 0 <= i < |u| ==> IsLetter(u[i])
    ensures r != [] ==> u != [] && IsDigit(r[0])
    ensures r == [] ==> x == d + u
  {
    d, u, r := x[..n], x[n..n + m], x[n + m..];
  }

  lemma Associative<T>(a: seq<T>, b: seq<T>, c: seq<T>)
    ensures a + b + c == a + (b + c)
  {
  }

  /** The segments of one string of segments, ending in a unit word,
      followed by another are those of the first and then those of the
      second. */
  lemma {:induction false} SegmentsAppend(x: string, y: string)
    requires forall i :: 0 <= i < |x| ==> IsDigit(x[i]) || IsLetter(x[i])
    requires x != [] && IsLetter(x[|x| - 1])
    requires Segments(x).Ok? && Segments(y).Ok?
    ensures Segments(x + y) == Ok(Segments(x).value + Segments(y).value)
    decreases |x|
  {
    var d, u, r := Decompose(x);
    SegmentsStart(y);
    if r == [] {
      SegmentsAppendLast(x, y, d, u);
    } else {
      SegmentsAppendRest(x, y, d, u, r);
      SegmentsAppend(r, y);
      SegmentsAppendMore(d, u, r, y);
      Associative(d + u, r, y);
      Associative([Segment(d, u).value], Segments(r).value, Segments(y).value);
    }
  }

  lemma SegmentsAppendRest(x: string, y: string, d: string, u: string, r: string)
    requires forall i :: 0 <= i < |x| ==> IsDigit(x[i]) || IsLetter(x[i])
    requires x != [] && IsLetter(x[|x| - 1])
    requires x == d + u + r && r != []
    ensures forall i :: 0 <= i < |r| ==> IsDigit(r[i]) || IsLetter(r[i])
    ensures IsLetter(r[|r| - 1])
  {
    assert forall i :: 0 <= i < |r| ==> r[i] == x[|d| + |u| + i];
  }

  lemma SegmentsAppendLast(x: string, y: string, d: string, u: string)
    requires d != [] && forall i :: 0 <= i < |d| ==> IsDigit(d[i])
    requires x == d + u && IsLetter(x[|x| - 1])
    requires forall i :: 0 <= i < |u| ==> IsLetter(u[i])
    requires Segment(d, u).Ok? && Segments(x) == Ok([Segment(d, u).value])
    requires y != [] && IsDigit(y[0]) && Segments(y).Ok?
    ensures Segments(x + y) == Ok(Segments(x).value + Segments(y).value)
  {
    LastOf(d, u);
    SegmentsOf(d, u, y);
  }

  lemma LastOf(d: string, u: string)
    requires d != []
    ensures (d + u)[|d + u| - 1] == if u == [] then d[|d| - 1] else u[|u| - 1]
  {
  }

  lemma SegmentsAppendMore(d: string, u: string, r: string, y: string)
    requires d != [] && forall i :: 0 <= i < |d| ==> IsDigit(d[i])
    requires u != [] && forall i :: 0 <= i < |u| ==> IsLetter(u[i])
    requires r != [] && IsDigit(r[0])
    requires Segment(d, u).Ok?
    requires Segments(r).Ok? && Segments(y).Ok?
    requires Segments(r + y) == Ok(Segments(r).value + Segments(y).value)
    ensures Segments(d + u + (r + y)) == Ok([Segment(d, u).value] + (Segments(r).value + Segments(y).value))
  {
    SegmentsOf(d, u, r + y);
  }

  /** `Duration` of a string that is not blank. */
  lemma DurationOf(s: string)
    requires !IsNullOrWhiteSpace(s)
    ensures Duration(Some(s)) == Plus(0, Segments(Significant(s)))
  {
  }

  /** A string whose first significant character is a letter is an unknown
      part, reported with the letters up to the first digit: "day" and
      "ms 10". */
  lemma LeadingLetters(s: string)
    requires !IsNullOrWhiteSpace(s)
    requires Significant(s) == [] || IsLetter(Significant(s)[0])
    ensures var t := Significant(s);
      Duration(Some(s)) == Err(UnknownPart(t[..LetterSpan(t)]))
  {
    DurationOf(s);
    SegmentsLeadingLetters(Significant(s));
  }

  lemma SegmentsLeadingLetters(t: string)
    requires t == [] || IsLetter(t[0])
    ensures Segments(t) == Err(UnknownPart(t[..LetterSpan(t)]))
  {
    DigitSpanUnique(t, 0);
    assert t[0..] == t;
  }

  /** A single segment: digits followed by a unit word. */
  lemma SingleSegment(d: string, u: string)
    requires d != [] && forall i :: 0 <= i < |d| ==> IsDigit(d[i])
    requires forall i :: 0 <= i < |u| ==> IsLetter(u[i])
    ensures Duration(Some(d + u)) == Segment(d, u)
  {
    SignificantAppend(d, u);
    SignificantOnly(d);
    SignificantOnly(u);
    assert (d + u)[0] == d[0];
    DurationOf(d + u);
    SegmentsSingle(d, u);
    if Segment(d, u).Ok? {
      SumSingle(Segment(d, u).value);
    }
  }

  lemma SegmentsSingle(d: string, u: string)
    requires d != [] && forall i :: 0 <= i < |d| ==> IsDigit(d[i])
    requires forall i :: 0 <= i < |u| ==> IsLetter(u[i])
    ensures Segments(d + u) ==
      if Segment(d, u).Err? then Err(Segment(d, u).error) else Ok([Segment(d, u).value])
  {
    SegmentsOf(d, u, []);
    assert d + u + [] == d + u;
  }

  lemma {:induction false} SignificantOnly(s: string)
    requires forall i :: 0 <= i < |s| ==> IsDigit(s[i]) || IsLetter(s[i])
    ensures Significant(s) == s
  {
    if s != [] {
      SignificantOnly(s[1..]);
    }
  }

  // ------------------------------------------------------------ a worked example

  /** A segment whose unit word is read by its initial. */
  lemma SegmentValue(d: string, u: string, unit: Unit)
    requires d != [] && forall i :: 0 <= i < |d| ==> IsDigit(d[i])
    requires DecimalValue(d) <= IntMax && UnitByInitial(u) == Some(unit)
    ensures Segment(d, u) == Ok(InMilliseconds(DecimalValue(d), unit))
  {
    UnitOfByInitial(u);
    DigitsNotBlank(d);
  }

  /** A segment followed by a space and the rest of the string. */
  lemma SpacedSegment(d: string, u: string, rest: string)
    requires d != [] && forall i :: 0 <= i < |d| ==> IsDigit(d[i])
    requires u != [] && forall i :: 0 <= i < |u| ==> IsLetter(u[i])
    requires Significant(rest) != [] && IsDigit(Significant(rest)[0])
    ensures Significant(d + u + " " + rest) == d + u + Significant(rest)
    ensures Segments(Significant(d + u + " " + rest)) ==
      if Segment(d, u).Err? then Err(Segment(d, u).error)
      else Cons(Segment(d, u).value, Segments(Significant(rest)))
  {
    SpacedSignificant(d + u, rest);
    SegmentsOf(d, u, Significant(rest));
  }

  lemma SpacedSignificant(x: string, rest: string)
    requires forall i :: 0 <= i < |x| ==> IsDigit(x[i]) || IsLetter(x[i])
    ensures Significant(x + " " + rest) == x + Significant(rest)
  {
    var spaced := x + " ";
    SignificantAppend(spaced, rest);
    SignificantAppend(x, " ");
    SignificantOnly(x);
    SpaceInsignificant();
    assert Significant(spaced) == x;
  }

  lemma SpaceInsignificant()
    ensures Significant(" ") == []
  {
    assert " "[1..] == [];
  }

  /** The last segment of a string. */
  lemma LastSegment(d: string, u: string)
    requires d != [] && forall i :: 0 <= i < |d| ==> IsDigit(d[i])
    requires forall i :: 0 <= i < |u| ==> IsLetter(u[i])
    ensures Significant(d + u) == d + u
    ensures Segments(Significant(d + u)) ==
      if Segment(d, u).Err? then Err(Segment(d, u).error) else Ok([Segment(d, u).value])
  {
    SignificantAppend(d, u);
    SignificantOnly(d);
    SignificantOnly(u);
    SegmentsSingle(d, u);
  }

  /** A segment as written in a time string: a run of digits and a unit
      word, worth `ms` milliseconds. */
  predicate WrittenSegment(d: string, u: string, ms: int) {
    && d != [] && (forall i :: 0 <= i < |d| ==> IsDigit(d[i]))
    && u != [] && (forall i :: 0 <= i < |u| ==> IsLetter(u[i]))
    && DecimalValue(d) <= IntMax && UnitByInitial(u).Some?
    && ms == InMilliseconds(DecimalValue(d), UnitByInitial(u).value)
  }

  /** A written segment, a space and more segments: the value of the
      segment comes first. */
  lemma SpacedStep(d: string, u: string, r: string, ms: int)
    requires WrittenSegment(d, u, ms)
    requires Significant(r) != [] && IsDigit(Significant(r)[0])
    ensures Significant(d + u + " " + r) != [] && IsDigit(Significant(d + u + " " + r)[0])
    ensures Segments(Significant(d + u + " " + r)) == Cons(ms, Segments(Significant(r)))
  {
    SegmentValue(d, u, UnitByInitial(u).value);
    SpacedSegment(d, u, r);
  }

  /** A written segment on its own. */
  lemma LastStep(d: string, u: string, ms: int)
    requires WrittenSegment(d, u, ms)
    ensures Significant(d + u) != [] && IsDigit(Significant(d + u)[0])
    ensures Segments(Significant(d + u)) == Ok([ms])
  {
    SegmentValue(d, u, UnitByInitial(u).value);
    LastSegment(d, u);
  }

  /** The unit tests' table of unit words: 1 followed by the word, and the
      milliseconds it is worth. */
  const UnitExamples: seq<(string, int)> := [
    ("d", 86_400_000), ("day", 86_400_000), ("days", 86_400_000),
    ("h", 3_600_000), ("hour", 3_600_000), ("hours", 3_600_000),
    ("s", 1_000), ("sec", 1_000), ("secs", 1_000),
    ("m", 60_000), ("min", 60_000), ("mins", 60_000),
    ("ms", 1), ("", 1)]

  /** Every row of the table: each spelling of each unit converts with the
      unit's own factor, and a bare number is milliseconds. */
  lemma UnitExamplesHold(u: string, ms: int)
    requires (u, ms) in UnitExamples
    ensures Duration(Some("1" + u)) == Ok(ms)
  {
    LongUnits();
    ShortUnits();
    OneUnit(u, ms);
  }

  /** A number followed by a word that is no unit fails with that word as
      the unknown part ("1test"). */
  lemma UnknownUnit()
    ensures Duration(Some("1test")) == Err(UnknownPart("test"))
  {
    UnknownUnitOf("test");
    assert "1" + "test" == "1test";
  }

  lemma UnknownUnitOf(u: string)
    requires u == "test"
    ensures Duration(Some("1" + u)) == Err(UnknownPart(u))
  {
    SingleSegment("1", u);
    UnitOfByInitial(u);
  }

  lemma LongUnits()
    ensures UnitCount("d", 86_400_000) && UnitCount("day", 86_400_000) && UnitCount("days", 86_400_000)
    ensures UnitCount("h", 3_600_000) && UnitCount("hour", 3_600_000) && UnitCount("hours", 3_600_000)
  {
  }

  lemma ShortUnits()
    ensures UnitCount("s", 1_000) && UnitCount("sec", 1_000) && UnitCount("secs", 1_000)
    ensures UnitCount("m", 60_000) && UnitCount("min", 60_000) && UnitCount("mins", 60_000)
    ensures UnitCount("ms", 1) && UnitCount("", 1)
  {
  }

  /** `u` is a unit word and one of it is worth `ms` milliseconds. */
  predicate UnitCount(u: string, ms: int) {
    && (forall i :: 0 <= i < |u| ==> IsLetter(u[i]))
    && UnitByInitial(u).Some? && ms == InMilliseconds(1, UnitByInitial(u).value)
  }

  lemma OneUnit(u: string, ms: int)
    requires UnitCount(u, ms)
    ensures Duration(Some("1" + u)) == Ok(ms)
  {
    SingleSegment("1", u);
    SegmentValue("1", u, UnitByInitial(u).value);
  }

  /** The first two segments of the example below. */
  lemma SampleHeadSegments()
    ensures WrittenSegment("3", "days", 259_200_000)
    ensures WrittenSegment("20", "hours", 72_000_000)
  {
    assert WrittenSegment("3", "days", 259_200_000);
    assert WrittenSegment("20", "hours", 72_000_000) by {
      assert "20"[..1] == "2";
    }
  }

  /** The last three segments of the example below. */
  lemma SampleTailSegments()
    ensures WrittenSegment("36", "mins", 2_160_000)
    ensures WrittenSegment("17", "secs", 17_000)
    ensures WrittenSegment("156", "ms", 156)
  {
    assert WrittenSegment("36", "mins", 2_160_000) by {
      assert "36"[..1] == "3";
    }
    assert WrittenSegment("17", "secs", 17_000) by {
      assert "17"[..1] == "1";
    }
    assert WrittenSegment("156", "ms", 156) by {
      assert "156"[..2] == "15" && "15"[..1] == "1";
    }
  }

  /** The example below from its third segment on. */
  lemma SampleTail(d3: string, u3: string, d4: string, u4: string, d5: string, u5: string)
    requires d3 == "36" && u3 == "mins" && d4 == "17" && u4 == "secs" && d5 == "156" && u5 == "ms"
    ensures var r := d3 + u3 + " " + (d4 + u4 + " " + (d5 + u5));
      && Significant(r) != [] && IsDigit(Significant(r)[0])
      && Plus(331_200_000, Segments(Significant(r))) == Ok(333377156)
  {
    SampleTailSegments();
    var r4 := d5 + u5;
    var r3 := d4 + u4 + " " + r4;
    LastStep(d5, u5, 156);
    SpacedStep(d4, u4, r4, 17_000);
    SpacedStep(d3, u3, r3, 2_160_000);
    PlusCons(331_200_000, 2_160_000, Segments(Significant(r3)));
    PlusCons(333_360_000, 17_000, Segments(Significant(r4)));
    SumSingle(156);
  }

  /** The example below, taken apart into its segments. */
  lemma SampleDurationOf(d1: string, u1: string, d2: string, u2: string, d3: string, u3: string,
                         d4: string, u4: string, d5: string, u5: string)
    requires d1 == "3" && u1 == "days" && d2 == "20" && u2 == "hours" && d3 == "36" && u3 == "mins"
    requires d4 == "17" && u4 == "secs" && d5 == "156" && u5 == "ms"
    ensures Duration(Some(d1 + u1 + " " + (d2 + u2 + " " + (d3 + u3 + " " + (d4 + u4 + " " + (d5 + u5))))))
      == Ok(333377156)
  {
    SampleHeadSegments();
    var r2 := d3 + u3 + " " + (d4 + u4 + " " + (d5 + u5));
    var r1 := d2 + u2 + " " + r2;
    var s := d1 + u1 + " " + r1;
    SampleTail(d3, u3, d4, u4, d5, u5);
    SpacedStep(d2, u2, r2, 72_000_000);
    SpacedStep(d1, u1, r1, 259_200_000);
    DurationOf(s);
    PlusCons(0, 259_200_000, Segments(Significant(r1)));
    PlusCons(259_200_000, 72_000_000, Segments(Significant(r2)));
  }

  lemma SampleText()
    ensures "3" + "days" + " " + ("20" + "hours" + " " + ("36" + "mins" + " " + ("17" + "secs" + " " + ("156" + "ms"))))
      == "3days 20hours 36mins 17secs 156ms"
  {
  }

  /** The longest example of the unit tests: every unit once, separated by
      spaces, adds up to 333377156 milliseconds. */
  lemma SampleDuration()
    ensures Duration(Some("3days 20hours 36mins 17secs 156ms")) == Ok(333377156)
  {
    SampleDurationOf("3", "days", "20", "hours", "36", "mins", "17", "secs", "156", "ms");
    SampleText();
  }

  // ------------------------------------------------------------ the unit words

  /** The unit patterns, read as the first one or two letters: "ms" before
      anything else, then the initial d, h, m or s, in either case. */
  function UnitByInitial(u: string): Option<Unit> {
    if u == [] then Some(Millisecond)
    else if |u| >= 2 && ToLower(u[0]) == 'm' && ToLower(u[1]) == 's' then Some(Millisecond)
    else if ToLower(u[0]) == 'd' then Some(Day)
    else if ToLower(u[0]) == 'h' then Some(Hour)
    else if ToLower(u[0]) == 'm' then Some(Minute)
    else if ToLower(u[0]) == 's' then Some(Second)
    else None
  }

  lemma StartsWithInitial(u: string, word: string)
    requires word != [] && StartsWithIgnoreCase(u, word)
    ensures ToLower(u[0]) == word[0]
  {
    assert ToLowerString(u[..|word|])[0] == ToLower(u[0]);
  }

  /** Every alternative of a unit pattern starts with `initial`, so the
      pattern matches exactly the words starting with that letter. */
  lemma MatchesByInitial(u: string, words: seq<string>, initial: char)
    requires u != []
    requires forall k :: 0 <= k < |words| ==> words[k] != [] && words[k][0] == initial
    requires [initial] in words
    ensures MatchesUnit(u, words) <==> ToLower(u[0]) == initial
  {
    if MatchesUnit(u, words) {
      var k :| 0 <= k < |words| && StartsWithIgnoreCase(u, words[k]);
      StartsWithInitial(u, words[k]);
    }
    if ToLower(u[0]) == initial {
      var k :| 0 <= k < |words| && words[k] == [initial];
      assert ToLowerString(u[..1]) == [initial];
    }
  }

  lemma MatchesMilliseconds(u: string)
    ensures MatchesUnit(u, MillisecondsWords) <==> |u| >= 2 && ToLower(u[0]) == 'm' && ToLower(u[1]) == 's'
  {
    if |u| >= 2 {
      var l := ToLowerString(u[..2]);
      assert l == "ms" <==> l[0] == 'm' && l[1] == 's';
      assert StartsWithIgnoreCase(u, MillisecondsWords[0]) <==> l == "ms";
    }
  }

  /** The unit patterns reduce to their shortest alternatives, so "ms" wins
      over "m", "mins" is minutes and "1dz" is a day. */
  lemma UnitOfByInitial(u: string)
    ensures UnitOf(u) == UnitByInitial(u)
  {
    if u != [] {
      MatchesMilliseconds(u);
      MatchesByInitial(u, DaysWords, 'd');
      MatchesByInitial(u, HoursWords, 'h');
      MatchesByInitial(u, MinutesWords, 'm');
      MatchesByInitial(u, SecondsWords, 's');
    }
  }
}

/** The `TimeString` class: the text it was made from and its duration. */
module TimeStrings {
  import opened Common
  import opened TimeStringParser

  /** An instance: `_value` and `TimeSpan`, in milliseconds. Both are
      read-only, so the same instance always has the same fields. */
  datatype TimeString = TimeString(value: string, timeSpan: int) {

    /** `Equals(TimeString other)`: false for null, true for the same
        instance, otherwise whether the durations are equal. */
    function Equals(other: Option<TimeString>): (r: bool)
      ensures r <==> other.Some? && other.value.timeSpan == timeSpan
    {
      if other.None? then false
      else other.value == this || timeSpan == other.value.timeSpan
    }

    /** `Equals(object obj)`: false for null and for any other runtime
        type. */
    function EqualsObject(obj: Object<TimeString>): (r: bool)
      ensures r <==> obj.SameType? && obj.value.timeSpan == timeSpan
    {
      match obj
      case Null => false
      case SameType(other) => other == this || Equals(Some(other))
      case OtherType => false
    }

    /** `ToString` gives back the text, spacing included. */
    function ToString(): string {
      value
    }

    /** `GetHashCode` is that of the `TimeSpan`; .NET's `TimeSpan` hash is a
        parameter. */
    function GetHashCode(timeSpanHash: int -> int): int {
      timeSpanHash(timeSpan)
    }
  }

  /** `new TimeString(value)`: the duration is `Parse(value)`, whose
      exceptions escape; the text is kept as given. */
  method New(value: Option<string>) returns (r: Result<TimeString, ParseError>)
    ensures r.Ok? <==> Duration(value).Ok?
    ensures r.Err? ==> r.error == Duration(value).error
    ensures r.Ok? ==> r.value.timeSpan == Duration(value).value && r.value.ToString() == value.value
  {
    var timeSpan := Parse(value);
    if timeSpan.Err? {
      return Err(timeSpan.error);
    }
    r := Ok(TimeString(value.value, timeSpan.value));
  }

  /** `operator ==`: null equals only null. */
  function Eq(left: Option<TimeString>, right: Option<TimeString>): (r: bool)
    ensures r <==> (left.None? && right.None?) || (left.Some? && right.Some? && left.value.timeSpan == right.value.timeSpan)
  {
    if left.None? then right.None? else right.Some? && left.value.Equals(right)
  }

  /** `operator !=` */
  function NotEq(left: Option<TimeString>, right: Option<TimeString>): (r: bool)
    ensures r <==> (left.None? != right.None?) || (left.Some? && right.Some? && left.value.timeSpan != right.value.timeSpan)
  {
    !Eq(left, right)
  }

  /** TimeStrings with equal durations are equal, however they are
      spelled, and share a hash code. */
  lemma EqualDurations(x: TimeString, y: TimeString, timeSpanHash: int -> int)
    requires x.timeSpan == y.timeSpan
    ensures x.Equals(Some(y)) && x.EqualsObject(SameType(y)) && Eq(Some(x), Some(y))
    ensures x.GetHashCode(timeSpanHash) == y.GetHashCode(timeSpanHash)
  {
  }

  /** `ToString` gives back the text as written: an instance made from a
      string with white space in it equals the one made from the string
      without, but shows a different text. */
  lemma ToStringKeepsSpelling(s: string)
    requires Duration(Some(s)).Ok? && RemoveWhiteSpace(s) != s
    ensures Duration(Some(RemoveWhiteSpace(s))) == Duration(Some(s))
    ensures var x := TimeString(s, Duration(Some(s)).value);
      var y := TimeString(RemoveWhiteSpace(s), Duration(Some(s)).value);
      x.Equals(Some(y)) && x.ToString() == s && y.ToString() != x.ToString()
  {
    WhiteSpaceIgnored(s);
  }

  /** An instance equals itself and never equals null. */
  lemma EqualsReflexive(x: TimeString)
    ensures x.Equals(Some(x)) && x.EqualsObject(SameType(x))
    ensures !x.Equals(None) && !x.EqualsObject(Null) && !x.EqualsObject(OtherType)
  {
  }

}
