/** livebarn.py: where in a rink's LiveBarn recording a goal or penalty can be found. Instants are
    whole seconds counted from a midnight, so the minute of an instant t is (t / 60) % 60. */
module Livebarn {
  import opened Wrappers
  import opened Text

  /** LIVEBARN_RINKS: the LiveBarn surface id of each rink. */
  const LivebarnRinks: map<string, int> :=
    map["San Jose South" := 547, "San Jose North" := 546, "San Jose East" := 548, "San Jose Center" := 549]

  /** The default length of a period in the estimate, in minutes. */
  const PeriodMinutes: int := 22

  /** The warm-up before the first period, in seconds. */
  const WarmupSeconds: int := 5 * 60

  // ---------------------------------------------------------------------------
  // time_in_seconds

  /** How a part of the clock text is read: float(), on whole numbers. */
  type NumberReader = string -> Option<int>

  /** The arithmetic of time_in_seconds over a given reader of the parts. */
  function ClockSeconds(gameTime: string, read: NumberReader): Option<int> {
    var parts := SplitOnce(gameTime, ':');
    if |parts| == 1 then read(parts[0])
    else
      var minutes := read(parts[0]);
      var seconds := read(parts[1]);
      if minutes.None? || seconds.None? then None
      else Some(minutes.value * 60 + seconds.value)
  }

  /** time_in_seconds: "ss" or "mm:ss" (split at the first ':') as a number of seconds; None where
      float() rejects a part. */
  function TimeInSeconds(gameTime: string): Option<int> {
    ClockSeconds(gameTime, ParseInt)
  }

  lemma ParseNat(n: nat)
    ensures ParseInt(NatToString(n)) == Some(n)
    ensures ':' !in NatToString(n)
  {
    ParseIntOfIntToString(n);
    var d := NatToString(n);
    forall i | 0 <= i < |d|
      ensures d[i] != ':'
    {
      assert IsDigit(d[i]);
    }
  }

  lemma ClockOfNumbers(read: NumberReader, m: nat, s: nat)
    requires read(NatToString(m)) == Some(m) && read(NatToString(s)) == Some(s)
    requires ':' !in NatToString(m) && ':' !in NatToString(s)
    ensures ClockSeconds(NatToString(s), read) == Some(s)
    ensures ClockSeconds(NatToString(m) + ":" + NatToString(s), read) == Some(60 * m + s)
  {
    SplitOnceAt(NatToString(m), ':', NatToString(s));
    assert NatToString(m) + ":" + NatToString(s) == NatToString(m) + [':'] + NatToString(s);
  }

  /** A bare number of seconds reads as itself, and "mm:ss" as 60 * mm + ss. */
  lemma MinutesAndSeconds(m: nat, s: nat)
    ensures TimeInSeconds(NatToString(s)) == Some(s)
    ensures TimeInSeconds(NatToString(m) + ":" + NatToString(s)) == Some(60 * m + s)
  {
    ParseNat(m);
    ParseNat(s);
    ClockOfNumbers(ParseInt, m, s);
  }

  lemma ClockFails(gameTime: string, read: NumberReader)
    ensures ClockSeconds(gameTime, read).None? <==>
              (var parts := SplitOnce(gameTime, ':');
               exists i :: 0 <= i < |parts| && read(parts[i]).None?)
  {
    var parts := SplitOnce(gameTime, ':');
    if |parts| == 2 && read(parts[1]).None? {
      assert read(parts[1]).None?;
    }
  }

  /** The clock text is rejected exactly when one of its parts is not a number. */
  lemma TimeInSecondsFails(gameTime: string)
    ensures TimeInSeconds(gameTime).None? <==>
              (var parts := SplitOnce(gameTime, ':');
               exists i :: 0 <= i < |parts| && ParseInt(parts[i]).None?)
  {
    ClockFails(gameTime, ParseInt);
  }

  // ---------------------------------------------------------------------------
  // _estimate_time

  /** _estimate_time: the game start, the warm-up, the periods already played, and the part of
      the current period that has run when the clock shows timeRemaining. */
  function EstimateTime(start: int, period: int, timeRemaining: string, periodMinutes: int): (r: Option<int>)
    ensures r.Some? <==> TimeInSeconds(timeRemaining).Some?
    ensures r.Some? ==> r.value == EstimateAt(start, period, TimeInSeconds(timeRemaining).value, periodMinutes)
  {
    var remaining := TimeInSeconds(timeRemaining);
    if remaining.None? then None
    else Some(EstimateAt(start, period, remaining.value, periodMinutes))
  }

  /** The arithmetic of _estimate_time once the clock has been read. */
  function EstimateAt(start: int, period: int, remaining: int, periodMinutes: int): int {
    var length := periodMinutes * 60;
    start + WarmupSeconds + length * (period - 1) + (length - remaining)
  }

  /** The estimate is start + 5 min + (period - 1) * P + (P - remaining), P the period length. */
  lemma EstimateFormula(start: int, period: int, remaining: int, periodMinutes: int)
    ensures EstimateAt(start, period, remaining, periodMinutes)
            == start + 5 * 60 + (period - 1) * (periodMinutes * 60) + periodMinutes * 60 - remaining
  {
    var length := periodMinutes * 60;
    assert length * (period - 1) == (period - 1) * length;
  }

  /** With a full first period still to play, the estimate is the end of the warm-up. */
  lemma EstimateAtFaceOff(start: int, timeRemaining: string, periodMinutes: int)
    requires TimeInSeconds(timeRemaining) == Some(periodMinutes * 60)
    ensures EstimateTime(start, 1, timeRemaining, periodMinutes) == Some(start + 5 * 60)
  {
    assert EstimateAt(start, 1, periodMinutes * 60, periodMinutes) == start + 5 * 60;
  }

  /** Less time on the clock is later in the period. */
  lemma EstimateMonotone(start: int, period: int, t1: string, t2: string, periodMinutes: int)
    requires TimeInSeconds(t1).Some? && TimeInSeconds(t2).Some?
    requires TimeInSeconds(t1).value < TimeInSeconds(t2).value
    ensures EstimateTime(start, period, t1, periodMinutes).value > EstimateTime(start, period, t2, periodMinutes).value
  {
  }

  /** The same clock one period later is one period length later. */
  lemma EstimateNextPeriod(start: int, period: int, timeRemaining: string, periodMinutes: int)
    requires TimeInSeconds(timeRemaining).Some?
    ensures EstimateTime(start, period + 1, timeRemaining, periodMinutes).value
            == EstimateTime(start, period, timeRemaining, periodMinutes).value + periodMinutes * 60
  {
    var length := periodMinutes * 60;
    assert length * period == length * (period - 1) + length;
  }

  // ---------------------------------------------------------------------------
  // get_livebarn_url

  /** The two values the LiveBarn link carries: the begin date to the minute (a count of minutes,
      as strftime('%Y-%m-%dT%H:%M') writes it) and the surface id. */
  datatype LivebarnLink = LivebarnLink(beginMinute: int, sid: int)

  datatype LinkError =
    | BadClock(text: string)   // ValueError from time_in_seconds
    | UnknownRink(rink: string) // KeyError from LIVEBARN_RINKS

  function Minute(t: int): int {
    (t / 60) % 60
  }

  /** get_livebarn_url: the rink's surface id and the instant moved back to the last half hour
      (only its minute changes; strftime then drops the seconds). */
  function LivebarnUrl(date: int, rink: string): (r: Result<LivebarnLink, LinkError>)
    ensures r.Err? <==> rink !in LivebarnRinks
    ensures r.Err? ==> r.error == UnknownRink(rink)
    ensures r.Ok? ==> && r.value.sid == LivebarnRinks[rink]
                      && r.value.beginMinute % 30 == 0
                      && r.value.beginMinute * 60 <= date < r.value.beginMinute * 60 + 30 * 60
  {
    if rink !in LivebarnRinks then Err(UnknownRink(rink))
    else
      var sid := LivebarnRinks[rink];
      HalfHourBackBounds(date);
      Ok(LivebarnLink(HalfHourBack(date) / 60, sid))
  }

  /** The instant with its minute moved back to the last half hour, seconds kept. */
  function HalfHourBack(date: int): int {
    if Minute(date) % 30 != 0 then date - (Minute(date) % 30) * 60 else date
  }

  /** The instant moved back starts a half hour within which the original instant falls. */
  lemma HalfHourBackBounds(date: int)
    ensures HalfHourBack(date) / 60 % 30 == 0
    ensures HalfHourBack(date) / 60 * 60 <= date < HalfHourBack(date) / 60 * 60 + 30 * 60
  {
    var b := date / 60 - Minute(date) % 30;
    assert HalfHourBack(date) == 60 * b + date % 60;
    MinuteDiv(b, date % 60);
    HalfHourMultiple(date / 60);
  }

  lemma MinuteDiv(b: int, sec: int)
    requires 0 <= sec < 60
    ensures (60 * b + sec) / 60 == b
  {
  }

  lemma HalfHourMultiple(q: int)
    ensures (q - q % 60 % 30) % 30 == 0
  {
    var r := q % 60;
    var k := r % 30;
    assert q == 60 * (q / 60) + r;
    assert r == 30 * (r / 30) + k;
    var x := 2 * (q / 60) + r / 30;
    assert q - k == 30 * x;
    ThirtyMultiple(x);
  }

  lemma ThirtyMultiple(x: int)
    ensures (30 * x) % 30 == 0
  {
  }

  /** An instant already on a half hour keeps its minute. */
  lemma LivebarnUrlOnHalfHour(date: int, rink: string)
    requires rink in LivebarnRinks && Minute(date) % 30 == 0
    ensures LivebarnUrl(date, rink) == Ok(LivebarnLink(date / 60, LivebarnRinks[rink]))
  {
  }

  // ---------------------------------------------------------------------------
  // add_livebarn_links

  /** A goal or a penalty of a game's data: its period, the clock reading the estimate uses
      ('time' for a goal, 'off_ice_time' for a penalty), the link once added, and its other
      fields. */
  datatype Event = Event(period: int, clock: string, livebarn: Option<LivebarnLink>, rest: map<string, string>)

  /** One event with its 'livebarn' entry set, as add_livebarn_links computes it. */
  function Annotate(start: int, rink: string, e: Event): (r: Result<Event, LinkError>)
    ensures r.Ok? ==> r.value == e.(livebarn := r.value.livebarn) && r.value.livebarn.Some?
    ensures r.Ok? <==> TimeInSeconds(e.clock).Some? && rink in LivebarnRinks
  {
    var estimate := EstimateTime(start, e.period, e.clock, PeriodMinutes);
    if estimate.None? then Err(BadClock(e.clock))
    else
      var url := LivebarnUrl(estimate.value, rink);
      if url.Err? then Err(url.error) else Ok(e.(livebarn := Some(url.value)))
  }

  /** The link of a goal or penalty points at the rink's surface, at the half hour at or before
      the event's estimated time. */
  lemma AnnotateLink(start: int, rink: string, e: Event)
    requires Annotate(start, rink, e).Ok?
    ensures var link := Annotate(start, rink, e).value.livebarn.value;
            var t := EstimateTime(start, e.period, e.clock, PeriodMinutes).value;
            link.sid == LivebarnRinks[rink] && link.beginMinute % 30 == 0 &&
            link.beginMinute * 60 <= t < link.beginMinute * 60 + 30 * 60
  {
  }

  /** What setting the link of one event gives. */
  type Annotator = Event -> Result<Event, LinkError>

  predicate AllAnnotate(annotate: Annotator, es: seq<Event>) {
    forall i :: 0 <= i < |es| ==> annotate(es[i]).Ok?
  }

  /** Sets the 'livebarn' entry of each event in turn; the first event that raises stops the
      loop, leaving the events before it annotated and the rest untouched. */
  method AnnotateAll(annotate: Annotator, events: array<Event>) returns (r: Result<(), LinkError>)
    modifies events
    ensures r.Ok? <==> AllAnnotate(annotate, old(events[..]))
    ensures r.Ok? ==> forall i :: 0 <= i < events.Length ==> annotate(old(events[i])) == Ok(events[i])
    ensures r.Err? ==> exists k :: (&& 0 <= k < events.Length
                                    && annotate(old(events[k])) == Err(r.error)
                                    && (forall i :: 0 <= i < k ==> annotate(old(events[i])) == Ok(events[i]))
                                    && (forall i :: k <= i < events.Length ==> events[i] == old(events[i])))
  {
    var i := 0;
    while i < events.Length
      invariant 0 <= i <= events.Length
      invariant forall j :: 0 <= j < i ==> annotate(old(events[j])) == Ok(events[j])
      invariant forall j :: i <= j < events.Length ==> events[j] == old(events[j])
    {
      var a := annotate(events[i]);
      if a.Err? {
        assert !AllAnnotate(annotate, old(events[..])) by {
          assert old(events[..])[i] == old(events[i]);
        }
        return Err(a.error);
      }
      events[i] := a.value;
      i := i + 1;
    }
    assert forall j :: 0 <= j < events.Length ==> old(events[..])[j] == old(events[j]);
    return Ok(());
  }

  /** add_livebarn_links: first every goal, then every penalty, gets its link; a bad clock or an
      unknown rink raises at the first event it reaches, with that event's error. The events
      before it keep the links already written in place, the rest are untouched. The lists keep
      their lengths (arrays) and every event keeps its other fields (Annotate). */
  method AddLivebarnLinks(start: int, rink: string, goals: array<Event>, penalties: array<Event>) returns (r: Result<(), LinkError>)
    requires goals != penalties
    modifies goals, penalties
    ensures r.Ok? <==> AllAnnotate(e => Annotate(start, rink, e), old(goals[..])) &&
                       AllAnnotate(e => Annotate(start, rink, e), old(penalties[..]))
    ensures r.Ok? ==> && (forall i :: 0 <= i < goals.Length ==> Annotate(start, rink, old(goals[i])) == Ok(goals[i]))
                      && (forall i :: 0 <= i < penalties.Length ==> Annotate(start, rink, old(penalties[i])) == Ok(penalties[i]))
    ensures !AllAnnotate(e => Annotate(start, rink, e), old(goals[..])) ==> penalties[..] == old(penalties[..])
    ensures AllAnnotate(e => Annotate(start, rink, e), old(goals[..])) ==>
              forall i :: 0 <= i < goals.Length ==> Annotate(start, rink, old(goals[i])) == Ok(goals[i])
    ensures r.Err? && !AllAnnotate(e => Annotate(start, rink, e), old(goals[..])) ==>
              exists k :: (&& 0 <= k < goals.Length
                           && Annotate(start, rink, old(goals[k])) == Err(r.error)
                           && (forall i :: 0 <= i < k ==> Annotate(start, rink, old(goals[i])) == Ok(goals[i]))
                           && (forall i :: k <= i < goals.Length ==> goals[i] == old(goals[i])))
    ensures r.Err? && AllAnnotate(e => Annotate(start, rink, e), old(goals[..])) ==>
              exists k :: (&& 0 <= k < penalties.Length
                           && Annotate(start, rink, old(penalties[k])) == Err(r.error)
                           && (forall i :: 0 <= i < k ==> Annotate(start, rink, old(penalties[i])) == Ok(penalties[i]))
                           && (forall i :: k <= i < penalties.Length ==> penalties[i] == old(penalties[i])))
  {
    r := AnnotateAll(e => Annotate(start, rink, e), goals);
    if r.Err? {
      return;
    }
    r := AnnotateAll(e => Annotate(start, rink, e), penalties);
  }
}
