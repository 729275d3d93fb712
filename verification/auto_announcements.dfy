/**
 * The day/night announcement cog: the payload builder, the two manual slash
 * commands and the background loop that wakes at 08:00 and 22:00 local time.
 *
 * Sleeping is modelled as advancing a simulated clock: each iteration is a
 * pure step from the clock reading at the top of the loop to the clock
 * reading at the top of the next iteration, and the webhook is an append-only
 * log of sent payloads.
 */
module AutoAnnouncements {
  import opened WallClock

  /** The flat quiet period after every automatic announcement: 3600 seconds. */
  const QuietMicros: int := 3600 * MicrosPerSecond

  const DayBoundaryHour: int := 8
  const NightBoundaryHour: int := 22

  const Title: string := "Announcement from Monokuma"
  const Colour: int := 13632027
  const ImageUrl: string :=
    "https://cdn.discordapp.com/attachments/457939628209602560/861282169276072006/vlcsnap-2021-07-04-12h26m28s639.png"

  /** The day description: four sentences joined with no separator. */
  const DayText: string :=
    "Ahem, ahem. This is an important announcement. Wake up! It's time to greet a beautiful and shining day! Don't forget to say good morning to the sun~! It watched over you at night. It is now officially 8AM, and nighttime is officially over."

  /** The night description, joined the same way. */
  const NightText: string :=
    "Helloooo...? Helloooo? This is an important announcement. It's 10 PM, and daytime is over. As such, it is officially nighttime. Sweet dreams, everyone! Don't worry, the sun will still be there when you wake up."

  /** The fields of the embed the webhook posts. */
  datatype Embed = Embed(title: string, colour: int, image: string, description: string)

  /** The announcement payload: the day text when `day` holds, otherwise the night text. */
  function GenEmbed(day: bool := true): (e: Embed)
    ensures e.title == Title && e.colour == Colour && e.image == ImageUrl
    ensures e.description == (if day then DayText else NightText)
  {
    Embed(Title, Colour, ImageUrl, if day then DayText else NightText)
  }

  /** The two payloads differ, so a sent payload determines which phase was announced. */
  lemma GenEmbedInjective(a: bool, b: bool)
    ensures GenEmbed(a) == GenEmbed(b) <==> a == b
    ensures GenEmbed(a).title == GenEmbed(b).title
    ensures GenEmbed(a).colour == GenEmbed(b).colour
    ensures GenEmbed(a).image == GenEmbed(b).image
  {
  }

  /** An instant at which a phase begins: 08:00:00.000000 or 22:00:00.000000. */
  predicate IsBoundary(t: DateTime)
  {
    && t.Valid()
    && (t.hour == DayBoundaryHour || t.hour == NightBoundaryHour)
    && t.minute == 0 && t.second == 0 && t.microsecond == 0
  }

  /**
   * The instant the loop sleeps until, computed from the local time `now`
   * read at the top of the loop.
   */
  function NextWake(now: DateTime): (w: DateTime)
    requires now.Valid()
    ensures IsBoundary(w)
    ensures now.hour >= 22 ==> w == DateTime(now.day + 1, DayBoundaryHour, 0, 0, 0)
    ensures now.hour < 8 ==> w == DateTime(now.day, DayBoundaryHour, 0, 0, 0)
    ensures 8 <= now.hour < 22 ==> w == DateTime(now.day, NightBoundaryHour, 0, 0, 0)
    ensures ToMicros(now) < ToMicros(w) <= ToMicros(now) + 14 * MicrosPerHour
  {
    TimeOfDayBounds(now);
    if now.hour >= 22 then
      ReplaceTimeAddDays(now, 1, DayBoundaryHour)
    else if 0 <= now.hour < 8 then
      ReplaceTimeAddDays(now, 0, DayBoundaryHour)
    else
      ReplaceTimeAddDays(now, 0, NightBoundaryHour)
  }

  /**
   * The wake instant is the earliest phase boundary strictly after `now`:
   * no boundary is skipped and none is fired twice.
   */
  lemma NextWakeIsEarliestBoundary(now: DateTime, b: DateTime)
    requires now.Valid()
    requires IsBoundary(b) && ToMicros(now) < ToMicros(b)
    ensures ToMicros(NextWake(now)) <= ToMicros(b)
  {
    TimeOfDayBounds(now);
    TimeOfDayBounds(b);
    if b.day == now.day {
      assert now.hour <= b.hour;
    } else {
      assert b.day > now.day;
    }
  }

  /** Worked cases: a minute before 22:00, exactly 22:00, the small hours, and exactly 08:00. */
  lemma NextWakeExamples()
    ensures NextWake(DateTime(0, 21, 59, 0, 0)) == DateTime(0, 22, 0, 0, 0)
    ensures NextWake(DateTime(0, 22, 0, 0, 0)) == DateTime(1, 8, 0, 0, 0)
    ensures NextWake(DateTime(0, 3, 0, 0, 0)) == DateTime(0, 8, 0, 0, 0)
    ensures NextWake(DateTime(0, 8, 0, 0, 0)) == DateTime(0, 22, 0, 0, 0)
  {
  }

  /** The phase announced after waking: day exactly when the local hour is before noon. */
  predicate IsDay(t: DateTime)
  {
    t.hour < 12
  }

  /** Waking in the hour after 08:00 announces day; waking in the hour after 22:00 announces night. */
  lemma PhaseAfterWake(b: DateTime, late: int)
    requires IsBoundary(b) && 0 <= late < MicrosPerHour
    ensures IsDay(AddMicros(b, late)) <==> b.hour == DayBoundaryHour
  {
    FieldsWithinHour(ToMicros(b) + late, b.day, b.hour);
  }

  /**
   * How far past their targets the two sleeps of one iteration overshoot, in
   * microseconds: `wake` for `sleep_until`, `quiet` for the 3600 s sleep.
   */
  datatype Lateness = Lateness(wake: nat, quiet: nat)

  const Punctual: Lateness := Lateness(0, 0)

  /** One pass through the loop body. */
  datatype Iteration = Iteration(sleepTill: DateTime, woke: DateTime, day: bool, resume: DateTime)

  /**
   * The loop body started at local time `now`: compute the boundary, sleep
   * until it (waking `late.wake` late), re-read the clock, announce the phase
   * of the waking hour, then sleep 3600 s (waking `late.quiet` late).
   */
  function Step(now: DateTime, late: Lateness): (it: Iteration)
    requires now.Valid()
    ensures it.sleepTill == NextWake(now)
    ensures ToMicros(it.woke) == ToMicros(it.sleepTill) + late.wake
    ensures it.day <==> it.woke.hour < 12
    ensures ToMicros(it.resume) == ToMicros(it.woke) + QuietMicros + late.quiet
    ensures it.woke.Valid() && it.resume.Valid()
  {
    var sleepTill := NextWake(now);
    var woke := AddMicros(sleepTill, late.wake);
    Iteration(sleepTill, woke, IsDay(woke), AddMicros(woke, QuietMicros + late.quiet))
  }

  /** One announcement sent by the loop: when it was sent and which phase it announced. */
  datatype Emission = Emission(at: DateTime, day: bool)

  /** Emissions in strictly increasing time order, all after `start`. */
  ghost predicate Chronological(start: DateTime, es: seq<Emission>)
  {
    && (forall i :: 0 <= i < |es| ==> ToMicros(start) < ToMicros(es[i].at))
    && (forall i, j :: 0 <= i < j < |es| ==> ToMicros(es[i].at) < ToMicros(es[j].at))
  }

  /**
   * The announcements of `|lates|` iterations of the loop started at local
   * time `start`, the i-th iteration overshooting its sleeps by `lates[i]`.
   */
  function Run(start: DateTime, lates: seq<Lateness>): (es: seq<Emission>)
    requires start.Valid()
    ensures |es| == |lates|
    ensures Chronological(start, es)
    ensures forall i :: 0 <= i < |es| ==> es[i].at.Valid() && (es[i].day <==> es[i].at.hour < 12)
    decreases |lates|
  {
    if |lates| == 0 then []
    else
      var it := Step(start, lates[0]);
      [Emission(it.woke, it.day)] + Run(it.resume, lates[1..])
  }

  /** Each sleep overshoots by less than an hour. */
  ghost predicate SmallLateness(lates: seq<Lateness>)
  {
    forall i :: 0 <= i < |lates| ==> lates[i].wake < MicrosPerHour && lates[i].quiet < MicrosPerHour
  }

  /**
   * One iteration with small overshoot: it announces the phase of the boundary
   * it slept until, and the following iteration sleeps until the other boundary.
   */
  lemma StepAlternates(now: DateTime, late: Lateness)
    requires now.Valid()
    requires late.wake < MicrosPerHour && late.quiet < MicrosPerHour
    ensures Step(now, late).day <==> NextWake(now).hour == DayBoundaryHour
    ensures NextWake(Step(now, late).resume).hour
              == (if Step(now, late).day then NightBoundaryHour else DayBoundaryHour)
  {
    var it := Step(now, late);
    var b := it.sleepTill;
    PhaseAfterWake(b, late.wake);
    var r := ToMicros(it.resume);
    if b.hour == DayBoundaryHour {
      FieldsWithinHour(r, b.day, if r < ToMicros(b) + 2 * MicrosPerHour then 9 else 10);
    } else if r < b.day * MicrosPerDay + 24 * MicrosPerHour {
      FieldsWithinHour(r, b.day, 23);
    } else {
      FieldsWithinHour(r, b.day + 1, 0);
    }
  }

  /** Consecutive announcements are of opposite phases. */
  ghost predicate Alternating(es: seq<Emission>)
  {
    forall i :: 0 <= i < |es| - 1 ==> es[i + 1].day == !es[i].day
  }

  /** Every day announcement is sent in the 08:xx hour and every night announcement in the 22:xx hour. */
  ghost predicate InOwnBoundaryHour(es: seq<Emission>)
  {
    forall i :: 0 <= i < |es| ==> es[i].at.hour == (if es[i].day then DayBoundaryHour else NightBoundaryHour)
  }

  /** Every announcement is sent exactly on a boundary. */
  ghost predicate OnBoundaries(es: seq<Emission>)
  {
    forall i :: 0 <= i < |es| ==> IsBoundary(es[i].at)
  }

  /** Putting an announcement in front of a trace keeps each property that holds of both. */
  lemma ConsTrace(e: Emission, rest: seq<Emission>)
    ensures Alternating(rest) && (|rest| > 0 ==> rest[0].day == !e.day) ==> Alternating([e] + rest)
    ensures (InOwnBoundaryHour(rest) && e.at.hour == (if e.day then DayBoundaryHour else NightBoundaryHour))
              ==> InOwnBoundaryHour([e] + rest)
    ensures OnBoundaries(rest) && IsBoundary(e.at) ==> OnBoundaries([e] + rest)
  {
    var es := [e] + rest;
    assert forall i :: 0 < i < |es| ==> es[i] == rest[i - 1];
  }

  /** The overshoots of all iterations after the first. */
  lemma SmallLatenessTail(lates: seq<Lateness>)
    requires |lates| > 0 && SmallLateness(lates)
    ensures SmallLateness(lates[1..])
  {
    forall i | 0 <= i < |lates[1..]|
      ensures lates[1..][i].wake < MicrosPerHour && lates[1..][i].quiet < MicrosPerHour
    {
      assert lates[1..][i] == lates[i + 1];
    }
  }

  /**
   * With every sleep late by less than an hour, the loop's announcements
   * alternate between day and night, and each one is sent in the hour after
   * a boundary of its own phase.
   */
  lemma {:induction false} RunAlternates(start: DateTime, lates: seq<Lateness>)
    requires start.Valid() && SmallLateness(lates)
    ensures Alternating(Run(start, lates))
    ensures InOwnBoundaryHour(Run(start, lates))
    decreases |lates|
  {
    if |lates| > 0 {
      var it := Step(start, lates[0]);
      var e := Emission(it.woke, it.day);
      var rest := Run(it.resume, lates[1..]);
      assert Run(start, lates) == [e] + rest;
      StepAlternates(start, lates[0]);
      FieldsWithinHour(ToMicros(it.woke), it.sleepTill.day, it.sleepTill.hour);
      SmallLatenessTail(lates);
      RunAlternates(it.resume, lates[1..]);
      if |lates| > 1 {
        StepAlternates(it.resume, lates[1]);
      }
      ConsTrace(e, rest);
    }
  }

  /** Every sleep is exact. */
  ghost predicate AllPunctual(lates: seq<Lateness>)
  {
    forall i :: 0 <= i < |lates| ==> lates[i] == Punctual
  }

  /**
   * With punctual wake-ups from any start time, every announcement is sent
   * exactly at 08:00:00.000000 (day) or 22:00:00.000000 (night), and the
   * phases alternate.
   */
  lemma {:induction false} PunctualRunHitsBoundaries(start: DateTime, lates: seq<Lateness>)
    requires start.Valid() && AllPunctual(lates)
    ensures OnBoundaries(Run(start, lates))
    ensures InOwnBoundaryHour(Run(start, lates))
    ensures Alternating(Run(start, lates))
    decreases |lates|
  {
    RunAlternates(start, lates);
    if |lates| > 0 {
      var it := Step(start, lates[0]);
      var e := Emission(it.woke, it.day);
      var rest := Run(it.resume, lates[1..]);
      assert Run(start, lates) == [e] + rest;
      ToMicrosInjective(it.woke, it.sleepTill);
      assert AllPunctual(lates[1..]) by {
        forall i | 0 <= i < |lates[1..]| ensures lates[1..][i] == Punctual {
          assert lates[1..][i] == lates[i + 1];
        }
      }
      PunctualRunHitsBoundaries(it.resume, lates[1..]);
      ConsTrace(e, rest);
    }
  }

  /**
   * Started one second before 08:00 with punctual sleeps, one iteration sends
   * exactly one day announcement at 08:00 and then sleeps until 22:00.
   */
  lemma StartBeforeDawn()
    ensures Run(DateTime(0, 7, 59, 59, 0), [Punctual]) == [Emission(DateTime(0, 8, 0, 0, 0), true)]
    ensures NextWake(Step(DateTime(0, 7, 59, 59, 0), Punctual).resume) == DateTime(0, 22, 0, 0, 0)
  {
  }

  /**
   * The cog's observable state: the local time at which the background task
   * next reads the clock at the top of its loop, and every payload the
   * webhook has posted, oldest first.
   */
  datatype Cog = Cog(loopClock: DateTime, sent: seq<Embed>)

  /** The background task runs one iteration of its loop. */
  function LoopIteration(c: Cog, late: Lateness): (c': Cog)
    requires c.loopClock.Valid()
    ensures c'.loopClock.Valid() && ToMicros(c.loopClock) < ToMicros(c'.loopClock)
    ensures |c'.sent| == |c.sent| + 1 && c'.sent[..|c.sent|] == c.sent
    ensures c'.sent[|c.sent|] == GenEmbed(Step(c.loopClock, late).day)
  {
    var it := Step(c.loopClock, late);
    Cog(it.resume, c.sent + [GenEmbed(it.day)])
  }

  /** The reply to a manual slash command. */
  const Done: string := "Done!"

  /** A manual announcement: the webhook posts the payload for `day`; the loop is not touched. */
  function Announce(c: Cog, day: bool): (c': Cog)
    ensures c'.loopClock == c.loopClock
    ensures |c'.sent| == |c.sent| + 1 && c'.sent[..|c.sent|] == c.sent
    ensures c'.sent[|c.sent|] == GenEmbed(day)
  {
    Cog(c.loopClock, c.sent + [GenEmbed(day)])
  }

  /** `/run-night-announcement`: posts the night payload and replies "Done!". */
  function RunNightAnnouncement(c: Cog): (r: (Cog, string))
    ensures r.0.loopClock == c.loopClock
    ensures r.0.sent == c.sent + [GenEmbed(false)] && r.0.sent[|c.sent|].description == NightText
    ensures r.1 == Done
  {
    (Announce(c, day := false), Done)
  }

  /** `/run-day-announcement`: posts the day payload and replies "Done!". */
  function RunDayAnnouncement(c: Cog): (r: (Cog, string))
    ensures r.0.loopClock == c.loopClock
    ensures r.0.sent == c.sent + [GenEmbed(true)] && r.0.sent[|c.sent|].description == DayText
    ensures r.1 == Done
  {
    (Announce(c, day := true), Done)
  }

  /**
   * A manual announcement does not disturb the loop: whether it is sent
   * before or after the loop's next iteration, the loop resumes at the same
   * time and the webhook posts the same payloads, only in a different order.
   */
  lemma ManualCommutesWithLoop(c: Cog, day: bool, late: Lateness)
    requires c.loopClock.Valid()
    ensures LoopIteration(Announce(c, day), late).loopClock == LoopIteration(c, late).loopClock
    ensures Announce(LoopIteration(c, late), day).loopClock == LoopIteration(c, late).loopClock
    ensures multiset(LoopIteration(Announce(c, day), late).sent)
            == multiset(Announce(LoopIteration(c, late), day).sent)
  {
    var m := GenEmbed(day);
    var a := GenEmbed(Step(c.loopClock, late).day);
    var first := LoopIteration(Announce(c, day), late).sent;
    var second := Announce(LoopIteration(c, late), day).sent;
    assert first == c.sent + [m] + [a];
    assert second == c.sent + [a] + [m];
  }
}
