/**
  common/Utilities.java: the archive description and the progress logger.

  The logger's console output is returned as a sequence of marks: "Started..."
  is `StartedMark`, "<p>%..." is `PercentMark(p)` and "Done!" is `DoneMark`.
  The `double` division and `Math.round` of the source are modelled in exact
  integer arithmetic (`CompletionPercent`).
*/
module Utilities {
  import opened Strings
  import Archive

  const BACKUP_DESCRIPTION_PREFIX: string := "Glacier backup of "

  /** The description stored with an uploaded archive: the fixed prefix followed by the path, unchanged. */
  function GenerateArchiveDescription(archivePath: string): (description: string)
    ensures StartsWith(description, BACKUP_DESCRIPTION_PREFIX)
    ensures description[|BACKUP_DESCRIPTION_PREFIX|..] == archivePath
  {
    BACKUP_DESCRIPTION_PREFIX + archivePath
  }

  datatype ProgressEventType = TransferStartedEvent | TransferCompletedEvent | OtherEvent

  /** The SDK's `ProgressEvent`: its type and the number of bytes it reports. */
  datatype ProgressEvent = ProgressEvent(eventType: ProgressEventType, bytesTransferred: int)

  /** What one call of `logProgress` prints. */
  datatype Mark = StartedMark | PercentMark(percent: int) | DoneMark

  /** The two mutable fields of a `ProgressLogger`. */
  datatype LoggerState = LoggerState(transferredBytes: int, lastLoggedCompletionPercent: int)

  /** A fresh logger has transferred nothing and has logged no percentage (the sentinel -1). */
  const INITIAL_STATE: LoggerState := LoggerState(0, -1)

  /** `Math.round` saturates at the bounds of `long`. */
  function ClampToLong(x: int): int {
    if x < Archive.LONG_MIN then Archive.LONG_MIN
    else if x > Archive.LONG_MAX then Archive.LONG_MAX
    else x
  }

  /**
    `Math.round((double) transferred / (double) total * 100)` in exact
    arithmetic: the nearest integer to 100 * transferred / total with halves
    rounded up. A zero total divides to an infinity (rounded to the `long`
    bound of its sign) or, for zero bytes, to NaN (rounded to 0).
  */
  function CompletionPercent(transferred: int, total: int): int {
    if total > 0 then ClampToLong((200 * transferred + total) / (2 * total))
    else if total < 0 then ClampToLong((-200 * transferred - total) / (-2 * total))
    else if transferred > 0 then Archive.LONG_MAX
    else if transferred < 0 then Archive.LONG_MIN
    else 0
  }

  lemma MulLeftMono(d: int, x: int, y: int)
    requires d >= 0 && x <= y
    ensures d * x <= d * y
  {}

  lemma DivUnique(n: int, d: int, q: int)
    requires d > 0 && d * q <= n < d * q + d
    ensures n / d == q
  {
    var q' := n / d;
    if q' > q { MulLeftMono(d, q + 1, q'); }
    if q' < q { MulLeftMono(d, q' + 1, q); }
  }

  lemma DivMono(a: int, b: int, d: int)
    requires d > 0 && a <= b
    ensures a / d <= b / d
  {
    if a / d > b / d { MulLeftMono(d, b / d + 1, a / d); }
  }

  /** For a positive total and a transfer within it, the percentage is the rounded ratio and lies in 0..100. */
  lemma CompletionPercentRounds(transferred: int, total: int)
    requires total > 0 && 0 <= transferred <= total
    ensures var p := CompletionPercent(transferred, total);
      0 <= p <= 100 &&
      2 * total * p <= 200 * transferred + total < 2 * total * (p + 1)
    ensures transferred == total ==> CompletionPercent(transferred, total) == 100
  {
    var n, d := 200 * transferred + total, 2 * total;
    DivMono(0, n, d);
    DivMono(n, 202 * total - 1, d);
    DivUnique(202 * total - 1, d, 100);
    if transferred == total {
      DivUnique(n, d, 100);
    }
  }

  /** For a positive total, more bytes never give a smaller percentage. */
  lemma CompletionPercentMonotone(t1: int, t2: int, total: int)
    requires total > 0 && t1 <= t2
    ensures CompletionPercent(t1, total) <= CompletionPercent(t2, total)
  {
    DivMono(200 * t1 + total, 200 * t2 + total, 2 * total);
  }

  /** The percentages that a sequence of marks reports, in order. */
  function Milestones(marks: seq<Mark>): seq<int> {
    if marks == [] then []
    else (if marks[0].PercentMark? then [marks[0].percent] else []) + Milestones(marks[1..])
  }

  lemma {:induction false} MilestonesConcat(a: seq<Mark>, b: seq<Mark>)
    ensures Milestones(a + b) == Milestones(a) + Milestones(b)
  {
    if a != [] {
      assert (a + b)[0] == a[0];
      assert (a + b)[1..] == a[1..] + b;
      MilestonesConcat(a[1..], b);
    } else {
      assert a + b == b;
    }
  }

  /**
    A nonzero delta that lands on a multiple of five equal to the last logged
    percentage: `logProgress` returns early, before the completion marker.
  */
  predicate RepeatsMilestone(total: int, s: LoggerState, e: ProgressEvent) {
    var p := CompletionPercent(s.transferredBytes + e.bytesTransferred, total);
    e.bytesTransferred != 0 && p % 5 == 0 && p == s.lastLoggedCompletionPercent
  }

  /**
    One call of `logProgress` on a logger for `total` bytes in state `s`: the
    new state and what is printed.
  */
  function Step(total: int, s: LoggerState, e: ProgressEvent): (r: (LoggerState, seq<Mark>))
    ensures r.0.transferredBytes == s.transferredBytes + e.bytesTransferred
    ensures r.0.lastLoggedCompletionPercent == s.lastLoggedCompletionPercent
         || r.0.lastLoggedCompletionPercent == CompletionPercent(r.0.transferredBytes, total)
  {
    var started := if e.eventType == TransferStartedEvent then [StartedMark] else [];
    var done := if e.eventType == TransferCompletedEvent then [DoneMark] else [];
    if e.bytesTransferred == 0 then (s, started + done)
    else
      var t := s.transferredBytes + e.bytesTransferred;
      var p := CompletionPercent(t, total);
      if p % 5 != 0 then (LoggerState(t, s.lastLoggedCompletionPercent), started + done)
      else if p == s.lastLoggedCompletionPercent then (LoggerState(t, s.lastLoggedCompletionPercent), started)
      else (LoggerState(t, p), started + [PercentMark(p)] + done)
  }

  /** What one `logProgress` call does, stated as properties of its effect. */
  lemma StepSpec(total: int, s: LoggerState, e: ProgressEvent)
    ensures var r := Step(total, s, e);
      var ms := Milestones(r.1);
      // a zero-byte event changes nothing and reports no percentage
      && (e.bytesTransferred == 0 ==> r.0 == s && ms == [])
      // a nonzero event adds its bytes
      && (e.bytesTransferred != 0 ==> r.0.transferredBytes == s.transferredBytes + e.bytesTransferred)
      // a percentage is reported exactly when a nonzero delta reaches a multiple of five other than the last logged one
      && ((e.bytesTransferred != 0
           && CompletionPercent(s.transferredBytes + e.bytesTransferred, total) % 5 == 0
           && !RepeatsMilestone(total, s, e)) <==> ms != [])
      // ... it is the rounded ratio and becomes the last logged percentage
      && (ms != [] ==>
            && ms == [r.0.lastLoggedCompletionPercent]
            && r.0.lastLoggedCompletionPercent % 5 == 0
            && r.0.lastLoggedCompletionPercent != s.lastLoggedCompletionPercent
            && r.0.lastLoggedCompletionPercent == CompletionPercent(r.0.transferredBytes, total))
      && (ms == [] ==> r.0.lastLoggedCompletionPercent == s.lastLoggedCompletionPercent)
  {
    var started := if e.eventType == TransferStartedEvent then [StartedMark] else [];
    var done := if e.eventType == TransferCompletedEvent then [DoneMark] else [];
    assert Milestones(started) == [] by {
      if started != [] { assert started[1..] == []; }
    }
    assert Milestones(done) == [] by {
      if done != [] { assert done[1..] == []; }
    }
    MilestonesConcat(started, done);
    if e.bytesTransferred != 0 {
      var t := s.transferredBytes + e.bytesTransferred;
      var p := CompletionPercent(t, total);
      if p % 5 != 0 {
        assert Step(total, s, e) == (LoggerState(t, s.lastLoggedCompletionPercent), started + done);
      } else if p == s.lastLoggedCompletionPercent {
        assert RepeatsMilestone(total, s, e);
        assert Step(total, s, e) == (LoggerState(t, s.lastLoggedCompletionPercent), started);
      } else {
        assert Step(total, s, e) == (LoggerState(t, p), started + [PercentMark(p)] + done);
        assert Milestones([PercentMark(p)]) == [p] by { assert [PercentMark(p)][1..] == []; }
        MilestonesConcat(started, [PercentMark(p)]);
        MilestonesConcat(started + [PercentMark(p)], done);
      }
    } else {
      assert Step(total, s, e) == (s, started + done);
    }
  }

  /**
    The markers one `logProgress` call prints: one start marker per start
    event; the completion marker is lost on an early return.
  */
  lemma StepMarkers(total: int, s: LoggerState, e: ProgressEvent)
    ensures var r := Step(total, s, e);
      && multiset(r.1)[StartedMark] == (if e.eventType == TransferStartedEvent then 1 else 0)
      && multiset(r.1)[DoneMark]
           == (if e.eventType == TransferCompletedEvent && !RepeatsMilestone(total, s, e) then 1 else 0)
  {
    var started := if e.eventType == TransferStartedEvent then [StartedMark] else [];
    var done := if e.eventType == TransferCompletedEvent then [DoneMark] else [];
    var t := s.transferredBytes + e.bytesTransferred;
    var p := CompletionPercent(t, total);
    var marks := Step(total, s, e).1;
    if RepeatsMilestone(total, s, e) {
      assert marks == started + [];
      MarkerCounts(e.eventType, [], false);
    } else if e.bytesTransferred == 0 || p % 5 != 0 {
      assert marks == started + [] + done;
      MarkerCounts(e.eventType, [], true);
    } else {
      assert marks == started + [PercentMark(p)] + done;
      MarkerCounts(e.eventType, [PercentMark(p)], true);
    }
  }

  /** The start and completion markers around the percentage marks of one call. */
  lemma MarkerCounts(t: ProgressEventType, middle: seq<Mark>, withDone: bool)
    requires forall k :: 0 <= k < |middle| ==> middle[k].PercentMark?
    ensures var started := if t == TransferStartedEvent then [StartedMark] else [];
      var done := if t == TransferCompletedEvent then [DoneMark] else [];
      var marks := if withDone then started + middle + done else started + middle;
      && multiset(marks)[StartedMark] == (if t == TransferStartedEvent then 1 else 0)
      && multiset(marks)[DoneMark] == (if withDone && t == TransferCompletedEvent then 1 else 0)
  {
    var started := if t == TransferStartedEvent then [StartedMark] else [];
    var done := if t == TransferCompletedEvent then [DoneMark] else [];
    assert StartedMark !in middle && DoneMark !in middle;
    assert multiset(started + middle + done) == multiset(started) + multiset(middle) + multiset(done);
    assert multiset(started + middle) == multiset(started) + multiset(middle);
  }

  /** The bytes a sequence of events reports, added up. */
  function TotalBytes(events: seq<ProgressEvent>): int {
    if events == [] then 0 else TotalBytes(events[..|events| - 1]) + events[|events| - 1].bytesTransferred
  }

  /** The logger driven through a whole transfer: `Step` applied to each event in order. */
  function Run(total: int, s: LoggerState, events: seq<ProgressEvent>): (r: (LoggerState, seq<Mark>))
    ensures r.0.transferredBytes == s.transferredBytes + TotalBytes(events)
    decreases |events|
  {
    if events == [] then (s, [])
    else
      var before := Run(total, s, events[..|events| - 1]);
      var after := Step(total, before.0, events[|events| - 1]);
      (after.0, before.1 + after.1)
  }

  predicate StrictlyIncreasing(xs: seq<int>) {
    forall i, j :: 0 <= i < j < |xs| ==> xs[i] < xs[j]
  }

  /** Percentages reported in increasing order, each a multiple of five in the range `lo` (excluded) to `hi`. */
  predicate IncreasingMilestones(ms: seq<int>, lo: int, hi: int) {
    && StrictlyIncreasing(ms)
    && (forall k :: 0 <= k < |ms| ==> ms[k] % 5 == 0 && lo < ms[k] <= hi)
  }

  /** The logger's invariant under positive deltas: nothing logged lies beyond the current percentage. */
  predicate LoggedWithinProgress(total: int, s: LoggerState) {
    s.lastLoggedCompletionPercent <= CompletionPercent(s.transferredBytes, total)
  }

  /** One positive delta keeps the invariant and reports at most one percentage, above the last logged one. */
  lemma PositiveStep(total: int, s: LoggerState, e: ProgressEvent)
    requires total > 0 && e.bytesTransferred > 0 && LoggedWithinProgress(total, s)
    ensures var r := Step(total, s, e);
      && LoggedWithinProgress(total, r.0)
      && r.0.transferredBytes > s.transferredBytes
      && CompletionPercent(s.transferredBytes, total) <= CompletionPercent(r.0.transferredBytes, total)
      && (|| (Milestones(r.1) == [] && r.0.lastLoggedCompletionPercent == s.lastLoggedCompletionPercent)
          || (Milestones(r.1) == [r.0.lastLoggedCompletionPercent]
              && r.0.lastLoggedCompletionPercent % 5 == 0
              && s.lastLoggedCompletionPercent < r.0.lastLoggedCompletionPercent
              && r.0.lastLoggedCompletionPercent == CompletionPercent(r.0.transferredBytes, total)))
  {
    StepSpec(total, s, e);
    var r := Step(total, s, e);
    CompletionPercentMonotone(s.transferredBytes, r.0.transferredBytes, total);
  }

  lemma IncreasingMilestonesExtend(ms: seq<int>, x: int, lo: int, hi: int, hi': int)
    requires IncreasingMilestones(ms, lo, hi) && hi <= hi'
    requires x % 5 == 0 && x <= hi'
    requires if ms == [] then lo < x else ms[|ms| - 1] < x
    ensures IncreasingMilestones(ms + [x], lo, hi')
  {
    var ms' := ms + [x];
    forall i, j | 0 <= i < j < |ms'| ensures ms'[i] < ms'[j] {
      if j == |ms'| - 1 && i < |ms| - 1 {
        assert ms'[i] == ms[i] < ms[|ms| - 1];
      }
    }
  }

  /**
    With a positive total and only positive deltas, the reported percentages
    are multiples of five, strictly increasing (so never repeated), above the
    percentage logged before, and no larger than the final percentage; the
    last one reported is the logger's new `lastLoggedCompletionPercent`.
  */
  lemma {:induction false} MilestonesIncrease(total: int, s: LoggerState, events: seq<ProgressEvent>)
    requires total > 0
    requires forall i :: 0 <= i < |events| ==> events[i].bytesTransferred > 0
    requires LoggedWithinProgress(total, s)
    ensures var r := Run(total, s, events);
      var ms := Milestones(r.1);
      && IncreasingMilestones(ms, s.lastLoggedCompletionPercent, CompletionPercent(r.0.transferredBytes, total))
      && r.0.lastLoggedCompletionPercent == (if ms == [] then s.lastLoggedCompletionPercent else ms[|ms| - 1])
      && LoggedWithinProgress(total, r.0)
      && r.0.transferredBytes >= s.transferredBytes
    decreases |events|
  {
    if events != [] {
      var prefix := events[..|events| - 1];
      var e := events[|events| - 1];
      MilestonesIncrease(total, s, prefix);
      var before := Run(total, s, prefix);
      var after := Step(total, before.0, e);
      assert Run(total, s, events) == (after.0, before.1 + after.1);
      PositiveStep(total, before.0, e);
      MilestonesConcat(before.1, after.1);
      var ms1, ms2 := Milestones(before.1), Milestones(after.1);
      var hi, hi' := CompletionPercent(before.0.transferredBytes, total), CompletionPercent(after.0.transferredBytes, total);
      if ms2 != [] {
        IncreasingMilestonesExtend(ms1, after.0.lastLoggedCompletionPercent, s.lastLoggedCompletionPercent, hi, hi');
      } else {
        assert ms1 + ms2 == ms1;
      }
    }
  }

  /**
    A transfer of a positive total, delivered in positive chunks that add up
    to the total, reports multiples of five between 0 and 100 in strictly
    increasing order, and its last report is 100.
  */
  lemma CompleteTransferEndsAtHundred(total: int, events: seq<ProgressEvent>)
    requires total > 0 && events != []
    requires forall i :: 0 <= i < |events| ==> events[i].bytesTransferred > 0
    requires Run(total, INITIAL_STATE, events).0.transferredBytes == total
    ensures var ms := Milestones(Run(total, INITIAL_STATE, events).1);
      IncreasingMilestones(ms, -1, 100) && ms != [] && ms[|ms| - 1] == 100
  {
    assert LoggedWithinProgress(total, INITIAL_STATE) by { CompletionPercentRounds(0, total); }
    MilestonesIncrease(total, INITIAL_STATE, events);
    CompletionPercentRounds(total, total);
    var prefix := events[..|events| - 1];
    var e := events[|events| - 1];
    var before := Run(total, INITIAL_STATE, prefix);
    assert Run(total, INITIAL_STATE, events).0 == Step(total, before.0, e).0;
    StepReachingHundred(total, before.0, e);
  }

  /** A nonzero delta that brings the percentage to 100 leaves 100 as the last logged percentage. */
  lemma StepReachingHundred(total: int, s: LoggerState, e: ProgressEvent)
    requires e.bytesTransferred != 0
    requires CompletionPercent(Step(total, s, e).0.transferredBytes, total) == 100
    ensures Step(total, s, e).0.lastLoggedCompletionPercent == 100
  {
    StepSpec(total, s, e);
  }

  /** The number of events of type `t`. */
  function CountEvents(events: seq<ProgressEvent>, t: ProgressEventType): nat {
    if events == [] then 0
    else CountEvents(events[..|events| - 1], t) + (if events[|events| - 1].eventType == t then 1 else 0)
  }

  /**
    Each start event prints exactly one start marker; each completion event
    prints exactly one completion marker when completion events carry no
    bytes (with bytes, the early return can swallow it).
  */
  lemma {:induction false} MarkersFollowEvents(total: int, s: LoggerState, events: seq<ProgressEvent>)
    ensures multiset(Run(total, s, events).1)[StartedMark] == CountEvents(events, TransferStartedEvent)
    ensures (forall i :: 0 <= i < |events| && events[i].eventType == TransferCompletedEvent
               ==> events[i].bytesTransferred == 0)
      ==> multiset(Run(total, s, events).1)[DoneMark] == CountEvents(events, TransferCompletedEvent)
    decreases |events|
  {
    if events != [] {
      var prefix := events[..|events| - 1];
      MarkersFollowEvents(total, s, prefix);
      var before := Run(total, s, prefix);
      var after := Step(total, before.0, events[|events| - 1]);
      StepMarkers(total, before.0, events[|events| - 1]);
      assert multiset(before.1 + after.1) == multiset(before.1) + multiset(after.1);
    }
  }

  /**
    The early return swallows the completion marker: a logger for 1000 bytes
    logs 100% after 996 bytes, and a completion event carrying the last 4
    bytes prints nothing.
  */
  lemma CompletionMarkerSwallowed()
    ensures Run(1000, INITIAL_STATE,
                [ProgressEvent(OtherEvent, 996), ProgressEvent(TransferCompletedEvent, 4)]).1
         == [PercentMark(100)]
  {
    var events := [ProgressEvent(OtherEvent, 996), ProgressEvent(TransferCompletedEvent, 4)];
    assert events[..1] == [ProgressEvent(OtherEvent, 996)];
    assert events[..1][..0] == [];
    assert CompletionPercent(996, 1000) == 100;
    assert CompletionPercent(1000, 1000) == 100;
  }

  /** `Utilities.ProgressLogger`; the copy nested in GlUpload.java is identical and modelled by this class too. */
  class ProgressLogger {
    const totalBytes: int
    var transferredBytes: int
    var lastLoggedCompletionPercent: int

    function State(): LoggerState
      reads this
    {
      LoggerState(transferredBytes, lastLoggedCompletionPercent)
    }

    constructor (totalBytes: int)
      ensures this.totalBytes == totalBytes
      ensures State() == INITIAL_STATE
    {
      this.totalBytes := totalBytes;
      transferredBytes := 0;
      lastLoggedCompletionPercent := -1;
    }

    /** `logProgress`: updates the two fields and returns what it prints. */
    method LogProgress(progressEvent: ProgressEvent) returns (printed: seq<Mark>)
      modifies this
      ensures State() == Step(totalBytes, old(State()), progressEvent).0
      ensures printed == Step(totalBytes, old(State()), progressEvent).1
    {
      printed := [];
      if progressEvent.eventType == TransferStartedEvent {
        printed := printed + [StartedMark];
      }
      if progressEvent.bytesTransferred != 0 {
        transferredBytes := transferredBytes + progressEvent.bytesTransferred;
        var completionPercent := CompletionPercent(transferredBytes, totalBytes);
        if completionPercent % 5 == 0 {
          if completionPercent == lastLoggedCompletionPercent {
            return;
          }
          printed := printed + [PercentMark(completionPercent)];
          lastLoggedCompletionPercent := completionPercent;
        }
      }
      if progressEvent.eventType == TransferCompletedEvent {
        printed := printed + [DoneMark];
      }
    }
  }

  /**
    The transfer manager invoking the `progressLogger::logProgress` callback
    once per event, in order; returns everything printed.
  */
  method DeliverEvents(logger: ProgressLogger, events: seq<ProgressEvent>) returns (printed: seq<Mark>)
    modifies logger
    ensures (logger.State(), printed) == Run(logger.totalBytes, old(logger.State()), events)
  {
    printed := [];
    var i := 0;
    while i < |events|
      invariant 0 <= i <= |events|
      invariant (logger.State(), printed) == Run(logger.totalBytes, old(logger.State()), events[..i])
    {
      assert events[..i + 1][..i] == events[..i];
      var more := logger.LogProgress(events[i]);
      printed := printed + more;
      i := i + 1;
    }
    assert events[..i] == events;
  }
}
