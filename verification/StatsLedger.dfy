/**
  What the numbers of the metrics store count (src/miner/stats.cpp): every displayed figure as
  a function of the events that happened.
 */
module StatsLedger {
  import opened Origins
  import opened Selections
  import opened Stats
  import opened StatsFee

  // ---- verdicts ------------------------------------------------------------------------------------

  datatype Kind = Accepted | Stale | Rejected

  /** Code 1 is an accept, code 3 a stale share, and anything else a reject. */
  predicate CodeIs(code: int, kind: Kind)
  {
    match kind
    case Accepted => code == 1
    case Stale => code == 3
    case Rejected => code != 1 && code != 3
  }

  function IsVerdict(origin: Origin, kind: Kind): Event -> bool
  {
    (e: Event) => e.Answered? && e.origin == origin && CodeIs(e.code, kind)
  }

  /** How many results of this origin were of this kind. */
  function Verdicted(es: seq<Event>, origin: Origin, kind: Kind): nat { |Picked(es, IsVerdict(origin, kind))| }

  /** Either origin's three counters are the numbers of its results of each kind, over any run. */
  lemma {:induction false} VerdictsAreCounts(es: seq<Event>)
    ensures Books(es).user == Verdicts(Verdicted(es, Main, Accepted), Verdicted(es, Main, Stale), Verdicted(es, Main, Rejected))
    ensures Books(es).fee == Verdicts(Verdicted(es, Dev, Accepted), Verdicted(es, Dev, Stale), Verdicted(es, Dev, Rejected))
    decreases |es|
  {
    hide Record, Verdicted;
    if es == [] {
      NoVerdicts();
    } else {
      var pre, e := es[..|es| - 1], es[|es| - 1];
      VerdictsAreCounts(pre);
      VerdictStep(Books(pre), e);
      OneMoreVerdict(es, Main);
      OneMoreVerdict(es, Dev);
    }
  }

  lemma NoVerdicts()
    ensures forall origin, kind :: Verdicted([], origin, kind) == 0
  {
  }

  lemma OneMoreVerdict(es: seq<Event>, origin: Origin)
    requires es != []
    ensures var pre, e := es[..|es| - 1], es[|es| - 1];
      var mine := e.Answered? && e.origin == origin;
      && Verdicted(es, origin, Accepted) == Verdicted(pre, origin, Accepted) + (if mine && e.code == 1 then 1 else 0)
      && Verdicted(es, origin, Stale) == Verdicted(pre, origin, Stale) + (if mine && e.code == 3 then 1 else 0)
      && Verdicted(es, origin, Rejected) == Verdicted(pre, origin, Rejected) + (if mine && e.code != 1 && e.code != 3 then 1 else 0)
  {
  }

  lemma VerdictStep(b: Book, e: Event)
    ensures var n, one := Record(b, e), (mine: bool) => if mine then 1 else 0;
      var user, fee := e.Answered? && e.origin.Main?, e.Answered? && e.origin.Dev?;
      && n.user == Verdicts(b.user.accepted + one(user && e.code == 1), b.user.stale + one(user && e.code == 3),
                            b.user.rejected + one(user && e.code != 1 && e.code != 3))
      && n.fee == Verdicts(b.fee.accepted + one(fee && e.code == 1), b.fee.stale + one(fee && e.code == 3),
                           b.fee.rejected + one(fee && e.code != 1 && e.code != 3))
  {
    hide CountedOn, FirstOf, Pruned, Newest, Milliseconds, NewDevices;
  }

  // ---- round trips ------------------------------------------------------------------------------------

  /** A result with the submit it answers: the oldest its origin has pending. */
  datatype RoundTrip = RoundTrip(code: int, now: int, submit: Pending)

  /** The results of one origin that found a submit, in order. */
  function RoundTrips(es: seq<Event>, origin: Origin): seq<RoundTrip>
    decreases |es|
  {
    if es == [] then []
    else
      var pre, e := es[..|es| - 1], es[|es| - 1];
      var own := Of(Books(pre).submits, origin);
      if e.Answered? && e.origin == origin && own != [] then RoundTrips(pre, origin) + [RoundTrip(e.code, e.now, own[0])]
      else RoundTrips(pre, origin)
  }

  function Units(trips: seq<RoundTrip>): real
  {
    if trips == [] then 0.0 else Units(trips[..|trips| - 1]) + trips[|trips| - 1].submit.units
  }

  function WasAccepted(): RoundTrip -> bool { (r: RoundTrip) => r.code == 1 }

  /** What one event does to the figures a round trip moves. */
  lemma TripStep(b: Book, e: Event)
    ensures var n, own := Record(b, e), Of(b.submits, Main);
      if e.Answered? && e.origin.Main? && own != [] then
        && n.banked == (if e.code == 1 then b.banked + own[0].units else b.banked)
        && n.latency == Milliseconds(e.now - own[0].t)
        && n.devices == CountedOn(b.devices, own[0].device, e.code)
      else n.banked == b.banked && n.latency == b.latency && (e.Answered? ==> n.devices == b.devices)
  {
    hide CountedOn, FirstOf, Pruned, Newest, Milliseconds, NewDevices, Of, Counted;
    PopIsOwnHead(b.submits, Main);
  }

  lemma TripsStep(es: seq<Event>)
    requires es != []
    ensures var pre, e, own := es[..|es| - 1], es[|es| - 1], Of(Books(es[..|es| - 1]).submits, Main);
      RoundTrips(es, Main) == if e.Answered? && e.origin.Main? && own != []
                              then RoundTrips(pre, Main) + [RoundTrip(e.code, e.now, own[0])] else RoundTrips(pre, Main)
  {
    hide Books, Of;
  }

  /** What is banked is the difficulty units of the user's accepted submits. */
  lemma {:induction false} BankedIsAcceptedUnits(es: seq<Event>)
    ensures Books(es).banked == Units(Picked(RoundTrips(es, Main), WasAccepted()))
    decreases |es|
  {
    hide Record, RoundTrips, Of;
    if es == [] {
      NoTrips();
    } else {
      var pre, e := es[..|es| - 1], es[|es| - 1];
      BankedIsAcceptedUnits(pre);
      TripStep(Books(pre), e);
      TripsStep(es);
      var own := Of(Books(pre).submits, Main);
      if e.Answered? && e.origin.Main? && own != [] {
        OneMoreTrip(RoundTrips(pre, Main), RoundTrip(e.code, e.now, own[0]));
      }
    }
  }

  lemma NoTrips()
    ensures RoundTrips([], Main) == [] && RoundTrips([], Dev) == []
  {
  }

  lemma OneMoreTrip(trips: seq<RoundTrip>, r: RoundTrip)
    ensures Units(Picked(trips + [r], WasAccepted()))
         == Units(Picked(trips, WasAccepted())) + if r.code == 1 then r.submit.units else 0.0
  {
    assert (trips + [r])[..|trips|] == trips;
    var p := Picked(trips, WasAccepted());
    assert (p + [r])[..|p|] == p;
    assert r.code != 1 ==> Picked(trips + [r], WasAccepted()) == p;
  }

  /** The latency shown is that of the user's newest round trip, -1 before the first. */
  lemma {:induction false} LatencyIsNewestTrip(es: seq<Event>)
    ensures var trips := RoundTrips(es, Main);
      Books(es).latency == if trips == [] then -1 else Milliseconds(trips[|trips| - 1].now - trips[|trips| - 1].submit.t)
    decreases |es|
  {
    hide Record, RoundTrips, Of, Milliseconds;
    if es == [] {
      NoTrips();
    } else {
      LatencyIsNewestTrip(es[..|es| - 1]);
      TripStep(Books(es[..|es| - 1]), es[|es| - 1]);
      TripsStep(es);
    }
  }

  /** Whole milliseconds, cut toward zero. */
  lemma MillisecondsTruncate(d: int)
    ensures d >= 0 ==> Milliseconds(d) * 1_000_000 <= d < (Milliseconds(d) + 1) * 1_000_000
    ensures d <= 0 ==> (Milliseconds(d) - 1) * 1_000_000 < d <= Milliseconds(d) * 1_000_000
  {
  }

  /** Pending before, matched since: without an overflow every submit is one or the other, in order. */
  lemma {:induction false} SubmitsAreConserved(es: seq<Event>, origin: Origin)
    requires forall i :: 0 <= i < |es| && es[i].Submitted? ==> |Books(es[..i]).submits| < SUBMIT_CAP
    ensures AllSubmits(es, origin) == SubmitsOf(RoundTrips(es, origin)) + Of(Books(es).submits, origin)
    decreases |es|
  {
    hide Record, Of, FirstOf, Pushed, Books;
    if es == [] {
      BooksStart();
      OfNothing(origin);
    } else {
      var pre, e := es[..|es| - 1], es[|es| - 1];
      assert forall i :: 0 <= i < |pre| ==> pre[..i] == es[..i] && pre[i] == es[i];
      SubmitsAreConserved(pre, origin);
      assert es[..|pre|] == pre;
      BooksStep(es);
      QueueStep(Books(pre), e, origin);
      var trips, own := RoundTrips(pre, origin), Of(Books(pre).submits, origin);
      if e.Submitted? && e.origin == origin {
        assert SubmitsOf(trips) + (own + [PendingOf(Books(pre), e)]) == SubmitsOf(trips) + own + [PendingOf(Books(pre), e)];
      } else if e.Answered? && e.origin == origin && own != [] {
        assert (trips + [RoundTrip(e.code, e.now, own[0])])[..|trips|] == trips;
        assert SubmitsOf(trips) + [own[0]] + own[1..] == SubmitsOf(trips) + own;
      }
    }
  }

  lemma BooksStart()
    ensures Books([]).submits == []
  {
  }

  lemma BooksStep(es: seq<Event>)
    requires es != []
    ensures Books(es) == Record(Books(es[..|es| - 1]), es[|es| - 1])
  {
  }

  /** Below the cap a submit joins its own queue, a result takes that queue's head, and nothing else moves. */
  lemma QueueStep(b: Book, e: Event, origin: Origin)
    requires e.Submitted? ==> |b.submits| < SUBMIT_CAP
    ensures var own, own' := Of(b.submits, origin), Of(Record(b, e).submits, origin);
      if e.Submitted? && e.origin == origin then own' == own + [PendingOf(b, e)]
      else if e.Answered? && e.origin == origin && own != [] then own' == own[1..]
      else own' == own
  {
    hide Record, Of, FirstOf, Pushed;
    RecordSubmits(b, e);
    if e.Submitted? {
      PushKeepsTail(b.submits, PendingOf(b, e), origin);
    } else if e.Answered? {
      PopIsOwnHead(b.submits, e.origin);
      OriginsAreTwo(origin, e.origin);
    }
  }

  lemma OriginsAreTwo(a: Origin, b: Origin)
    ensures a != b ==> Other(b) == a
  {
  }

  function SubmitsOf(trips: seq<RoundTrip>): seq<Pending>
  {
    if trips == [] then [] else SubmitsOf(trips[..|trips| - 1]) + [trips[|trips| - 1].submit]
  }

  // ---- device rows ----------------------------------------------------------------------------------------

  /** The user's round trips since the device rows were last set up. */
  function TripsSinceLabels(es: seq<Event>): seq<RoundTrip>
    decreases |es|
  {
    if es == [] then []
    else
      var pre, e := es[..|es| - 1], es[|es| - 1];
      var own := Of(Books(pre).submits, Main);
      if e.Labelled? then []
      else if e.Answered? && e.origin.Main? && own != [] then TripsSinceLabels(pre) + [RoundTrip(e.code, e.now, own[0])]
      else TripsSinceLabels(pre)
  }

  function OnDevice(d: nat, kind: Kind): RoundTrip -> bool
  {
    (r: RoundTrip) => r.submit.device == d && CodeIs(r.code, kind)
  }

  function RowCount(es: seq<Event>, d: nat, kind: Kind): nat { |Picked(TripsSinceLabels(es), OnDevice(d, kind))| }

  /** Each device row counts the user's results whose submit came from that device, by kind. */
  lemma {:induction false} RowsCountTheirResults(es: seq<Event>, d: nat)
    requires d < |Books(es).devices|
    ensures var row := Books(es).devices[d];
      row.accepted == RowCount(es, d, Accepted) && row.stale == RowCount(es, d, Stale) && row.rejected == RowCount(es, d, Rejected)
    decreases |es|
  {
    hide Record, RowCount, Of;
    if es == [] {
      NoRowCounts(d);
    } else {
      var pre, e := es[..|es| - 1], es[|es| - 1];
      RowStep(Books(pre), e, d);
      RowCountStep(es, d);
      if !e.Labelled? {
        RowsCountTheirResults(pre, d);
      }
    }
  }

  lemma NoRowCounts(d: nat)
    ensures RowCount([], d, Accepted) == RowCount([], d, Stale) == RowCount([], d, Rejected) == 0
  {
  }

  lemma RowCountStep(es: seq<Event>, d: nat)
    requires es != []
    ensures var pre, e, own := es[..|es| - 1], es[|es| - 1], Of(Books(es[..|es| - 1]).submits, Main);
      var here := e.Answered? && e.origin.Main? && own != [] && own[0].device == d;
      if e.Labelled? then RowCount(es, d, Accepted) == RowCount(es, d, Stale) == RowCount(es, d, Rejected) == 0
      else
        && RowCount(es, d, Accepted) == RowCount(pre, d, Accepted) + (if here && e.code == 1 then 1 else 0)
        && RowCount(es, d, Stale) == RowCount(pre, d, Stale) + (if here && e.code == 3 then 1 else 0)
        && RowCount(es, d, Rejected) == RowCount(pre, d, Rejected) + (if here && e.code != 1 && e.code != 3 then 1 else 0)
  {
    hide Books, Of;
    var pre, e, own := es[..|es| - 1], es[|es| - 1], Of(Books(es[..|es| - 1]).submits, Main);
    if e.Answered? && e.origin.Main? && own != [] {
      var trips := TripsSinceLabels(pre);
      assert (trips + [RoundTrip(e.code, e.now, own[0])])[..|trips|] == trips;
    }
  }

  /** What one event does to row d's three counters. */
  lemma RowStep(b: Book, e: Event, d: nat)
    requires d < |Record(b, e).devices|
    ensures var row, own := Record(b, e).devices[d], Of(b.submits, Main);
      var here := e.Answered? && e.origin.Main? && own != [] && own[0].device == d;
      if e.Labelled? then row.accepted == row.stale == row.rejected == 0 && row.best == 0.0
      else
        && d < |b.devices|
        && row.accepted == b.devices[d].accepted + (if here && e.code == 1 then 1 else 0)
        && row.stale == b.devices[d].stale + (if here && e.code == 3 then 1 else 0)
        && row.rejected == b.devices[d].rejected + (if here && e.code != 1 && e.code != 3 then 1 else 0)
  {
    hide FirstOf, Pruned, Newest, Milliseconds, Of, Counted;
    TripStep(b, e);
    PopIsOwnHead(b.submits, Main);
  }

  // ---- best shares ------------------------------------------------------------------------------------------

  /** m is the largest of xs, floored at zero. */
  ghost predicate IsBest(xs: seq<real>, m: real)
  {
    0.0 <= m && (m == 0.0 || m in xs) && forall i :: 0 <= i < |xs| ==> xs[i] <= m
  }

  lemma BestAfter(xs: seq<real>, m: real, x: real)
    requires IsBest(xs, m)
    ensures IsBest(xs + [x], if x > m then x else m)
  {
    assert (xs + [x])[|xs|] == x;
    if m != 0.0 {
      var i :| 0 <= i < |xs| && xs[i] == m;
      assert (xs + [x])[i] == m;
    }
  }

  /** The user's shares found so far. */
  function UserShares(es: seq<Event>): seq<real>
    decreases |es|
  {
    if es == [] then []
    else
      var pre, e := es[..|es| - 1], es[|es| - 1];
      if e.ShareFound? && e.origin.Main? then UserShares(pre) + [e.units] else UserShares(pre)
  }

  /** Those of one device, since the device rows were last set up. */
  function DeviceShares(es: seq<Event>, d: nat): seq<real>
    decreases |es|
  {
    if es == [] then []
    else
      var pre, e := es[..|es| - 1], es[|es| - 1];
      if e.Labelled? then []
      else if e.ShareFound? && e.origin.Main? && e.device == d then DeviceShares(pre, d) + [e.units]
      else DeviceShares(pre, d)
  }

  lemma BestStep(b: Book, e: Event)
    ensures var n := Record(b, e);
      n.best == if e.ShareFound? && e.origin.Main? && e.units > b.best then e.units else b.best
  {
    hide CountedOn, FirstOf, Pruned, Newest, Milliseconds, NewDevices, Counted;
  }

  lemma RowBestStep(b: Book, e: Event, d: nat)
    requires d < |Record(b, e).devices|
    ensures var row := Record(b, e).devices[d];
      if e.Labelled? then row.best == 0.0
      else
        && d < |b.devices|
        && row.best == if e.ShareFound? && e.origin.Main? && e.device == d && e.units > b.devices[d].best
                       then e.units else b.devices[d].best
  {
    hide FirstOf, Pruned, Newest, Milliseconds, Counted;
  }

  /** The best share is the largest the user found; the fee's never count. */
  lemma {:induction false} BestIsLargest(es: seq<Event>)
    ensures IsBest(UserShares(es), Books(es).best)
    decreases |es|
  {
    hide Record, IsBest;
    if es == [] {
      assert IsBest([], 0.0) by {
        NothingYet();
      }
    } else {
      var pre, e := es[..|es| - 1], es[|es| - 1];
      BestIsLargest(pre);
      BestStep(Books(pre), e);
      if e.ShareFound? {
        BestAfter(UserShares(pre), Books(pre).best, e.units);
      }
    }
  }

  lemma NothingYet()
    ensures IsBest([], 0.0)
  {
  }

  /** And so for every device row. */
  lemma {:induction false} RowBestIsLargest(es: seq<Event>, d: nat)
    requires d < |Books(es).devices|
    ensures IsBest(DeviceShares(es, d), Books(es).devices[d].best)
    decreases |es|
  {
    hide Record, IsBest;
    NothingYet();
    if es == [] {
    } else {
      var pre, e := es[..|es| - 1], es[|es| - 1];
      RowBestStep(Books(pre), e, d);
      if !e.Labelled? {
        RowBestIsLargest(pre, d);
        if e.ShareFound? {
          BestAfter(DeviceShares(pre, d), Books(pre).devices[d].best, e.units);
        }
      }
    }
  }

  // ---- targets and the share log ------------------------------------------------------------------------------

  /** The units of the newest job of this origin, 0 before the first. */
  function LatestUnits(es: seq<Event>, origin: Origin): real
    decreases |es|
  {
    if es == [] then 0.0
    else
      var e := es[|es| - 1];
      if e.JobSet? && e.origin == origin then e.units else LatestUnits(es[..|es| - 1], origin)
  }

  /** A submit or share is held to the newest job of its own origin. */
  lemma {:induction false} TargetsAreNewestJobs(es: seq<Event>)
    ensures TargetOf(Books(es), Main) == Books(es).jobUnits == LatestUnits(es, Main)
    ensures TargetOf(Books(es), Dev) == Books(es).feeUnits == LatestUnits(es, Dev)
    decreases |es|
  {
    hide Record;
    if es == [] {
    } else {
      TargetsAreNewestJobs(es[..|es| - 1]);
      TargetStep(Books(es[..|es| - 1]), es[|es| - 1]);
    }
  }

  lemma TargetStep(b: Book, e: Event)
    ensures var n := Record(b, e);
      && n.jobUnits == (if e.JobSet? && e.origin.Main? then e.units else b.jobUnits)
      && n.jobId == (if e.JobSet? && e.origin.Main? then e.id else b.jobId)
      && n.feeUnits == (if e.JobSet? && e.origin.Dev? then e.units else b.feeUnits)
  {
    hide CountedOn, FirstOf, Pruned, Newest, Milliseconds, NewDevices, Counted;
  }

  /** The job line is the newest user job's. */
  function LatestId(es: seq<Event>): string
    decreases |es|
  {
    if es == [] then ""
    else if es[|es| - 1].JobSet? && es[|es| - 1].origin.Main? then es[|es| - 1].id
    else LatestId(es[..|es| - 1])
  }

  /** The labels last given, one row when none were. */
  function LatestLabels(es: seq<Event>): seq<string>
    decreases |es|
  {
    if es == [] then ["GPU 0"]
    else if es[|es| - 1].Labelled? then (if es[|es| - 1].labels == [] then ["GPU 0"] else es[|es| - 1].labels)
    else LatestLabels(es[..|es| - 1])
  }

  lemma {:induction false} JobLineAndRowNames(es: seq<Event>)
    ensures Books(es).jobId == LatestId(es)
    ensures |Books(es).devices| == |LatestLabels(es)| >= 1
    ensures forall d :: 0 <= d < |LatestLabels(es)| ==> Books(es).devices[d].name == LatestLabels(es)[d]
    decreases |es|
  {
    hide Record;
    if es == [] {
    } else {
      JobLineAndRowNames(es[..|es| - 1]);
      TargetStep(Books(es[..|es| - 1]), es[|es| - 1]);
      NamesStep(Books(es[..|es| - 1]), es[|es| - 1]);
    }
  }

  lemma NamesStep(b: Book, e: Event)
    ensures var n := Record(b, e);
      if e.Labelled? then
        var labels := if e.labels == [] then ["GPU 0"] else e.labels;
        |n.devices| == |labels| && forall d :: 0 <= d < |labels| ==> n.devices[d].name == labels[d]
      else |n.devices| == |b.devices| && forall d :: 0 <= d < |b.devices| ==> n.devices[d].name == b.devices[d].name
  {
    hide FirstOf, Pruned, Newest, Milliseconds, Counted;
  }

  /** Every share found, with the target of its origin at that moment. */
  function AllFound(es: seq<Event>): seq<Found>
    decreases |es|
  {
    if es == [] then []
    else
      var pre, e := es[..|es| - 1], es[|es| - 1];
      if e.ShareFound? then AllFound(pre) + [Found(e.now, e.units, LatestUnits(pre, e.origin), e.origin.Dev?)] else AllFound(pre)
  }

  /** The log shows the newest 128 shares of either origin. */
  lemma {:induction false} LogIsNewestShares(es: seq<Event>)
    ensures var all := AllFound(es);
      Books(es).found == if |all| <= 128 then all else all[|all| - 128..]
    decreases |es|
  {
    hide Record;
    if es == [] {
    } else {
      var pre, e := es[..|es| - 1], es[|es| - 1];
      LogIsNewestShares(pre);
      TargetsAreNewestJobs(pre);
      FoundStep(Books(pre), e);
      if e.ShareFound? {
        NewestOfNewest(AllFound(pre), Found(e.now, e.units, LatestUnits(pre, e.origin), e.origin.Dev?));
      }
    }
  }

  lemma FoundStep(b: Book, e: Event)
    ensures Record(b, e).found == if e.ShareFound? then Newest(b.found + [Found(e.now, e.units, TargetOf(b, e.origin), e.origin.Dev?)], 128) else b.found
  {
    hide CountedOn, FirstOf, Pruned, Milliseconds, NewDevices, Counted;
  }

  lemma NewestOfNewest(all: seq<Found>, x: Found)
    ensures var kept := if |all| <= 128 then all else all[|all| - 128..];
      var all' := all + [x];
      Newest(kept + [x], 128) == if |all'| <= 128 then all' else all'[|all'| - 128..]
  {
  }

  // ---- windows -----------------------------------------------------------------------------------------------

  function NoOlderThan(now: int, w: int): Attempt -> bool { (a: Attempt) => now - a.t <= w }

  function FromDevice(d: nat): Attempt -> bool { (a: Attempt) => a.device == d }

  /** A window is the attempts no older than its length, a device's part those of that device. */
  lemma WindowsAreSelections(attempts: seq<Attempt>, now: int, w: int, d: nat)
    ensures IsSelection(attempts, NoOlderThan(now, w), Within(attempts, now, w))
    ensures IsSelection(Within(attempts, now, w), FromDevice(d), OfDevice(Within(attempts, now, w), d))
  {
    hide Within, OfDevice, Picked, IsSelection;
    WithinIsPicked(attempts, now, w);
    OfDeviceIsPicked(Within(attempts, now, w), d);
    PickedIsSelection(attempts, NoOlderThan(now, w));
    PickedIsSelection(Within(attempts, now, w), FromDevice(d));
  }

  lemma {:induction false} WithinIsPicked(attempts: seq<Attempt>, now: int, w: int)
    ensures Within(attempts, now, w) == Picked(attempts, NoOlderThan(now, w))
    decreases |attempts|
  {
    if attempts == [] {
    } else {
      WithinIsPicked(attempts[..|attempts| - 1], now, w);
    }
  }

  lemma {:induction false} OfDeviceIsPicked(attempts: seq<Attempt>, d: nat)
    ensures OfDevice(attempts, d) == Picked(attempts, FromDevice(d))
    decreases |attempts|
  {
    if attempts == [] {
    } else {
      OfDeviceIsPicked(attempts[..|attempts| - 1], d);
    }
  }

  /** Pruning stops at the first attempt of the last 15 minutes: nothing older stays in front. */
  lemma {:induction false} PrunedFrontIsRecent(attempts: seq<Attempt>, now: int)
    ensures var q := Pruned(attempts, now); q != [] ==> now - q[0].t <= 900 * 1_000_000_000
    decreases |attempts|
  {
    if attempts != [] && now - attempts[0].t > PRUNE_AGE {
      PrunedFrontIsRecent(attempts[1..], now);
    }
  }
}
