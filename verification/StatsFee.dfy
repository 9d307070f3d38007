/**
  The user's ledger and the fee's (src/miner/stats.cpp): what one can and cannot see of the
  other.
 */
module StatsFee {
  import opened Origins
  import opened Stats

  predicate OfFee(e: Event)
  {
    match e
    case Submitted(_, _, origin, _) => origin.Dev?
    case ShareFound(_, _, origin, _) => origin.Dev?
    case Answered(_, _, origin) => origin.Dev?
    case JobSet(_, _, origin) => origin.Dev?
    case _ => false
  }

  /** The run as it would have been with no fee: every Dev-origin event deleted. */
  function WithoutFee(es: seq<Event>): seq<Event>
    decreases |es|
  {
    if es == [] then []
    else
      var before, e := WithoutFee(es[..|es| - 1]), es[|es| - 1];
      if OfFee(e) then before else before + [e]
  }

  /** Everything the user is shown about their own shares. */
  datatype UserView = UserView(verdicts: Verdicts, banked: real, best: real, latency: int,
                               jobId: string, jobUnits: real, devices: seq<Device>)

  function View(b: Book): UserView
  {
    UserView(b.user, b.banked, b.best, b.latency, b.jobId, b.jobUnits, b.devices)
  }

  /** The submits of one origin, in order. */
  function Of(q: seq<Pending>, origin: Origin): seq<Pending>
    decreases |q|
  {
    if q == [] then []
    else if q[0].origin == origin then [q[0]] + Of(q[1..], origin)
    else Of(q[1..], origin)
  }

  lemma {:induction false} OfAppend(q: seq<Pending>, r: seq<Pending>, origin: Origin)
    ensures Of(q + r, origin) == Of(q, origin) + Of(r, origin)
    decreases |q|
  {
    if q == [] {
      assert q + r == r;
    } else {
      assert (q + r)[1..] == q[1..] + r;
      OfAppend(q[1..], r, origin);
    }
  }

  lemma {:induction false} OfLength(q: seq<Pending>, origin: Origin)
    ensures |Of(q, origin)| <= |q|
    ensures |Of(q, origin)| == |q| <==> AllOf(q, origin)
    ensures AllOf(q, origin) ==> Of(q, origin) == q
    decreases |q|
  {
    if q == [] {
    } else {
      OfLength(q[1..], origin);
      assert forall i :: 0 < i < |q| ==> q[i] == q[1..][i - 1];
      assert forall i :: 0 <= i < |q| - 1 ==> q[1..][i] == q[i + 1];
      assert [q[0]] + q[1..] == q;
    }
  }

  /** Every entry of Of(q, origin) has that origin. */
  lemma {:induction false} OfIsOf(q: seq<Pending>, origin: Origin)
    ensures forall i :: 0 <= i < |Of(q, origin)| ==> Of(q, origin)[i].origin == origin
    decreases |q|
  {
    if q == [] {
    } else {
      OfIsOf(q[1..], origin);
    }
  }

  // ---- one push, one pop -------------------------------------------------------------------------

  /** Pushing x evicts nothing, or evicts a fee submit, or the whole queue is the user's. */
  predicate Harmless(q: seq<Pending>, x: Pending)
  {
    |q| < SUBMIT_CAP || q[0].origin.Dev? || AllOf(q + [x], Main)
  }

  function Pushed(q: seq<Pending>, x: Pending): seq<Pending> { Newest(q + [x], SUBMIT_CAP) }

  /** The user's queue as it would be without the fee, before and after this push. */
  function PushedAlone(q: seq<Pending>, x: Pending): seq<Pending> { if x.origin.Main? then Pushed(q, x) else q }

  /** A push appends to its own origin's queue, and may drop the head of either. */
  lemma PushKeepsTail(q: seq<Pending>, x: Pending, origin: Origin)
    requires |q| <= SUBMIT_CAP
    ensures var own := if x.origin == origin then Of(q, origin) + [x] else Of(q, origin);
      if |q| == SUBMIT_CAP && q[0].origin == origin then own != [] && Of(Pushed(q, x), origin) == own[1..]
      else Of(Pushed(q, x), origin) == own
  {
    OfAppend(q, [x], origin);
    assert Of([x], origin) == if x.origin == origin then [x] else [];
    if |q| == SUBMIT_CAP {
      assert q == [q[0]] + q[1..] && Newest(q + [x], SUBMIT_CAP) == q[1..] + [x];
      OfAppend(q[1..], [x], origin);
      OfAppend([q[0]], q[1..], origin);
      assert Of([q[0]], origin) == if q[0].origin == origin then [q[0]] else [];
    }
  }

  predicate AllOf(q: seq<Pending>, origin: Origin) { forall i :: 0 <= i < |q| ==> q[i].origin == origin }

  /** A push is invisible to the user's own queue exactly when it is harmless. */
  lemma PushIsInvisibleIff(q: seq<Pending>, x: Pending)
    requires |q| <= SUBMIT_CAP
    ensures Of(Pushed(q, x), Main) == PushedAlone(Of(q, Main), x) <==> Harmless(q, x)
  {
    hide Of, AllOf;
    PushKeepsTail(q, x, Main);
    OfLength(q, Main);
    AllOfPush(q, x);
  }

  lemma AllOfPush(q: seq<Pending>, x: Pending)
    ensures AllOf(q + [x], Main) <==> AllOf(q, Main) && x.origin.Main?
    ensures q != [] && AllOf(q, Main) ==> q[0].origin.Main?
  {
    assert forall i :: 0 <= i < |q| ==> (q + [x])[i] == q[i];
    assert (q + [x])[|q|] == x;
  }

  function Popped(q: seq<Pending>, k: nat): seq<Pending>
    requires k < |q|
  {
    q[..k] + q[k + 1..]
  }

  /** A result pops the head of its own origin's queue and nothing of the other's. */
  lemma {:induction false} PopIsOwnHead(q: seq<Pending>, origin: Origin)
    ensures var k := FirstOf(q, origin);
      if k == |q| then Of(q, origin) == []
      else
        && Of(q, origin) == [q[k]] + Of(Popped(q, k), origin)
        && Of(Popped(q, k), Other(origin)) == Of(q, Other(origin))
    decreases |q|
  {
    hide Of, Popped;
    if q == [] {
      OfNothing(origin);
    } else {
      OfHead(q, origin);
      OfHead(q, Other(origin));
      if q[0].origin == origin {
        PopTheHead(q);
      } else {
        var k := FirstOf(q, origin);
        PopIsOwnHead(q[1..], origin);
        if k < |q| {
          PopBehind(q, k);
          OfHead(Popped(q, k), origin);
          OfHead(Popped(q, k), Other(origin));
        }
      }
    }
  }

  lemma PopTheHead(q: seq<Pending>)
    requires q != []
    ensures Popped(q, 0) == q[1..]
  {
  }

  function Other(origin: Origin): Origin { if origin.Main? then Dev else Main }

  lemma PopBehind(q: seq<Pending>, k: nat)
    requires 0 < k < |q|
    ensures Popped(q, k) != [] && Popped(q, k)[0] == q[0] && Popped(q, k)[1..] == Popped(q[1..], k - 1)
  {
  }

  lemma OfHead(q: seq<Pending>, origin: Origin)
    requires q != []
    ensures Of(q, origin) == if q[0].origin == origin then [q[0]] + Of(q[1..], origin) else Of(q[1..], origin)
  {
  }

  lemma HeadOfOwn(q: seq<Pending>, origin: Origin)
    ensures Of(q, origin) != [] ==>
      FirstOf(Of(q, origin), origin) == 0 && Popped(Of(q, origin), 0) == Of(q, origin)[1..]
  {
    OfIsOf(q, origin);
  }

  // ---- first in, first out -------------------------------------------------------------------------

  function PendingOf(b: Book, e: Event): Pending
    requires e.Submitted?
  {
    Pending(e.job, e.now, TargetOf(b, e.origin), e.origin, e.device)
  }

  /** Every submit of this origin so far. */
  function AllSubmits(es: seq<Event>, origin: Origin): seq<Pending>
    decreases |es|
  {
    if es == [] then []
    else
      var before, e := AllSubmits(es[..|es| - 1], origin), es[|es| - 1];
      if e.Submitted? && e.origin == origin then before + [PendingOf(Books(es[..|es| - 1]), e)] else before
  }

  lemma RecordSubmits(b: Book, e: Event)
    ensures var q := Record(b, e).submits;
      if e.Submitted? then q == Pushed(b.submits, PendingOf(b, e))
      else if e.Answered? && FirstOf(b.submits, e.origin) < |b.submits| then q == Popped(b.submits, FirstOf(b.submits, e.origin))
      else q == b.submits
  {
  }

  lemma {:induction false} SubmitsAreCapped(es: seq<Event>)
    ensures |Books(es).submits| <= SUBMIT_CAP
    decreases |es|
  {
    hide Record, FirstOf;
    if es == [] {
    } else {
      SubmitsAreCapped(es[..|es| - 1]);
      RecordSubmits(Books(es[..|es| - 1]), es[|es| - 1]);
    }
  }

  /** What is pending of an origin is always the tail of its own submits: matching is first in, first out. */
  lemma {:induction false} MatchingIsFifo(es: seq<Event>, origin: Origin) returns (k: nat)
    ensures k <= |AllSubmits(es, origin)| && Of(Books(es).submits, origin) == AllSubmits(es, origin)[k..]
    decreases |es|
  {
    hide Record, FirstOf, Of, Pushed;
    if es == [] {
      k := 0;
      OfNothing(origin);
    } else {
      var pre, e := es[..|es| - 1], es[|es| - 1];
      k := MatchingIsFifo(pre, origin);
      var b := Books(pre);
      RecordSubmits(b, e);
      if e.Submitted? {
        SubmitsAreCapped(pre);
        PushKeepsTail(b.submits, PendingOf(b, e), origin);
        Tails(AllSubmits(pre, origin), k, PendingOf(b, e));
        if |b.submits| == SUBMIT_CAP && b.submits[0].origin == origin {
          k := k + 1;
        }
      } else if e.Answered? {
        PopIsOwnHead(b.submits, e.origin);
        if b.submits != [] { Tails(AllSubmits(pre, origin), k, b.submits[0]); }
        if e.origin == origin && FirstOf(b.submits, origin) < |b.submits| {
          k := k + 1;
        }
      }
    }
  }

  lemma Tails(all: seq<Pending>, k: nat, x: Pending)
    requires k <= |all|
    ensures (all + [x])[k..] == all[k..] + [x] && (all + [x])[k + 1..] == (all[k..] + [x])[1..]
    ensures k < |all| ==> all[k + 1..] == all[k..][1..] && all[k..] == [all[k]] + all[k + 1..]
  {
  }

  lemma OfNothing(origin: Origin)
    ensures Of([], origin) == []
  {
  }

  // ---- the user's ledger does not depend on the fee ----------------------------------------------------

  ghost predicate NeverHarmful(es: seq<Event>)
    decreases |es|
  {
    es == [] ||
    var pre, e := es[..|es| - 1], es[|es| - 1];
    NeverHarmful(pre) && (e.Submitted? ==> Harmless(Books(pre).submits, PendingOf(Books(pre), e)))
  }

  /** The two books look alike to the user, and so do their queues. */
  predicate Alike(b: Book, alone: Book) { View(b) == View(alone) && Of(b.submits, Main) == alone.submits }

  /** A Dev-origin event changes nothing the user is shown. */
  lemma FeeStep(b: Book, alone: Book, e: Event)
    requires Alike(b, alone) && |b.submits| <= SUBMIT_CAP && OfFee(e)
    requires e.Submitted? ==> Harmless(b.submits, PendingOf(b, e))
    ensures Alike(Record(b, e), alone)
  {
    hide Counted, CountedOn, FirstOf, Of, Harmless;
    PopIsOwnHead(b.submits, Dev);
    if e.Submitted? {
      PushIsInvisibleIff(b.submits, PendingOf(b, e));
    }
  }

  /** A user event does the same to both books. */
  lemma UserStep(b: Book, alone: Book, e: Event)
    requires Alike(b, alone) && |b.submits| <= SUBMIT_CAP && !OfFee(e)
    requires e.Submitted? ==> Harmless(b.submits, PendingOf(b, e))
    ensures Alike(Record(b, e), Record(alone, e))
  {
    hide Counted, CountedOn, FirstOf, Of, Harmless, Pruned;
    PopIsOwnHead(b.submits, Main);
    HeadOfOwn(b.submits, Main);
    OfNothing(Main);
    NothingPending(Main);
    if e.Submitted? {
      PushIsInvisibleIff(b.submits, PendingOf(b, e));
    }
  }

  lemma NothingPending(origin: Origin)
    ensures FirstOf([], origin) == 0
  {
  }

  /**
    The user's ledger is independent of the fee: while no eviction from the pending queue is
    harmful, deleting every Dev-origin event from a run changes nothing the user is shown,
    verdicts, banked units, best share, latency, job line and every device row.
   */
  lemma {:induction false} UserLedgerIgnoresFee(es: seq<Event>)
    requires NeverHarmful(es)
    ensures View(Books(es)) == View(Books(WithoutFee(es)))
    ensures Of(Books(es).submits, Main) == Books(WithoutFee(es)).submits
    decreases |es|
  {
    hide Record, View, Of, OfFee, Harmless;
    if es == [] {
      OfNothing(Main);
    } else {
      var pre, e := es[..|es| - 1], es[|es| - 1];
      UserLedgerIgnoresFee(pre);
      SubmitsAreCapped(pre);
      if OfFee(e) {
        FeeStep(Books(pre), Books(WithoutFee(pre)), e);
      } else {
        UserStep(Books(pre), Books(WithoutFee(pre)), e);
        assert (WithoutFee(pre) + [e])[..|WithoutFee(pre)|] == WithoutFee(pre);
      }
    }
  }

  /** The user's queue is, after the first n events, what it would be without the fee. */
  ghost predicate QueueAlone(es: seq<Event>, n: nat)
    requires n <= |es|
  {
    Of(Books(es[..n]).submits, Main) == Books(WithoutFee(es[..n])).submits
  }

  /** The condition is exact: it holds if and only if the user's queue never depends on the fee at any point of the run. */
  lemma {:induction false} NeverHarmfulIff(es: seq<Event>)
    ensures NeverHarmful(es) <==> forall n :: 0 <= n <= |es| ==> QueueAlone(es, n)
    decreases |es|
  {
    hide Books, NeverHarmful, QueueAlone;
    if es == [] {
      NothingHarmful();
    } else {
      var pre := es[..|es| - 1];
      NeverHarmfulIff(pre);
      assert forall n :: 0 <= n <= |pre| ==> pre[..n] == es[..n];
      assert forall n :: 0 <= n <= |pre| ==> QueueAlone(pre, n) == QueueAlone(es, n) by {
        forall n | 0 <= n <= |pre| ensures QueueAlone(pre, n) == QueueAlone(es, n) {
          SamePrefix(pre, es, n);
        }
      }
      if NeverHarmful(pre) {
        LastPushIsHarmlessIff(es);
      } else {
        HarmStays(es);
      }
      assert es[..|es|] == es;
    }
  }

  lemma NothingHarmful()
    ensures NeverHarmful([]) && QueueAlone([], 0)
  {
    OfNothing(Main);
  }

  lemma SamePrefix(a: seq<Event>, b: seq<Event>, n: nat)
    requires n <= |a| && n <= |b| && a[..n] == b[..n]
    ensures QueueAlone(a, n) == QueueAlone(b, n)
  {
  }

  lemma HarmStays(es: seq<Event>)
    requires es != [] && !NeverHarmful(es[..|es| - 1])
    ensures !NeverHarmful(es)
  {
  }

  /** One submit: the queues stay alike exactly when it is harmless. */
  lemma SubmitStep(b: Book, alone: Book, e: Event)
    requires Alike(b, alone) && |b.submits| <= SUBMIT_CAP && e.Submitted?
    ensures Of(Record(b, e).submits, Main) == (if OfFee(e) then alone else Record(alone, e)).submits
       <==> Harmless(b.submits, PendingOf(b, e))
  {
    hide Of, Harmless, Newest;
    PushIsInvisibleIff(b.submits, PendingOf(b, e));
  }

  lemma LastPushIsHarmlessIff(es: seq<Event>)
    requires es != [] && NeverHarmful(es[..|es| - 1])
    ensures NeverHarmful(es) <==> QueueAlone(es, |es|)
  {
    hide Of, Harmless, Record, View, PendingOf, OfFee;
    var pre, e := es[..|es| - 1], es[|es| - 1];
    assert es[..|es|] == es;
    UserLedgerIgnoresFee(pre);
    if e.Submitted? {
      SubmitsAreCapped(pre);
      SubmitStep(Books(pre), Books(WithoutFee(pre)), e);
      assert (WithoutFee(pre) + [e])[..|WithoutFee(pre)|] == WithoutFee(pre);
    } else {
      assert NeverHarmful(es);
      UserLedgerIgnoresFee(es);
    }
  }

  /** In particular when the pending queue never overflows at all. */
  lemma {:induction false} NoOverflowIsHarmless(es: seq<Event>)
    requires forall i :: 0 <= i < |es| && es[i].Submitted? ==> |Books(es[..i]).submits| < SUBMIT_CAP
    ensures NeverHarmful(es)
    decreases |es|
  {
    hide Books;
    if es == [] {
    } else {
      var pre := es[..|es| - 1];
      assert forall i :: 0 <= i < |pre| ==> pre[..i] == es[..i] && pre[i] == es[i];
      NoOverflowIsHarmless(pre);
    }
  }

  // ---- the run where it fails ---------------------------------------------------------------------------

  function FeeSubmits(n: nat): seq<Event>
  {
    if n == 0 then [] else FeeSubmits(n - 1) + [Submitted("fee", 0, Dev, 0)]
  }

  /** One user submit, then n fee submits, all pending. */
  function Crowded(n: nat): seq<Event>
  {
    [JobSet("job", 5.0, Main), Submitted("job", 0, Main, 0)] + FeeSubmits(n)
  }

  const USER_SUBMIT := Pending("job", 0, 5.0, Main, 0)

  lemma CrowdedStart()
    ensures Books(Crowded(0)) == Fresh().(jobId := "job", jobUnits := 5.0, submits := [USER_SUBMIT])
  {
    var es := Crowded(0);
    assert es[..1] == [JobSet("job", 5.0, Main)] && es[..1][..0] == [];
    assert Books(es[..1]) == Record(Fresh(), JobSet("job", 5.0, Main));
  }

  /** The user's submit is the oldest of the queue until the 64th fee submit evicts it. */
  lemma {:induction false} CrowdedQueue(n: nat)
    requires n <= 64
    ensures var b := Books(Crowded(n));
      && b == Books(Crowded(0)).(submits := b.submits)
      && (n < 64 ==> |b.submits| == n + 1 && b.submits[0] == USER_SUBMIT && AllOf(b.submits[1..], Dev))
      && (n == 64 ==> AllOf(b.submits, Dev))
  {
    hide Books;
    CrowdedStart();
    if n == 0 {
    } else {
      CrowdedQueue(n - 1);
      CrowdedStep(n);
    }
  }

  lemma CrowdedStep(n: nat)
    requires n > 0
    ensures var b := Books(Crowded(n - 1));
      Books(Crowded(n)) == b.(submits := Newest(b.submits + [Pending("fee", 0, b.feeUnits, Dev, 0)], SUBMIT_CAP))
    ensures WithoutFee(Crowded(n)) == WithoutFee(Crowded(n - 1))
  {
    var es := Crowded(n);
    assert es[..|es| - 1] == Crowded(n - 1) && es[|es| - 1] == Submitted("fee", 0, Dev, 0);
  }

  lemma {:induction false} CrowdedWithoutFee(n: nat)
    ensures WithoutFee(Crowded(n)) == Crowded(0)
  {
    if n == 0 {
      var es := Crowded(0);
      assert es[..1] == [JobSet("job", 5.0, Main)] && es[..1][..0] == [];
    } else {
      CrowdedWithoutFee(n - 1);
      CrowdedStep(n);
    }
  }

  lemma AnswerToNothing(b: Book)
    requires AllOf(b.submits, Dev)
    ensures Record(b, Answered(1, 0, Main)).banked == b.banked
    ensures Record(b, Answered(1, 0, Main)).user == Counted(b.user, 1)
  {
    hide CountedOn;
  }

  lemma AnswerToUser(b: Book)
    requires b.submits == [USER_SUBMIT]
    ensures Record(b, Answered(1, 0, Main)).banked == b.banked + 5.0
    ensures Record(b, Answered(1, 0, Main)).user == Counted(b.user, 1)
  {
    hide CountedOn;
  }

  /**
    With 64 fee submits behind it, the user's pending submit is evicted: its acceptance banks
    nothing, where without the fee it banks the job's 5 units.
   */
  lemma OverflowLosesTheUsersShare()
    ensures var es := Crowded(64) + [Answered(1, 0, Main)];
      && Books(es).banked == 0.0 && Books(es).user.accepted == Books(WithoutFee(es)).user.accepted
      && Books(WithoutFee(es)).banked == 5.0
  {
    hide Record, Crowded;
    var e := Answered(1, 0, Main);
    CrowdedStart();
    CrowdedQueue(64);
    CrowdedWithoutFee(64);
    OneMoreEvent(Crowded(64), e);
    OneMoreEvent(Crowded(0), e);
    AnswerToNothing(Books(Crowded(64)));
    AnswerToUser(Books(Crowded(0)));
  }

  lemma OneMoreEvent(es: seq<Event>, e: Event)
    requires !OfFee(e)
    ensures Books(es + [e]) == Record(Books(es), e) && WithoutFee(es + [e]) == WithoutFee(es) + [e]
  {
    assert (es + [e])[..|es|] == es;
  }
}
