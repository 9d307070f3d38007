/**
  Which pool's job the solvers work on (src/miner/devfee.cpp, JobRouter) and where their
  solutions go (src/main.cpp, the dispatch and submit closures).
 */
module Routing {
  import opened Options
  import opened Origins
  import opened Engine

  datatype Slot = Slot(job: Job, prefix: string, present: bool, at: real)

  /** `sent` lists the calls of the dispatch function, each of which is one on_job per engine. */
  datatype Router = Router(main: Slot, dev: Slot, active: Origin, sent: seq<Entry>)
  {
    function SlotOf(origin: Origin): Slot { if origin.Dev? then dev else main }

    function Put(origin: Origin, s: Slot): Router { if origin.Dev? then this.(dev := s) else this.(main := s) }

    function Dispatch(origin: Origin): Router
    {
      this.(sent := sent + [Entry(SlotOf(origin).job, SlotOf(origin).prefix, origin)])
    }
  }

  datatype RouterEvent =
    | Offer(job: Job, prefix: string, from: Origin, now: real)
    | SetActive(to: Origin)
    | Clear(of: Origin)

  function NoSlot(): Slot { Slot(Job("", "", 0), "", false, 0.0) }

  function NewRouter(): Router { Router(NoSlot(), NoSlot(), Main, []) }

  /** One critical section of the router. */
  function Route(r: Router, e: RouterEvent): Router
  {
    match e
    case Offer(job, prefix, from, now) =>
      var stored := r.Put(from, Slot(job, prefix, true, now));
      if from == r.active then stored.Dispatch(from) else stored
    case SetActive(to) =>
      if to == r.active then r
      else
        var switched := r.(active := to);
        if r.SlotOf(to).present then switched.Dispatch(to) else switched
    case Clear(of) => r.Put(of, r.SlotOf(of).(present := false))
  }

  function RouteAll(es: seq<RouterEvent>): Router
  {
    if es == [] then NewRouter() else Route(RouteAll(es[..|es| - 1]), es[|es| - 1])
  }

  /** The class of the original, whose methods hold its mutex from end to end. */
  class JobRouter {
    var main: Slot
    var dev: Slot
    var active: Origin
    var sent: seq<Entry>

    function AsRouter(): Router reads this { Router(main, dev, active, sent) }

    constructor ()
      ensures AsRouter() == NewRouter()
    {
      main := NoSlot();
      dev := NoSlot();
      active := Main;
      sent := [];
    }

    method OfferJob(job: Job, prefix: string, origin: Origin, now: real)
      modifies this
      ensures AsRouter() == Route(old(AsRouter()), Offer(job, prefix, origin, now))
    {
      var s := Slot(job, prefix, true, now);
      if origin.Dev? { dev := s; } else { main := s; }
      if origin == active { sent := sent + [Entry(s.job, s.prefix, origin)]; }
    }

    method Activate(origin: Origin)
      modifies this
      ensures AsRouter() == Route(old(AsRouter()), SetActive(origin))
    {
      if origin == active { return; }
      active := origin;
      var s := if origin.Dev? then dev else main;
      if s.present { sent := sent + [Entry(s.job, s.prefix, origin)]; }
    }

    method Drop(origin: Origin)
      modifies this
      ensures AsRouter() == Route(old(AsRouter()), Clear(origin))
    {
      if origin.Dev? { dev := dev.(present := false); } else { main := main.(present := false); }
    }

    method HasJob(origin: Origin) returns (b: bool)
      ensures b == AsRouter().SlotOf(origin).present
    {
      b := if origin.Dev? then dev.present else main.present;
    }

    method IsFresh(origin: Origin, now: real, maxAge: real) returns (b: bool)
      ensures b == FreshAt(AsRouter(), origin, now, maxAge)
    {
      var s := if origin.Dev? then dev else main;
      b := s.present && now - s.at <= maxAge;
    }
  }

  predicate FreshAt(r: Router, origin: Origin, now: real, maxAge: real)
  {
    r.SlotOf(origin).present && now - r.SlotOf(origin).at <= maxAge
  }

  // ---- what the slots hold, read off the history ------------------------------------------------

  /** The pool's latest job, unless the pool has dropped since. */
  function LatestOffer(es: seq<RouterEvent>, origin: Origin): (o: Option<RouterEvent>)
    ensures o.Some? ==> o.value.Offer? && o.value.from == origin
    decreases |es|
  {
    if es == [] then None
    else
      var e := es[|es| - 1];
      if e.Offer? && e.from == origin then Some(e)
      else if e.Clear? && e.of == origin then None
      else LatestOffer(es[..|es| - 1], origin)
  }

  /** The pool last switched to. */
  function LatestSwitch(es: seq<RouterEvent>): Origin
    decreases |es|
  {
    if es == [] then Main
    else if es[|es| - 1].SetActive? then es[|es| - 1].to
    else LatestSwitch(es[..|es| - 1])
  }

  /** The entry an offer asks the engines to mine. */
  function EntryOf(e: RouterEvent): Entry
    requires e.Offer?
  {
    Entry(e.job, e.prefix, e.from)
  }

  ghost predicate Offered(es: seq<RouterEvent>, entry: Entry)
  {
    exists k :: 0 <= k < |es| && es[k].Offer? && EntryOf(es[k]) == entry
  }

  /** A slot is present exactly while its pool has an undropped offer, and holds that offer. */
  lemma {:induction false} SlotsHoldLatestOffers(es: seq<RouterEvent>, origin: Origin)
    ensures var s, o := RouteAll(es).SlotOf(origin), LatestOffer(es, origin);
      && s.present == o.Some?
      && (o.Some? ==> s == Slot(o.value.job, o.value.prefix, true, o.value.now))
    ensures RouteAll(es).active == LatestSwitch(es)
    decreases |es|
  {
    if es == [] {
    } else {
      SlotsHoldLatestOffers(es[..|es| - 1], origin);
    }
  }

  /** Freshness is about the pool, not the slot: its newest undropped offer is that recent. */
  lemma FreshMeansRecentOffer(es: seq<RouterEvent>, origin: Origin, now: real, maxAge: real)
    ensures FreshAt(RouteAll(es), origin, now, maxAge)
       <==> LatestOffer(es, origin).Some? && now - LatestOffer(es, origin).value.now <= maxAge
  {
    hide RouteAll, LatestOffer;
    SlotsHoldLatestOffers(es, origin);
  }

  /**
    Whenever the active pool has a live job, the last thing dispatched is exactly that job under
    its own prefix and origin: a switch is lossless, whatever arrived during it.
   */
  lemma {:induction false} SolversFollowTheActivePool(es: seq<RouterEvent>)
    requires LatestOffer(es, LatestSwitch(es)).Some?
    ensures var r := RouteAll(es);
      && r.sent != [] && r.sent[|r.sent| - 1] == EntryOf(LatestOffer(es, LatestSwitch(es)).value)
    decreases |es|
  {
    var pre, e := es[..|es| - 1], es[|es| - 1];
    SlotsHoldLatestOffers(es, LatestSwitch(es));
    SlotsHoldLatestOffers(pre, LatestSwitch(es));
    SlotsHoldLatestOffers(pre, LatestSwitch(pre));
    if LatestSwitch(pre) == LatestSwitch(es) && LatestOffer(pre, LatestSwitch(pre)).Some? {
      SolversFollowTheActivePool(pre);
    }
  }

  /**
    When the solvers are sent something: on an offer of the active pool, that offer; on a change
    to the other pool while it has a live job, that job; otherwise -- an offer of the idle pool,
    a switch to the pool already active or to one without a job, a dropped pool -- nothing.
   */
  lemma DispatchesExactly(es: seq<RouterEvent>, e: RouterEvent)
    ensures var before, after := RouteAll(es).sent, RouteAll(es + [e]).sent;
      && (e.Offer? ==> after == if e.from == LatestSwitch(es) then before + [EntryOf(e)] else before)
      && (e.SetActive? ==>
            after == if e.to != LatestSwitch(es) && LatestOffer(es, e.to).Some?
                     then before + [EntryOf(LatestOffer(es, e.to).value)] else before)
      && (e.Clear? ==> after == before)
  {
    assert (es + [e])[..|es|] == es;
    SlotsHoldLatestOffers(es, Main);
    SlotsHoldLatestOffers(es, Dev);
  }

  /** How often that is: once per such event of the whole history. */
  function DispatchCount(es: seq<RouterEvent>): nat
    decreases |es|
  {
    if es == [] then 0
    else
      var pre, e := es[..|es| - 1], es[|es| - 1];
      DispatchCount(pre)
      + if (e.Offer? && e.from == LatestSwitch(pre))
        || (e.SetActive? && e.to != LatestSwitch(pre) && LatestOffer(pre, e.to).Some?) then 1 else 0
  }

  lemma {:induction false} SentOncePerDispatch(es: seq<RouterEvent>)
    ensures |RouteAll(es).sent| == DispatchCount(es)
    decreases |es|
  {
    hide RouteAll, LatestOffer, LatestSwitch;
    if es == [] {
      NothingSent();
    } else {
      var pre := es[..|es| - 1];
      assert es == pre + [es[|es| - 1]];
      SentOncePerDispatch(pre);
      DispatchesExactly(pre, es[|es| - 1]);
    }
  }

  lemma NothingSent()
    ensures RouteAll([]).sent == []
  {
  }

  /** Nothing is dispatched that some pool did not offer under that prefix. */
  lemma {:induction false} DispatchesWereOffered(es: seq<RouterEvent>, i: nat)
    requires i < |RouteAll(es).sent|
    ensures Offered(es, RouteAll(es).sent[i])
    decreases |es|
  {
    var pre, e := es[..|es| - 1], es[|es| - 1];
    var before := RouteAll(pre);
    if i < |before.sent| {
      DispatchesWereOffered(pre, i);
      var k :| 0 <= k < |pre| && pre[k].Offer? && EntryOf(pre[k]) == before.sent[i];
      assert es[k] == pre[k];
    } else if e.Offer? {
      assert es[|es| - 1].Offer? && EntryOf(es[|es| - 1]) == RouteAll(es).sent[i];
    } else {
      LatestWasOffered(pre, e.to);
      SlotsHoldLatestOffers(pre, e.to);
      var k :| 0 <= k < |pre| && pre[k] == LatestOffer(pre, e.to).value;
      assert es[k] == pre[k];
    }
  }

  lemma {:induction false} LatestWasOffered(es: seq<RouterEvent>, origin: Origin)
    ensures LatestOffer(es, origin).Some? ==>
      exists k :: 0 <= k < |es| && es[k] == LatestOffer(es, origin).value
    decreases |es|
  {
    if es == [] {
    } else {
      var pre := es[..|es| - 1];
      LatestWasOffered(pre, origin);
      if LatestOffer(es, origin).Some? {
        if LatestOffer(es, origin) == LatestOffer(pre, origin) {
          var k :| 0 <= k < |pre| && pre[k] == LatestOffer(pre, origin).value;
          assert es[k] == pre[k];
        } else {
          assert es[|es| - 1] == LatestOffer(es, origin).value;
        }
      }
    }
  }
}

/** The router in front of an engine: every solution goes home. */
module SolutionsGoHome {
  import opened Origins
  import opened NonceLanes
  import opened Engine
  import opened EngineRuns
  import opened Routing

  /** The posts of an engine's run, in order. */
  function PostsOf(es: seq<Event>): seq<Entry>
  {
    if es == [] then [] else (if es[0].Post? then [es[0].entry] else []) + PostsOf(es[1..])
  }

  lemma PostStep(cfg: Config, s: State, e: Event)
    requires Enabled(s, e)
    ensures Next(cfg, s, e).posts == if e.Post? then s.posts + [e.entry] else s.posts
  {
    hide NonceBytes, WellFormed;
  }

  lemma {:induction false} RunPosts(cfg: Config, s: State, es: seq<Event>)
    requires CanRun(cfg, s, es)
    ensures Run(cfg, s, es).posts == s.posts + PostsOf(es)
    decreases |es|
  {
    hide Next, Enabled;
    if es == [] {
    } else {
      PostStep(cfg, s, es[0]);
      RunPosts(cfg, Next(cfg, s, es[0]), es[1..]);
      if es[0].Post? {
        assert (s.posts + [es[0].entry]) + PostsOf(es[1..]) == s.posts + ([es[0].entry] + PostsOf(es[1..]));
      } else {
        assert PostsOf(es) == PostsOf(es[1..]);
      }
    }
  }

  /** The two connections, and the one a solution is handed to. */
  datatype Connection = UserPool | FeePool

  function ConnectionOf(origin: Origin): Connection { if origin.Dev? then FeePool else UserPool }

  /** Offer e issued the job of submission x, on the connection x is handed to. */
  ghost predicate Issued(cfg: Config, e: RouterEvent, x: Submission)
  {
    e.Offer? && ConnectionOf(e.from) == ConnectionOf(x.origin) && SubmittedFor(cfg, EntryOf(e), x)
  }

  /**
    Run the router through any history, and any engine on the posts it has received of what the
    router dispatched (it may lag behind, never reorder). Every solution the engine submits goes
    to the connection that offered its job, whatever pool is active by then, with a nonce that
    carries the prefix that connection assigned.
   */
  lemma EverySolutionGoesHome(rs: seq<RouterEvent>, cfg: Config, es: seq<Event>, s: State, i: nat)
    requires Reachable(cfg, es, s) && PostsOf(es) <= RouteAll(rs).sent
    requires i < |s.log|
    ensures exists k :: 0 <= k < |rs| && Issued(cfg, rs[k], s.log[i])
  {
    hide *;
    PostsWereDispatched(cfg, es, s);
    SubmissionsComeFromOnePost(cfg, es, s, i);
    var k :| 0 <= k < |s.posts| && SubmittedFor(cfg, s.posts[k], s.log[i]);
    PostWasIssued(rs, cfg, s.posts[k], k, s.log[i]);
  }

  lemma PostsWereDispatched(cfg: Config, es: seq<Event>, s: State)
    requires Reachable(cfg, es, s)
    ensures s.posts == PostsOf(es)
  {
    hide Run, CanRun, PostsOf;
    RunPosts(cfg, Init(cfg), es);
  }

  lemma PostWasIssued(rs: seq<RouterEvent>, cfg: Config, entry: Entry, k: nat, x: Submission)
    requires k < |RouteAll(rs).sent| && entry == RouteAll(rs).sent[k] && SubmittedFor(cfg, entry, x)
    ensures exists n :: 0 <= n < |rs| && Issued(cfg, rs[n], x)
  {
    hide RouteAll, NonceBytes, WalkCounter, CarriesNibble;
    DispatchesWereOffered(rs, k);
    var n :| 0 <= n < |rs| && rs[n].Offer? && EntryOf(rs[n]) == entry;
    assert Issued(cfg, rs[n], x);
  }
}
