/** The queue-depth benchmark: client and worker threads over a submission and a completion queue. */
module QueueBenchmark {

  /** ops requests per client; total is what the workers wait to see reaped. */
  datatype Config = Config(clients: nat, workers: nat, total: nat)

  function OpsPerClient(cfg: Config): nat
    requires cfg.clients > 0
  {
    cfg.total / cfg.clients
  }

  /** A client before its next request, trying to claim a slot, filling it, trying to reap, holding a
      completion (copying it out and about to count it), or done; done counts the iterations behind it. */
  datatype Client =
    | Ready(done: nat)
    | Submitting(done: nat, cid: nat)
    | Publishing(done: nat, cid: nat)
    | Reaping(done: nat)
    | Counting(done: nat, cid: nat)
    | Finished(done: nat)

  /** A worker at the first or the second half of its loop test, polling, holding a request (copying it out,
      serving it and trying to claim a completion slot), filling that slot, or gone. */
  datatype Worker = Checking | CheckingReaped | Polling | Holding(cid: nat) | Announcing(cid: nat) | Exited

  /** Where a request is. */
  datatype Place = AtClient(c: nat) | InSq | AtWorker(w: nat) | InCq | AtReaper(c: nat) | Reaped

  datatype Bench = Bench(clients: seq<Client>, workers: seq<Worker>, sq: seq<nat>, cq: seq<nat>,
                         submitted: nat, reaped: nat, active: bool, place: seq<Place>)

  datatype Event =
    | Issue(c: nat) | Submit(c: nat) | Publish(c: nat) | Reap(c: nat) | CountUp(c: nat)
    | Check(w: nat) | CheckReaped(w: nat) | Take(w: nat) | Miss(w: nat) | Complete(w: nat) | Announce(w: nat)
    | Stop

  function Start(cfg: Config): Bench {
    Bench(seq(cfg.clients, _ => Ready(0)), seq(cfg.workers, _ => Checking), [], [], 0, 0, true, [])
  }

  predicate Enabled(s: Bench, e: Event) {
    match e
    case Issue(c) => c < |s.clients| && s.clients[c].Ready?
    case Submit(c) => c < |s.clients| && s.clients[c].Submitting? && s.clients[c].cid < |s.place|
    case Publish(c) => c < |s.clients| && s.clients[c].Publishing?
    case Reap(c) =>
      && c < |s.clients| && s.clients[c].Reaping? && s.cq != [] && s.cq[0] < |s.place|
      && forall w :: 0 <= w < |s.workers| ==> s.workers[w] != Announcing(s.cq[0])
    case CountUp(c) => c < |s.clients| && s.clients[c].Counting? && s.clients[c].cid < |s.place|
    case Check(w) => w < |s.workers| && s.workers[w].Checking?
    case CheckReaped(w) => w < |s.workers| && s.workers[w].CheckingReaped?
    case Take(w) =>
      && w < |s.workers| && s.workers[w].Polling? && s.sq != [] && s.sq[0] < |s.place|
      && forall c :: 0 <= c < |s.clients| && s.clients[c].Publishing? ==> s.clients[c].cid != s.sq[0]
    case Miss(w) => w < |s.workers| && s.workers[w].Polling?
    case Complete(w) => w < |s.workers| && s.workers[w].Holding? && s.workers[w].cid < |s.place|
    case Announce(w) => w < |s.workers| && s.workers[w].Announcing?
    case Stop => forall c :: 0 <= c < |s.clients| ==> s.clients[c].Finished?
  }

  /** One atomic step. A queue changes at the swap that claims a ticket; what was claimed for a push can be popped
      once it is published. A push or pop that is refused changes nothing but a worker's place in its loop. */
  function Next(cfg: Config, s: Bench, e: Event): Bench
    requires cfg.clients > 0 && Enabled(s, e)
  {
    match e
    case Issue(c) => IssueStep(cfg, s, c)
    case Submit(c) =>
      var x := s.clients[c];
      s.(sq := s.sq + [x.cid], clients := s.clients[c := Publishing(x.done, x.cid)], place := s.place[x.cid := InSq])
    case Publish(c) => s.(clients := s.clients[c := Reaping(s.clients[c].done)])
    case Reap(c) =>
      s.(cq := s.cq[1..], clients := s.clients[c := Counting(s.clients[c].done, s.cq[0])],
         place := s.place[s.cq[0] := AtReaper(c)])
    case CountUp(c) =>
      var x := s.clients[c];
      s.(reaped := s.reaped + 1, clients := s.clients[c := Ready(x.done + 1)], place := s.place[x.cid := Reaped])
    case Check(w) => s.(workers := s.workers[w := if s.active then Polling else CheckingReaped])
    case CheckReaped(w) => s.(workers := s.workers[w := if s.reaped < cfg.total then Polling else Exited])
    case Take(w) =>
      s.(sq := s.sq[1..], workers := s.workers[w := Holding(s.sq[0])], place := s.place[s.sq[0] := AtWorker(w)])
    case Miss(w) => s.(workers := s.workers[w := Checking])
    case Complete(w) =>
      var cid := s.workers[w].cid;
      s.(cq := s.cq + [cid], workers := s.workers[w := Announcing(cid)], place := s.place[cid := InCq])
    case Announce(w) => s.(workers := s.workers[w := Checking])
    case Stop => s.(active := false)
  }

  function IssueStep(cfg: Config, s: Bench, c: nat): Bench
    requires cfg.clients > 0 && c < |s.clients|
  {
    var done := s.clients[c].done;
    if done >= OpsPerClient(cfg) then s.(clients := s.clients[c := Finished(done)])
    else if s.submitted >= cfg.total then
      s.(submitted := s.submitted + 1, clients := s.clients[c := Finished(done)])
    else
      s.(submitted := s.submitted + 1, clients := s.clients[c := Submitting(done, s.submitted)],
         place := s.place + [AtClient(c)])
  }

  ghost predicate Run(cfg: Config, states: seq<Bench>, events: seq<Event>) {
    && cfg.clients > 0 && |states| == |events| + 1 && states[0] == Start(cfg)
    && forall k :: 0 <= k < |events| ==>
         Enabled(states[k], events[k]) && states[k + 1] == Next(cfg, states[k], events[k])
  }

  // ---------------------------------------------------------------- sums over the clients

  /** How many requests a client has drawn. */
  function Drawn(x: Client): nat {
    if x.Ready? || x.Finished? then x.done else x.done + 1
  }

  function Busy(x: Client): nat {
    if x.Ready? || x.Finished? then 0 else 1
  }

  function SumDrawn(xs: seq<Client>): nat {
    if xs == [] then 0 else SumDrawn(xs[..|xs| - 1]) + Drawn(xs[|xs| - 1])
  }

  function SumBusy(xs: seq<Client>): (n: nat)
    ensures n <= |xs|
  {
    if xs == [] then 0 else SumBusy(xs[..|xs| - 1]) + Busy(xs[|xs| - 1])
  }

  function CountReaped(ps: seq<Place>): nat {
    if ps == [] then 0 else CountReaped(ps[..|ps| - 1]) + if ps[|ps| - 1].Reaped? then 1 else 0
  }

  lemma {:induction false} SumsUpdate(xs: seq<Client>, c: nat, x: Client)
    requires c < |xs|
    ensures SumDrawn(xs[c := x]) == SumDrawn(xs) + Drawn(x) - Drawn(xs[c])
    ensures SumBusy(xs[c := x]) == SumBusy(xs) + Busy(x) - Busy(xs[c])
  {
    var n := |xs| - 1;
    if c == n {
      assert xs[c := x][..n] == xs[..n];
    } else {
      SumsUpdate(xs[..n], c, x);
      assert xs[c := x][..n] == xs[..n][c := x];
    }
  }

  lemma {:induction false} CountReapedUpdate(ps: seq<Place>, k: nat, p: Place)
    requires k < |ps|
    ensures CountReaped(ps[k := p]) == CountReaped(ps) + (if p.Reaped? then 1 else 0) - (if ps[k].Reaped? then 1 else 0)
  {
    var n := |ps| - 1;
    if k == n {
      assert ps[k := p][..n] == ps[..n];
    } else {
      CountReapedUpdate(ps[..n], k, p);
      assert ps[k := p][..n] == ps[..n][k := p];
    }
  }

  lemma {:induction false} DrawnBound(xs: seq<Client>, ops: nat)
    requires forall c :: 0 <= c < |xs| ==> Drawn(xs[c]) <= ops
    ensures SumDrawn(xs) <= |xs| * ops
    ensures SumDrawn(xs) == |xs| * ops <==> forall c :: 0 <= c < |xs| ==> Drawn(xs[c]) == ops
  {
    if xs != [] {
      DrawnBound(xs[..|xs| - 1], ops);
      assert |xs| * ops == (|xs| - 1) * ops + ops;
    }
  }

  lemma {:induction false} BusyNone(xs: seq<Client>)
    ensures SumBusy(xs) == 0 <==> forall c :: 0 <= c < |xs| ==> Busy(xs[c]) == 0
  {
    if xs != [] {
      BusyNone(xs[..|xs| - 1]);
    }
  }

  /** How many clients have a request in hand. */
  function SumCarrying(xs: seq<Client>): nat {
    if xs == [] then 0 else SumCarrying(xs[..|xs| - 1]) + Carries(xs[|xs| - 1])
  }

  function Carries(x: Client): nat {
    if x.Submitting? || x.Counting? then 1 else 0
  }

  function SumLoaded(ws: seq<Worker>): nat {
    if ws == [] then 0 else SumLoaded(ws[..|ws| - 1]) + Loads(ws[|ws| - 1])
  }

  function Loads(w: Worker): nat {
    if w.Holding? then 1 else 0
  }

  lemma {:induction false} CarryingUpdate(xs: seq<Client>, c: nat, x: Client)
    requires c < |xs|
    ensures SumCarrying(xs[c := x]) == SumCarrying(xs) + Carries(x) - Carries(xs[c])
    ensures SumCarrying(xs) >= Carries(xs[c])
  {
    var n := |xs| - 1;
    if c == n {
      assert xs[c := x][..n] == xs[..n];
    } else {
      CarryingUpdate(xs[..n], c, x);
      assert xs[c := x][..n] == xs[..n][c := x];
    }
  }

  lemma {:induction false} LoadedUpdate(ws: seq<Worker>, w: nat, x: Worker)
    requires w < |ws|
    ensures SumLoaded(ws[w := x]) == SumLoaded(ws) + Loads(x) - Loads(ws[w])
    ensures SumLoaded(ws) >= Loads(ws[w])
  {
    var n := |ws| - 1;
    if w == n {
      assert ws[w := x][..n] == ws[..n];
    } else {
      LoadedUpdate(ws[..n], w, x);
      assert ws[w := x][..n] == ws[..n][w := x];
    }
  }

  lemma {:induction false} CountReapedAll(ps: seq<Place>)
    ensures CountReaped(ps) <= |ps|
    ensures CountReaped(ps) == |ps| <==> forall k :: 0 <= k < |ps| ==> ps[k].Reaped?
  {
    if ps != [] {
      CountReapedAll(ps[..|ps| - 1]);
    }
  }

  // ---------------------------------------------------------------- the invariant

  /** A queue holds exactly the requests placed in it, each once. */
  ghost predicate Queued(q: seq<nat>, place: seq<Place>, here: Place) {
    && (forall k :: 0 <= k < |q| ==> q[k] < |place| && place[q[k]] == here)
    && (forall j, k :: 0 <= j < k < |q| ==> q[j] != q[k])
    && (forall cid :: 0 <= cid < |place| && place[cid] == here ==> cid in q)
  }

  /** A thread holds exactly the request placed at it; one filling a slot still has its request in the queue. */
  ghost predicate ClientFits(x: Client, c: nat, place: seq<Place>) {
    && (x.Submitting? ==> x.cid < |place| && place[x.cid] == AtClient(c))
    && (x.Publishing? ==> x.cid < |place| && place[x.cid] == InSq)
    && (x.Counting? ==> x.cid < |place| && place[x.cid] == AtReaper(c))
  }

  ghost predicate WorkerFits(x: Worker, w: nat, place: seq<Place>) {
    && (x.Holding? ==> x.cid < |place| && place[x.cid] == AtWorker(w))
    && (x.Announcing? ==> x.cid < |place| && place[x.cid] == InCq)
  }

  ghost predicate PlaceFits(p: Place, cid: nat, clients: seq<Client>, workers: seq<Worker>) {
    match p
    case AtClient(c) => c < |clients| && clients[c].Submitting? && clients[c].cid == cid
    case AtReaper(c) => c < |clients| && clients[c].Counting? && clients[c].cid == cid
    case AtWorker(w) => w < |workers| && workers[w] == Holding(cid)
    case _ => true
  }

  ghost predicate Held(s: Bench) {
    && (forall c :: 0 <= c < |s.clients| ==> ClientFits(s.clients[c], c, s.place))
    && (forall w :: 0 <= w < |s.workers| ==> WorkerFits(s.workers[w], w, s.place))
    && (forall cid :: 0 <= cid < |s.place| ==> PlaceFits(s.place[cid], cid, s.clients, s.workers))
  }

  /** The counters agree with the threads and the places. */
  ghost predicate Numbered(cfg: Config, s: Bench) {
    && |s.clients| == cfg.clients && |s.workers| == cfg.workers
    && |s.place| == s.submitted == SumDrawn(s.clients)
    && s.reaped == CountReaped(s.place)
    && SumBusy(s.clients) == s.submitted - s.reaped
  }

  /** Every outstanding request is in a queue or in hand, once. */
  ghost predicate Conserved(s: Bench) {
    |s.sq| + |s.cq| + SumCarrying(s.clients) + SumLoaded(s.workers) == s.submitted - s.reaped
  }

  ghost predicate Shared(cfg: Config, s: Bench)
    requires cfg.clients > 0
  {
    && (forall c :: 0 <= c < |s.clients| ==> Drawn(s.clients[c]) <= OpsPerClient(cfg))
    && (forall c :: 0 <= c < |s.clients| && s.clients[c].Finished? ==> s.clients[c].done == OpsPerClient(cfg))
  }

  ghost predicate Stopping(cfg: Config, s: Bench) {
    && (!s.active ==> forall c :: 0 <= c < |s.clients| ==> s.clients[c].Finished?)
    && (forall w :: 0 <= w < |s.workers| && s.workers[w].CheckingReaped? ==> !s.active)
    && (forall w :: 0 <= w < |s.workers| && s.workers[w].Exited? ==> !s.active && s.reaped >= cfg.total)
  }

  ghost predicate Inv(cfg: Config, s: Bench) {
    && cfg.clients > 0
    && Queued(s.sq, s.place, InSq) && Queued(s.cq, s.place, InCq) && Held(s)
    && Numbered(cfg, s) && Conserved(s) && Shared(cfg, s) && Stopping(cfg, s)
  }

  lemma StartInv(cfg: Config)
    requires cfg.clients > 0
    ensures Inv(cfg, Start(cfg))
  {
    AllReady(Start(cfg).clients);
    AllChecking(Start(cfg).workers);
  }

  lemma {:induction false} AllReady(xs: seq<Client>)
    requires forall c :: 0 <= c < |xs| ==> xs[c] == Ready(0)
    ensures SumDrawn(xs) == 0 && SumBusy(xs) == 0 && SumCarrying(xs) == 0
  {
    if xs != [] {
      AllReady(xs[..|xs| - 1]);
    }
  }

  lemma {:induction false} AllChecking(ws: seq<Worker>)
    requires forall w :: 0 <= w < |ws| ==> ws[w] == Checking
    ensures SumLoaded(ws) == 0
  {
    if ws != [] {
      AllChecking(ws[..|ws| - 1]);
    }
  }

  lemma QueueAppend(q: seq<nat>, place: seq<Place>, here: Place, x: nat)
    requires Queued(q, place, here) && x < |place| && place[x] != here
    ensures Queued(q + [x], place[x := here], here)
  {
  }

  lemma QueuePop(q: seq<nat>, place: seq<Place>, here: Place, there: Place)
    requires Queued(q, place, here) && q != [] && there != here
    ensures q[0] < |place| && Queued(q[1..], place[q[0] := there], here)
  {
  }

  lemma QueueOther(q: seq<nat>, place: seq<Place>, here: Place, x: nat, there: Place)
    requires Queued(q, place, here) && x < |place| && place[x] != here && there != here
    ensures Queued(q, place[x := there], here)
  {
  }

  lemma QueueGrow(q: seq<nat>, place: seq<Place>, here: Place, there: Place)
    requires Queued(q, place, here) && there != here
    ensures Queued(q, place + [there], here)
  {
  }

  lemma OpsFit(cfg: Config)
    requires cfg.clients > 0
    ensures cfg.clients * OpsPerClient(cfg) <= cfg.total
    ensures cfg.clients * OpsPerClient(cfg) == cfg.total <==> cfg.total % cfg.clients == 0
  {
  }

  /** There is a request left for this client to draw, so the benchmark's early exit is never taken. */
  lemma RoomToDraw(cfg: Config, s: Bench, c: nat)
    requires Inv(cfg, s) && c < |s.clients| && s.clients[c].Ready? && s.clients[c].done < OpsPerClient(cfg)
    ensures s.submitted < cfg.total
  {
    OpsFit(cfg);
    var ops := OpsPerClient(cfg);
    hide OpsPerClient;
    hide Held;
    hide Queued;
    hide SumDrawn;
    hide SumBusy;
    hide CountReaped;
    DrawnBound(s.clients, ops);
    assert Drawn(s.clients[c]) < ops;
  }

  /** The request an event moves, if any. */
  function Mover(s: Bench, e: Event): (cid: int)
    requires Enabled(s, e)
    ensures cid < |s.place|
  {
    match e
    case Submit(c) => s.clients[c].cid
    case Reap(_) => s.cq[0]
    case CountUp(c) => s.clients[c].cid
    case Take(_) => s.sq[0]
    case Complete(w) => s.workers[w].cid
    case _ => -1
  }

  /** Where a moved request was. */
  lemma MovedFrom(s: Bench, e: Event)
    requires Held(s) && Queued(s.sq, s.place, InSq) && Queued(s.cq, s.place, InCq) && Enabled(s, e)
    ensures e.Submit? ==> s.place[s.clients[e.c].cid] == AtClient(e.c)
    ensures e.Reap? ==> s.place[s.cq[0]] == InCq
    ensures e.CountUp? ==> s.place[s.clients[e.c].cid] == AtReaper(e.c)
    ensures e.Take? ==> s.place[s.sq[0]] == InSq
    ensures e.Complete? ==> s.place[s.workers[e.w].cid] == AtWorker(e.w)
  {
    if e.Submit? || e.CountUp? {
      assert ClientFits(s.clients[e.c], e.c, s.place);
    } else if e.Complete? {
      assert WorkerFits(s.workers[e.w], e.w, s.place);
    }
  }

  lemma StepQueues(cfg: Config, s: Bench, e: Event)
    requires Inv(cfg, s) && Enabled(s, e)
    ensures var t := Next(cfg, s, e); Queued(t.sq, t.place, InSq) && Queued(t.cq, t.place, InCq)
  {
    MovedFrom(s, e);
    hide Numbered;
    hide Conserved;
    hide Shared;
    hide Stopping;
    hide Held;
    hide OpsPerClient;
    match e {
      case Issue(c) =>
        QueueGrow(s.sq, s.place, InSq, AtClient(c));
        QueueGrow(s.cq, s.place, InCq, AtClient(c));
      case Submit(c) =>
        QueueAppend(s.sq, s.place, InSq, s.clients[c].cid);
        QueueOther(s.cq, s.place, InCq, s.clients[c].cid, InSq);
      case Reap(c) =>
        QueuePop(s.cq, s.place, InCq, AtReaper(c));
        QueueOther(s.sq, s.place, InSq, s.cq[0], AtReaper(c));
      case CountUp(c) =>
        QueueOther(s.cq, s.place, InCq, s.clients[c].cid, Reaped);
        QueueOther(s.sq, s.place, InSq, s.clients[c].cid, Reaped);
      case Take(w) =>
        QueuePop(s.sq, s.place, InSq, AtWorker(w));
        QueueOther(s.cq, s.place, InCq, s.sq[0], AtWorker(w));
      case Complete(w) =>
        QueueAppend(s.cq, s.place, InCq, s.workers[w].cid);
        QueueOther(s.sq, s.place, InSq, s.workers[w].cid, InCq);
      case _ =>
    }
    hide Queued;
  }

  // -- who holds what

  lemma ClientStays(s: Bench, e: Event, t: Bench, c: nat)
    requires Held(s) && Enabled(s, e) && c < |s.clients| == |t.clients| && t.clients[c] == s.clients[c]
    requires Queued(s.sq, s.place, InSq) && Queued(s.cq, s.place, InCq)
    requires !(e.Submit? && e.c == c) && !(e.CountUp? && e.c == c)
    requires |s.place| <= |t.place|
    requires forall cid :: 0 <= cid < |s.place| && cid != Mover(s, e) ==> t.place[cid] == s.place[cid]
    ensures ClientFits(t.clients[c], c, t.place)
  {
    MovedFrom(s, e);
    hide Queued;
    assert ClientFits(s.clients[c], c, s.place);
  }

  lemma WorkerStays(s: Bench, e: Event, t: Bench, w: nat)
    requires Held(s) && Enabled(s, e) && w < |s.workers| == |t.workers| && t.workers[w] == s.workers[w]
    requires Queued(s.sq, s.place, InSq) && Queued(s.cq, s.place, InCq)
    requires !(e.Complete? && e.w == w)
    requires |s.place| <= |t.place|
    requires forall cid :: 0 <= cid < |s.place| && cid != Mover(s, e) ==> t.place[cid] == s.place[cid]
    ensures WorkerFits(t.workers[w], w, t.place)
  {
    MovedFrom(s, e);
    hide Queued;
    assert WorkerFits(s.workers[w], w, s.place);
  }

  /** A step moves at most the one request, and changes the thread that takes it and no other. */
  lemma StepShape(cfg: Config, s: Bench, e: Event)
    requires cfg.clients > 0 && Enabled(s, e)
    ensures var t := Next(cfg, s, e);
            && |t.clients| == |s.clients| && |t.workers| == |s.workers| && |s.place| <= |t.place| <= |s.place| + 1
            && (forall c :: 0 <= c < |s.clients| && !(OfClient(e) && e.c == c) ==> t.clients[c] == s.clients[c])
            && (forall w :: 0 <= w < |s.workers| && !(OfWorker(e) && e.w == w) ==> t.workers[w] == s.workers[w])
            && (forall cid :: 0 <= cid < |s.place| && cid != Mover(s, e) ==> t.place[cid] == s.place[cid])
            && (|t.place| == |s.place| + 1 ==> e.Issue? && t.place[|s.place|] == AtClient(e.c))
  {
    hide OpsPerClient;
  }

  predicate OfClient(e: Event) {
    e.Issue? || e.Submit? || e.Publish? || e.Reap? || e.CountUp?
  }

  predicate OfWorker(e: Event) {
    e.Check? || e.CheckReaped? || e.Take? || e.Miss? || e.Complete? || e.Announce?
  }

  lemma StepClientsHold(cfg: Config, s: Bench, e: Event, c: nat)
    requires Inv(cfg, s) && Enabled(s, e) && c < |s.clients|
    ensures var t := Next(cfg, s, e); c < |t.clients| && ClientFits(t.clients[c], c, t.place)
  {
    var t := Next(cfg, s, e);
    StepShape(cfg, s, e);
    MovedFrom(s, e);
    assert ClientFits(s.clients[c], c, s.place) && |s.place| == s.submitted;
    if OfClient(e) && e.c == c {
      hide Queued;
      hide Held;
    } else {
      ClientStays(s, e, t, c);
    }
  }

  lemma StepWorkersHold(cfg: Config, s: Bench, e: Event, w: nat)
    requires Inv(cfg, s) && Enabled(s, e) && w < |s.workers|
    ensures var t := Next(cfg, s, e); w < |t.workers| && WorkerFits(t.workers[w], w, t.place)
  {
    var t := Next(cfg, s, e);
    StepShape(cfg, s, e);
    MovedFrom(s, e);
    assert WorkerFits(s.workers[w], w, s.place);
    if OfWorker(e) && e.w == w {
      hide Queued;
      hide Held;
    } else {
      WorkerStays(s, e, t, w);
    }
  }

  /** A request that stays where it was stays with its thread. */
  lemma PlaceStays(cfg: Config, s: Bench, e: Event, cid: nat)
    requires Held(s) && cfg.clients > 0 && Enabled(s, e) && cid < |s.place| && cid != Mover(s, e)
    ensures var t := Next(cfg, s, e);
            PlaceFits(s.place[cid], cid, t.clients, t.workers)
  {
    assert PlaceFits(s.place[cid], cid, s.clients, s.workers);
    hide Held;
    hide OpsPerClient;
  }

  lemma PlaceMoves(cfg: Config, s: Bench, e: Event)
    requires cfg.clients > 0 && Enabled(s, e) && Mover(s, e) >= 0
    ensures var t := Next(cfg, s, e);
            PlaceFits(t.place[Mover(s, e)], Mover(s, e), t.clients, t.workers)
  {
    hide OpsPerClient;
  }

  lemma PlaceStarts(cfg: Config, s: Bench, e: Event)
    requires cfg.clients > 0 && Enabled(s, e) && e.Issue? && |s.place| == s.submitted
    ensures var t := Next(cfg, s, e);
            |t.place| == |s.place| + 1 ==> PlaceFits(t.place[|s.place|], |s.place|, t.clients, t.workers)
  {
    hide OpsPerClient;
  }

  lemma StepPlacesHold(cfg: Config, s: Bench, e: Event, cid: nat)
    requires Inv(cfg, s) && Enabled(s, e) && cid < |Next(cfg, s, e).place|
    ensures var t := Next(cfg, s, e); PlaceFits(t.place[cid], cid, t.clients, t.workers)
  {
    StepShape(cfg, s, e);
    assert |s.place| == s.submitted;
    hide Next;
    hide Enabled;
    hide PlaceFits;
    if cid == |s.place| {
      PlaceStarts(cfg, s, e);
    } else if cid == Mover(s, e) {
      PlaceMoves(cfg, s, e);
    } else {
      PlaceStays(cfg, s, e, cid);
    }
  }

  lemma StepHeld(cfg: Config, s: Bench, e: Event)
    requires Inv(cfg, s) && Enabled(s, e)
    ensures Held(Next(cfg, s, e))
  {
    var t := Next(cfg, s, e);
    StepShape(cfg, s, e);
    hide Inv;
    hide Next;
    hide Enabled;
    forall c | 0 <= c < |t.clients| ensures ClientFits(t.clients[c], c, t.place) {
      StepClientsHold(cfg, s, e, c);
    }
    forall w | 0 <= w < |t.workers| ensures WorkerFits(t.workers[w], w, t.place) {
      StepWorkersHold(cfg, s, e, w);
    }
    forall cid | 0 <= cid < |t.place| ensures PlaceFits(t.place[cid], cid, t.clients, t.workers) {
      StepPlacesHold(cfg, s, e, cid);
    }
  }

  // -- the sums

  /** How the sums move when one client, one worker and one place are changed. */
  lemma ClientSums(cfg: Config, s: Bench, e: Event)
    requires cfg.clients > 0 && Enabled(s, e) && OfClient(e)
    ensures var t := Next(cfg, s, e);
            && t.workers == s.workers && t.clients == s.clients[e.c := t.clients[e.c]]
            && SumDrawn(t.clients) == SumDrawn(s.clients) + Drawn(t.clients[e.c]) - Drawn(s.clients[e.c])
            && SumBusy(t.clients) == SumBusy(s.clients) + Busy(t.clients[e.c]) - Busy(s.clients[e.c])
            && SumCarrying(t.clients) == SumCarrying(s.clients) + Carries(t.clients[e.c]) - Carries(s.clients[e.c])
  {
    hide OpsPerClient;
    hide SumDrawn;
    hide SumBusy;
    hide SumCarrying;
    var t := Next(cfg, s, e);
    SumsUpdate(s.clients, e.c, t.clients[e.c]);
    CarryingUpdate(s.clients, e.c, t.clients[e.c]);
  }

  lemma WorkerSums(cfg: Config, s: Bench, e: Event)
    requires cfg.clients > 0 && Enabled(s, e) && OfWorker(e)
    ensures var t := Next(cfg, s, e);
            && t.clients == s.clients && t.workers == s.workers[e.w := t.workers[e.w]]
            && SumLoaded(t.workers) == SumLoaded(s.workers) + Loads(t.workers[e.w]) - Loads(s.workers[e.w])
  {
    hide OpsPerClient;
    hide SumLoaded;
    var t := Next(cfg, s, e);
    LoadedUpdate(s.workers, e.w, t.workers[e.w]);
  }

  lemma ReapedGrow(ps: seq<Place>, p: Place)
    requires !p.Reaped?
    ensures CountReaped(ps + [p]) == CountReaped(ps)
  {
  }

  /** Only the counting step makes a request reaped, and none is ever taken back. */
  lemma StepReaped(cfg: Config, s: Bench, e: Event)
    requires Inv(cfg, s) && Enabled(s, e)
    ensures CountReaped(Next(cfg, s, e).place) == CountReaped(s.place) + if e.CountUp? then 1 else 0
  {
    MovedFrom(s, e);
    hide OpsPerClient;
    hide Held;
    hide Queued;
    hide Shared;
    hide Stopping;
    hide CountReaped;
    var t := Next(cfg, s, e);
    if e.Issue? {
      ReapedGrow(s.place, AtClient(e.c));
    } else if Mover(s, e) >= 0 {
      CountReapedUpdate(s.place, Mover(s, e), t.place[Mover(s, e)]);
      assert t.place == s.place[Mover(s, e) := t.place[Mover(s, e)]];
    }
  }

  /** One more request drawn, or one more reaped, or neither. */
  lemma StepCounters(cfg: Config, s: Bench, e: Event) returns (drawn: nat, counted: nat)
    requires cfg.clients > 0 && Enabled(s, e)
    requires e.Issue? && s.clients[e.c].done < OpsPerClient(cfg) ==> s.submitted < cfg.total
    ensures counted == if e.CountUp? then 1 else 0
    ensures var t := Next(cfg, s, e);
            && t.submitted == s.submitted + drawn && |t.place| == |s.place| + drawn && t.reaped == s.reaped + counted
            && (OfClient(e) ==>
                  && Drawn(t.clients[e.c]) - Drawn(s.clients[e.c]) == drawn
                  && Busy(t.clients[e.c]) - Busy(s.clients[e.c]) == drawn - counted)
            && (!OfClient(e) ==> t.clients == s.clients && drawn == 0)
  {
    hide OpsPerClient;
    drawn := if e.Issue? && s.clients[e.c].done < OpsPerClient(cfg) then 1 else 0;
    counted := if e.CountUp? then 1 else 0;
  }

  lemma StepQueueLengths(cfg: Config, s: Bench, e: Event)
    requires cfg.clients > 0 && Enabled(s, e)
    requires e.Issue? && s.clients[e.c].done < OpsPerClient(cfg) ==> s.submitted < cfg.total
    ensures var t := Next(cfg, s, e);
            var carried := if OfClient(e) then Carries(t.clients[e.c]) - Carries(s.clients[e.c]) else 0;
            var loaded := if OfWorker(e) then Loads(t.workers[e.w]) - Loads(s.workers[e.w]) else 0;
            |t.sq| + |t.cq| + carried + loaded - (t.submitted - t.reaped)
              == |s.sq| + |s.cq| - (s.submitted - s.reaped)
  {
    hide OpsPerClient;
  }

  lemma StepNumbered(cfg: Config, s: Bench, e: Event)
    requires Inv(cfg, s) && Enabled(s, e)
    ensures Numbered(cfg, Next(cfg, s, e))
  {
    if e.Issue? && s.clients[e.c].done < OpsPerClient(cfg) {
      RoomToDraw(cfg, s, e.c);
    }
    hide Next;
    hide Enabled;
    hide Held;
    hide Queued;
    hide Conserved;
    hide Shared;
    hide Stopping;
    hide CountReaped;
    hide SumDrawn;
    hide SumBusy;
    StepReaped(cfg, s, e);
    StepShape(cfg, s, e);
    var drawn, counted := StepCounters(cfg, s, e);
    if OfClient(e) {
      ClientSums(cfg, s, e);
    }
  }

  lemma StepConserved(cfg: Config, s: Bench, e: Event)
    requires Inv(cfg, s) && Enabled(s, e)
    ensures Conserved(Next(cfg, s, e))
  {
    if e.Issue? && s.clients[e.c].done < OpsPerClient(cfg) {
      RoomToDraw(cfg, s, e.c);
    }
    assert e.Stop? ==> Next(cfg, s, e).clients == s.clients && Next(cfg, s, e).workers == s.workers;
    hide Next;
    hide Enabled;
    hide Held;
    hide Queued;
    hide Numbered;
    hide Shared;
    hide Stopping;
    hide SumCarrying;
    hide SumLoaded;
    StepQueueLengths(cfg, s, e);
    if OfClient(e) {
      ClientSums(cfg, s, e);
    } else if OfWorker(e) {
      WorkerSums(cfg, s, e);
    }
  }

  lemma StepShared(cfg: Config, s: Bench, e: Event)
    requires Inv(cfg, s) && Enabled(s, e)
    ensures Shared(cfg, Next(cfg, s, e))
  {
    if e.Issue? && s.clients[e.c].done < OpsPerClient(cfg) {
      RoomToDraw(cfg, s, e.c);
    }
    hide OpsPerClient;
    hide Held;
    hide Queued;
    hide Stopping;
    hide Numbered;
    hide Conserved;
  }

  lemma StepStopping(cfg: Config, s: Bench, e: Event)
    requires Inv(cfg, s) && Enabled(s, e)
    ensures Stopping(cfg, Next(cfg, s, e))
  {
    hide Held;
    hide Queued;
    hide Numbered;
    hide Conserved;
    hide Shared;
    hide OpsPerClient;
  }

  /** Every atomic step keeps all of it. */
  lemma StepInv(cfg: Config, s: Bench, e: Event)
    requires Inv(cfg, s) && Enabled(s, e)
    ensures Inv(cfg, Next(cfg, s, e))
  {
    StepQueues(cfg, s, e);
    StepHeld(cfg, s, e);
    StepNumbered(cfg, s, e);
    StepConserved(cfg, s, e);
    StepShared(cfg, s, e);
    StepStopping(cfg, s, e);
    hide Held;
    hide Queued;
    hide Numbered;
    hide Conserved;
    hide Shared;
    hide Stopping;
    hide Next;
  }

  lemma {:induction false} RunInv(cfg: Config, states: seq<Bench>, events: seq<Event>, k: nat)
    requires Run(cfg, states, events) && k <= |events|
    ensures Inv(cfg, states[k])
  {
    hide Inv;
    if k == 0 {
      StartInv(cfg);
    } else {
      RunInv(cfg, states, events, k - 1);
      StepInv(cfg, states[k - 1], events[k - 1]);
    }
  }

  // ---------------------------------------------------------------- what the benchmark relies on

  /** Requests outstanding never exceed the clients, and each is with one client, in one queue or with one worker. */
  lemma OutstandingBounded(cfg: Config, states: seq<Bench>, events: seq<Event>, k: nat)
    requires Run(cfg, states, events) && k <= |events|
    ensures var s := states[k];
            && s.submitted - s.reaped <= cfg.clients
            && |s.sq| + |s.cq| + SumCarrying(s.clients) + SumLoaded(s.workers) == s.submitted - s.reaped
  {
    RunInv(cfg, states, events, k);
  }

  /** A thread about to push always finds room in a ring with a slot for every client. */
  lemma PushAlwaysFits(cfg: Config, states: seq<Bench>, events: seq<Event>, k: nat)
    requires Run(cfg, states, events) && k <= |events|
    ensures forall c :: 0 <= c < |states[k].clients| && states[k].clients[c].Submitting? ==>
              |states[k].sq| < cfg.clients
    ensures forall w :: 0 <= w < |states[k].workers| && states[k].workers[w].Holding? ==> |states[k].cq| < cfg.clients
  {
    var s := states[k];
    RunInv(cfg, states, events, k);
    forall c | 0 <= c < |s.clients| && s.clients[c].Submitting? ensures |s.sq| < cfg.clients {
      CarryingUpdate(s.clients, c, s.clients[c]);
    }
    forall w | 0 <= w < |s.workers| && s.workers[w].Holding? ensures |s.cq| < cfg.clients {
      LoadedUpdate(s.workers, w, s.workers[w]);
    }
  }

  /** Requests are never taken from the books: once reaped, a request stays reaped, and is reaped by one step. */
  lemma ReapedOnce(cfg: Config, s: Bench, e: Event, cid: nat)
    requires Inv(cfg, s) && Enabled(s, e) && cid < |s.place|
    ensures var t := Next(cfg, s, e);
            && cid < |t.place| && (s.place[cid].Reaped? ==> t.place[cid].Reaped?)
            && (!s.place[cid].Reaped? && t.place[cid].Reaped? ==>
                  e.CountUp? && s.clients[e.c] == Counting(s.clients[e.c].done, cid) && t.reaped == s.reaped + 1)
  {
    MovedFrom(s, e);
  }

  /** A worker that has left its loop leaves both queues empty and no request anywhere. */
  lemma ExitOnlyWhenDrained(cfg: Config, states: seq<Bench>, events: seq<Event>, k: nat, w: nat)
    requires Run(cfg, states, events) && k <= |events| && w < |states[k].workers| && states[k].workers[w].Exited?
    ensures var s := states[k];
            && s.sq == [] && s.cq == [] && s.reaped == s.submitted == cfg.total
            && forall cid :: 0 <= cid < |s.place| ==> s.place[cid].Reaped?
  {
    var s := states[k];
    RunInv(cfg, states, events, k);
    Drained(cfg, s);
    OpsFit(cfg);
  }

  /** When every client is done, every request was reaped: as many as the clients' equal shares come to. */
  lemma Drained(cfg: Config, s: Bench)
    requires Inv(cfg, s) && forall c :: 0 <= c < |s.clients| ==> s.clients[c].Finished?
    ensures s.reaped == s.submitted == cfg.clients * OpsPerClient(cfg)
    ensures s.sq == [] && s.cq == [] && forall cid :: 0 <= cid < |s.place| ==> s.place[cid].Reaped?
  {
    hide OpsPerClient;
    hide Held;
    hide Queued;
    BusyNone(s.clients);
    DrawnBound(s.clients, OpsPerClient(cfg));
    CountReapedAll(s.place);
  }

  /** Once stopped, a worker's exit test succeeds exactly when the clients divide the operations evenly. */
  lemma WorkersLeaveExactlyWhen(cfg: Config, states: seq<Bench>, events: seq<Event>, k: nat, w: nat)
    requires Run(cfg, states, events) && k <= |events|
    requires !states[k].active && w < |states[k].workers| && states[k].workers[w].CheckingReaped?
    ensures Next(cfg, states[k], CheckReaped(w)).workers[w].Exited? <==> cfg.total % cfg.clients == 0
  {
    RunInv(cfg, states, events, k);
    Drained(cfg, states[k]);
    OpsFit(cfg);
    hide OpsPerClient;
  }

  // ---------------------------------------------------------------- the program's own runs

  const TOTAL_OPS: nat := 50000

  /** The clients that the benchmark starts for a queue depth. */
  function ClientsFor(qd: nat): (n: nat)
    ensures 1 <= n <= 8 && (qd > 0 ==> n <= qd)
  {
    var few := if qd < 8 then qd else 8;
    if few > 1 then few else 1
  }

  /** For the queue depths that the program runs, every worker that finds the benchmark stopped leaves. */
  lemma BenchmarkWorkersLeave(qd: nat, workers: nat, states: seq<Bench>, events: seq<Event>, k: nat, w: nat)
    requires qd in {1, 4, 16, 32, 64}
    requires Run(Config(ClientsFor(qd), workers, TOTAL_OPS), states, events) && k <= |events|
    requires !states[k].active && w < |states[k].workers| && states[k].workers[w].CheckingReaped?
    ensures Next(Config(ClientsFor(qd), workers, TOTAL_OPS), states[k], CheckReaped(w)).workers[w].Exited?
  {
    hide Run;
    hide Next;
    WorkersLeaveExactlyWhen(Config(ClientsFor(qd), workers, TOTAL_OPS), states, events, k, w);
  }

  /** With one client, which is how rings of one slot are used, each push begins over a quiet ring. While the client
      is about to submit, nothing is queued for the workers and none is still copying a request out; while a worker
      is about to complete, nothing is queued for the client, which is not copying a completion out, and no other
      worker holds a request or is still filling its slot. */
  lemma OneClientPushesInQuiet(cfg: Config, states: seq<Bench>, events: seq<Event>, k: nat)
    requires cfg.clients == 1 && Run(cfg, states, events) && k <= |events|
    ensures |states[k].clients| == 1
    ensures var s := states[k];
            s.clients[0].Submitting? ==>
              s.sq == [] && forall w :: 0 <= w < |s.workers| ==> !s.workers[w].Holding?
    ensures var s := states[k];
            forall w :: 0 <= w < |s.workers| && s.workers[w].Holding? ==>
              && s.cq == [] && !s.clients[0].Counting?
              && forall v :: 0 <= v < |s.workers| && v != w ==> !s.workers[v].Holding? && !s.workers[v].Announcing?
  {
    RunInv(cfg, states, events, k);
    OneClientIsQuiet(cfg, states[k]);
    hide Run;
    hide Inv;
  }

  lemma OneClientIsQuiet(cfg: Config, s: Bench)
    requires cfg.clients == 1 && Inv(cfg, s)
    ensures |s.clients| == 1
    ensures s.clients[0].Submitting? ==> s.sq == [] && forall w :: 0 <= w < |s.workers| ==> !s.workers[w].Holding?
    ensures forall w :: 0 <= w < |s.workers| && s.workers[w].Holding? ==>
              && s.cq == [] && !s.clients[0].Counting?
              && forall v :: 0 <= v < |s.workers| && v != w ==> !s.workers[v].Holding? && !s.workers[v].Announcing?
  {
    hide Held;
    CarryingUpdate(s.clients, 0, s.clients[0]);
    HoldersLoad(s.workers);
    AnnouncedIsQueued(s);
    hide SumLoaded;
    hide SumCarrying;
    hide SumDrawn;
    hide CountReaped;
  }

  lemma HoldersLoad(ws: seq<Worker>)
    ensures forall w :: 0 <= w < |ws| && ws[w].Holding? ==> SumLoaded(ws) >= 1
    ensures forall v, w :: 0 <= v < |ws| && 0 <= w < |ws| && v != w && ws[v].Holding? && ws[w].Holding? ==>
              SumLoaded(ws) >= 2
  {
    forall w | 0 <= w < |ws| && ws[w].Holding?
      ensures SumLoaded(ws) >= 1
      ensures forall v :: 0 <= v < |ws| && v != w && ws[v].Holding? ==> SumLoaded(ws) >= 2
    {
      LoadedUpdate(ws, w, Polling);
      forall v | 0 <= v < |ws| && v != w && ws[v].Holding? ensures SumLoaded(ws) >= 2 {
        LoadedUpdate(ws[w := Polling], v, Polling);
      }
    }
  }

  lemma AnnouncedIsQueued(s: Bench)
    requires Held(s) && Queued(s.cq, s.place, InCq)
    ensures s.cq == [] ==> forall w :: 0 <= w < |s.workers| ==> !s.workers[w].Announcing?
  {
    forall w | 0 <= w < |s.workers| && s.workers[w].Announcing? ensures s.cq != [] {
      assert WorkerFits(s.workers[w], w, s.place);
      assert s.workers[w].cid in s.cq;
    }
  }
}
