/** The queue-depth benchmark gets to its end: as long as a client is not done some thread can go on, what can go on
    uses the work up, and once the benchmark is stopped every worker leaves. */
module BenchmarkProgress {
  import opened QueueBenchmark

  // ---------------------------------------------------------------- the work that is left

  function ClientLeft(x: Client, ops: nat): int {
    match x
    case Ready(done) => 60 * (ops - done) + 10
    case Submitting(done, _) => 60 * (ops - done)
    case Publishing(done, _) => 60 * (ops - done) - 10
    case Reaping(done) => 60 * (ops - done) - 20
    case Counting(done, _) => 60 * (ops - done) - 30
    case Finished(_) => 0
  }

  function WorkerLeft(w: Worker): nat {
    match w
    case Holding(_) => 3
    case Announcing(_) => 2
    case Checking => 1
    case _ => 0
  }

  function ClientsLeft(xs: seq<Client>, ops: nat): int {
    if xs == [] then 0 else ClientsLeft(xs[..|xs| - 1], ops) + ClientLeft(xs[|xs| - 1], ops)
  }

  function WorkersLeft(ws: seq<Worker>): nat {
    if ws == [] then 0 else WorkersLeft(ws[..|ws| - 1]) + WorkerLeft(ws[|ws| - 1])
  }

  /** Every step that moves a request, a client, or a worker to its next poll uses some of it up. */
  function WorkLeft(cfg: Config, s: Bench): int
    requires cfg.clients > 0
  {
    ClientsLeft(s.clients, OpsPerClient(cfg)) + 4 * |s.sq| + WorkersLeft(s.workers)
  }

  lemma {:induction false} ClientsLeftUpdate(xs: seq<Client>, ops: nat, c: nat, x: Client)
    requires c < |xs|
    ensures ClientsLeft(xs[c := x], ops) == ClientsLeft(xs, ops) + ClientLeft(x, ops) - ClientLeft(xs[c], ops)
  {
    hide ClientLeft;
    var n := |xs| - 1;
    if c == n {
      assert xs[c := x][..n] == xs[..n];
    } else {
      ClientsLeftUpdate(xs[..n], ops, c, x);
      assert xs[c := x][..n] == xs[..n][c := x];
    }
  }

  lemma {:induction false} WorkersLeftUpdate(ws: seq<Worker>, w: nat, x: Worker)
    requires w < |ws|
    ensures WorkersLeft(ws[w := x]) == WorkersLeft(ws) + WorkerLeft(x) - WorkerLeft(ws[w])
  {
    hide WorkerLeft;
    var n := |ws| - 1;
    if w == n {
      assert ws[w := x][..n] == ws[..n];
    } else {
      WorkersLeftUpdate(ws[..n], w, x);
      assert ws[w := x][..n] == ws[..n][w := x];
    }
  }

  lemma {:induction false} ClientsLeftBound(xs: seq<Client>, ops: nat)
    requires forall c :: 0 <= c < |xs| ==> Drawn(xs[c]) <= ops
    ensures ClientsLeft(xs, ops) >= 0
  {
    if xs != [] {
      ClientsLeftBound(xs[..|xs| - 1], ops);
    }
  }

  predicate AllFinished(s: Bench) {
    forall c :: 0 <= c < |s.clients| ==> s.clients[c].Finished?
  }

  // ---------------------------------------------------------------- some thread can go on

  /** A step other than an empty-handed poll or the exit test. */
  predicate Useful(e: Event) {
    !e.Miss? && !e.CheckReaped? && !e.Stop?
  }

  /** A client's step. */
  lemma ClientUses(cfg: Config, s: Bench, e: Event)
    requires Inv(cfg, s) && Enabled(s, e) && OfClient(e)
    ensures WorkLeft(cfg, Next(cfg, s, e)) < WorkLeft(cfg, s)
  {
    hide OpsPerClient;
    hide Held;
    hide Queued;
    hide Next;
    hide WorkLeft;
    if e.Issue? && s.clients[e.c].done < OpsPerClient(cfg) {
      RoomToDraw(cfg, s, e.c);
    }
    assert Drawn(s.clients[e.c]) <= OpsPerClient(cfg);
    ClientGetsOn(cfg, s, e);
  }

  lemma ClientGetsOn(cfg: Config, s: Bench, e: Event)
    requires cfg.clients > 0 && Enabled(s, e) && OfClient(e) && Drawn(s.clients[e.c]) <= OpsPerClient(cfg)
    requires e.Issue? && s.clients[e.c].done < OpsPerClient(cfg) ==> s.submitted < cfg.total
    ensures WorkLeft(cfg, Next(cfg, s, e)) < WorkLeft(cfg, s)
  {
    hide OpsPerClient;
    hide ClientsLeft;
    hide WorkersLeft;
    var t := Next(cfg, s, e);
    ClientsLeftUpdate(s.clients, OpsPerClient(cfg), e.c, t.clients[e.c]);
    assert t.clients == s.clients[e.c := t.clients[e.c]] && t.workers == s.workers;
  }

  /** A worker's step, if the benchmark is still on. */
  lemma WorkerUses(cfg: Config, s: Bench, e: Event)
    requires cfg.clients > 0 && s.active && Enabled(s, e) && OfWorker(e) && Useful(e)
    ensures WorkLeft(cfg, Next(cfg, s, e)) < WorkLeft(cfg, s)
  {
    hide OpsPerClient;
    var t := Next(cfg, s, e);
    WorkersLeftUpdate(s.workers, e.w, t.workers[e.w]);
    hide ClientsLeft;
    hide WorkersLeft;
    assert t.workers == s.workers[e.w := t.workers[e.w]] && t.clients == s.clients;
  }

  /** As long as a client is not done, some useful step can be made. */
  lemma SomeThreadGoesOn(cfg: Config, s: Bench) returns (e: Event)
    requires Inv(cfg, s) && cfg.workers > 0 && !AllFinished(s)
    ensures Enabled(s, e) && Useful(e) && s.active && (OfClient(e) || OfWorker(e))
  {
    if c: nat :| c < |s.clients| && s.clients[c].Ready? {
      e := Issue(c);
    } else if c: nat :| c < |s.clients| && s.clients[c].Submitting? {
      assert ClientFits(s.clients[c], c, s.place);
      e := Submit(c);
    } else if c: nat :| c < |s.clients| && s.clients[c].Publishing? {
      e := Publish(c);
    } else if c: nat :| c < |s.clients| && s.clients[c].Counting? {
      assert ClientFits(s.clients[c], c, s.place);
      e := CountUp(c);
    } else if w: nat :| w < |s.workers| && s.workers[w].Holding? {
      assert WorkerFits(s.workers[w], w, s.place);
      e := Complete(w);
    } else if w: nat :| w < |s.workers| && s.workers[w].Announcing? {
      e := Announce(w);
    } else {
      e := QueuedGoesOn(cfg, s);
    }
  }

  /** With nothing in hand, what is outstanding is queued: a client can reap it, or a worker can get to take it. */
  lemma QueuedGoesOn(cfg: Config, s: Bench) returns (e: Event)
    requires Inv(cfg, s) && cfg.workers > 0 && !AllFinished(s)
    requires forall c: nat :: c < |s.clients| ==> s.clients[c].Reaping? || s.clients[c].Finished?
    requires forall w: nat :: w < |s.workers| ==> !s.workers[w].Holding? && !s.workers[w].Announcing?
    ensures Enabled(s, e) && Useful(e) && s.active && (OfClient(e) || OfWorker(e))
  {
    var c :| 0 <= c < |s.clients| && s.clients[c].Reaping?;
    BusyNone(s.clients);
    NothingInHand(s.clients, s.workers);
    if s.cq != [] {
      e := Reap(c);
    } else {
      assert s.sq != [];
      e := if s.workers[0].Checking? then Check(0) else Take(0);
    }
  }

  lemma {:induction false} NothingInHand(xs: seq<Client>, ws: seq<Worker>)
    requires forall c: nat :: c < |xs| ==> !xs[c].Submitting? && !xs[c].Counting?
    requires forall w: nat :: w < |ws| ==> !ws[w].Holding?
    ensures SumCarrying(xs) == 0 && SumLoaded(ws) == 0
    decreases |xs| + |ws|
  {
    if xs != [] {
      NothingInHand(xs[..|xs| - 1], ws);
    } else if ws != [] {
      NothingInHand(xs, ws[..|ws| - 1]);
    }
  }

  // ---------------------------------------------------------------- to the end

  /** A run from s on. */
  ghost predicate Continues(cfg: Config, s: Bench, states: seq<Bench>, events: seq<Event>) {
    && cfg.clients > 0 && |states| == |events| + 1 && states[0] == s
    && forall k :: 0 <= k < |events| ==>
         Enabled(states[k], events[k]) && states[k + 1] == Next(cfg, states[k], events[k])
  }

  lemma StepThenContinues(cfg: Config, s: Bench, e: Event, later: seq<Bench>, rest: seq<Event>)
    requires cfg.clients > 0 && Enabled(s, e) && Continues(cfg, Next(cfg, s, e), later, rest)
    ensures |later| == |rest| + 1 && Continues(cfg, s, [s] + later, [e] + rest)
    ensures |[e] + rest| == |rest| + 1 && ([s] + later)[|rest| + 1] == later[|rest|]
  {
    hide Next;
    hide Enabled;
    var states, events := [s] + later, [e] + rest;
    forall k | 0 <= k < |events|
      ensures Enabled(states[k], events[k]) && states[k + 1] == Next(cfg, states[k], events[k])
    {
      if k > 0 {
        assert states[k] == later[k - 1] && states[k + 1] == later[k] && events[k] == rest[k - 1];
      }
    }
  }

  /** From wherever a run has got to it can be continued until every client is done. */
  lemma {:induction false} CanFinish(cfg: Config, s: Bench) returns (states: seq<Bench>, events: seq<Event>)
    requires Inv(cfg, s) && cfg.workers > 0
    ensures Continues(cfg, s, states, events) && AllFinished(states[|events|]) && Inv(cfg, states[|events|])
    ensures |events| <= WorkLeft(cfg, s)
    decreases WorkLeft(cfg, s)
  {
    hide Inv;
    hide Next;
    hide Enabled;
    hide WorkLeft;
    hide AllFinished;
    hide Useful;
    hide OfClient;
    hide OfWorker;
    HasClients(cfg, s);
    WorkNotNegative(cfg, s);
    if AllFinished(s) {
      return [s], [];
    }
    var e := SomeThreadGoesOn(cfg, s);
    var t := Next(cfg, s, e);
    StepInv(cfg, s, e);
    if OfClient(e) {
      ClientUses(cfg, s, e);
    } else {
      WorkerUses(cfg, s, e);
    }
    var later, rest := CanFinish(cfg, t);
    StepThenContinues(cfg, s, e, later, rest);
    hide Continues;
    states, events := [s] + later, [e] + rest;
  }

  lemma HasClients(cfg: Config, s: Bench)
    requires Inv(cfg, s)
    ensures cfg.clients > 0
  {
  }

  lemma WorkNotNegative(cfg: Config, s: Bench)
    requires Inv(cfg, s)
    ensures WorkLeft(cfg, s) >= 0
  {
    ClientsLeftBound(s.clients, OpsPerClient(cfg));
  }

  // ---------------------------------------------------------------- the workers' loop

  /** What worker w does next when the queue is empty for it. */
  function OwnStep(s: Bench, w: nat): Event
    requires w < |s.workers|
  {
    match s.workers[w]
    case Checking => Check(w)
    case CheckingReaped => CheckReaped(w)
    case Polling => Miss(w)
    case Holding(_) => Complete(w)
    case Announcing(_) => Announce(w)
    case Exited => Stop
  }

  /** How many of its own steps a worker is from leaving. */
  function StepsToLeave(x: Worker): nat {
    match x
    case Exited => 0
    case CheckingReaped => 1
    case Checking => 2
    case _ => 3
  }

  /** Once stopped, each step of a worker's own brings it nearer to leaving, if the clients divide the operations
      evenly, and changes nothing else. */
  lemma OwnStepLeaves(cfg: Config, s: Bench, w: nat)
    requires Inv(cfg, s) && !s.active && w < |s.workers| && !s.workers[w].Exited? && cfg.total % cfg.clients == 0
    ensures Enabled(s, OwnStep(s, w))
    ensures var t := Next(cfg, s, OwnStep(s, w));
            && |t.workers| == |s.workers| && StepsToLeave(t.workers[w]) == StepsToLeave(s.workers[w]) - 1
            && t == s.(workers := s.workers[w := t.workers[w]])
  {
    Drained(cfg, s);
    OpsFit(cfg);
    assert WorkerFits(s.workers[w], w, s.place);
    hide OpsPerClient;
    hide Held;
    hide Queued;
    hide Conserved;
  }

  /** So it leaves, after at most three of them. */
  lemma {:induction false} StoppedWorkerLeaves(cfg: Config, s: Bench, w: nat)
    returns (states: seq<Bench>, events: seq<Event>)
    requires Inv(cfg, s) && !s.active && w < |s.workers| && cfg.total % cfg.clients == 0
    ensures Continues(cfg, s, states, events) && |events| == StepsToLeave(s.workers[w]) <= 3
    ensures states[|events|] == s.(workers := s.workers[w := Exited])
    decreases StepsToLeave(s.workers[w])
  {
    hide Inv;
    hide Next;
    hide Enabled;
    hide OwnStep;
    hide StepsToLeave;
    HasClients(cfg, s);
    LeftOnlyAtNone(s.workers[w]);
    if s.workers[w].Exited? {
      assert s.workers[w := Exited] == s.workers;
      return [s], [];
    }
    var e := OwnStep(s, w);
    OwnStepLeaves(cfg, s, w);
    StepInv(cfg, s, e);
    var t := Next(cfg, s, e);
    var later, rest := StoppedWorkerLeaves(cfg, t, w);
    StepThenContinues(cfg, s, e, later, rest);
    hide Continues;
    states, events := [s] + later, [e] + rest;
  }

  lemma LeftOnlyAtNone(x: Worker)
    ensures x.Exited? <==> StepsToLeave(x) == 0
    ensures StepsToLeave(x) <= 3
  {
  }

  predicate Polls(e: Event, w: nat) {
    e == Take(w) || e == Miss(w)
  }

  /** Between two polls a worker makes its loop test. */
  lemma TestsBetweenPolls(cfg: Config, states: seq<Bench>, events: seq<Event>, w: nat, j: nat, k: nat)
    requires Run(cfg, states, events) && j < k < |events| && Polls(events[j], w) && Polls(events[k], w)
    ensures exists i: nat :: j < i < k && events[i] == Check(w)
  {
    if forall i: nat :: j < i < k ==> events[i] != Check(w) {
      NotPolling(cfg, states, events, w, j, k);
      assert false;
    }
  }

  lemma {:induction false} NotPolling(cfg: Config, states: seq<Bench>, events: seq<Event>, w: nat, j: nat, k: nat)
    requires Run(cfg, states, events) && j < k <= |events| && Polls(events[j], w)
    requires forall i: nat :: j < i < k ==> events[i] != Check(w)
    ensures AwayFromPoll(states[k], w)
    decreases k
  {
    hide Next;
    hide Enabled;
    assert states[k - 1 + 1] == Next(cfg, states[k - 1], events[k - 1]) && Enabled(states[k - 1], events[k - 1]);
    if k > j + 1 {
      NotPolling(cfg, states, events, w, j, k - 1);
      StillNotPolling(cfg, states[k - 1], events[k - 1], w);
    } else {
      PollEnds(cfg, states[j], events[j], w);
    }
  }

  predicate AwayFromPoll(s: Bench, w: nat) {
    w < |s.workers| && (s.workers[w].Checking? || s.workers[w].Holding? || s.workers[w].Announcing?)
  }

  lemma PollEnds(cfg: Config, s: Bench, e: Event, w: nat)
    requires cfg.clients > 0 && Enabled(s, e) && Polls(e, w)
    ensures AwayFromPoll(Next(cfg, s, e), w)
  {
    hide OpsPerClient;
  }

  lemma StillNotPolling(cfg: Config, s: Bench, e: Event, w: nat)
    requires cfg.clients > 0 && Enabled(s, e) && e != Check(w) && AwayFromPoll(s, w)
    ensures AwayFromPoll(Next(cfg, s, e), w)
  {
    hide OpsPerClient;
  }
}
