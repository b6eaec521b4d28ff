/** The benchmark's threads over two real rings, one atomic step of one thread at a time, and how each run of them is
    a run of the benchmark over queues. */
module RingBenchmark {
  import opened MpmcRing
  import opened OneSlotRing
  import opened RingQueue
  import B = QueueBenchmark

  /** How request numbers are written into entries, and the completion that a worker makes of a request. */
  datatype Codec = Codec(request: nat -> Entry, completion: nat -> Entry, reply: Entry -> Entry)

  ghost predicate Codes(k: Codec, sqWidth: nat, cqWidth: nat) {
    && (forall a: nat, b: nat :: k.request(a) == k.request(b) ==> a == b)
    && (forall a: nat, b: nat :: k.completion(a) == k.completion(b) ==> a == b)
    && (forall a: nat :: |k.request(a)| == sqWidth && |k.completion(a)| == cqWidth)
    && (forall a: nat :: k.reply(k.request(a)) == k.completion(a))
  }

  /** A client by what it is calling: Submit, Reap, or nothing. */
  datatype Client =
    | Ready(done: nat)
    | Submitting(done: nat, cid: nat)
    | Reaping(done: nat)
    | Counting(done: nat, entry: Entry)
    | Finished(done: nat)

  /** A worker at its loop test, calling PopRequest, calling CompleteRequest, or gone. */
  datatype Worker = Checking | CheckingReaped | Polling | Serving(entry: Entry) | Exited

  /** Client c is thread c of both rings, worker w the thread after the clients'. */
  datatype Program = Program(clients: seq<Client>, workers: seq<Worker>, sq: Ring, cq: Ring,
                             submitted: nat, reaped: nat, active: bool)

  datatype Move = ClientTurn(c: nat) | WorkerTurn(w: nat) | Halt | OnSq(t: nat, e: Event) | OnCq(t: nat, e: Event)

  ghost predicate Formed(p: Program) {
    && Shape(p.sq) && Shape(p.cq)
    && |p.sq.threads| == |p.cq.threads| == |p.clients| + |p.workers|
  }

  /** Each thread calls only what its program calls there, with the entry it has in hand. */
  ghost predicate Allowed(k: Codec, p: Program, m: Move)
    requires Formed(p)
  {
    match m
    case ClientTurn(c) => c < |p.clients| && (p.clients[c].Ready? || p.clients[c].Counting?)
    case WorkerTurn(w) => w < |p.workers| && (p.workers[w].Checking? || p.workers[w].CheckingReaped?)
    case Halt => forall c :: 0 <= c < |p.clients| ==> p.clients[c].Finished?
    case OnSq(t, e) =>
      && t < |p.clients| + |p.workers|
      && if t < |p.clients| then
           && p.clients[t].Submitting? && !e.CallPop?
           && (e.CallPush? ==> p.sq.threads[t].Idle? && e.v == k.request(p.clients[t].cid))
         else p.workers[t - |p.clients|].Polling? && !e.CallPush?
    case OnCq(t, e) =>
      && t < |p.clients| + |p.workers|
      && if t < |p.clients| then p.clients[t].Reaping? && !e.CallPush?
         else
           && p.workers[t - |p.clients|].Serving? && !e.CallPop?
           && (e.CallPush? ==> p.cq.threads[t].Idle? && e.v == k.reply(p.workers[t - |p.clients|].entry))
  }

  /** A thread's program moves on when its call returns. */
  function After(cfg: B.Config, k: Codec, p: Program, m: Move): (q: Program)
    requires cfg.clients > 0 && Formed(p) && Allowed(k, p, m)
    ensures Formed(q) && |q.clients| == |p.clients| && |q.workers| == |p.workers|
  {
    match m
    case ClientTurn(c) => ClientMoves(cfg, p, c)
    case WorkerTurn(w) =>
      if p.workers[w].Checking? then p.(workers := p.workers[w := if p.active then Polling else CheckingReaped])
      else p.(workers := p.workers[w := if p.reaped < cfg.total then Polling else Exited])
    case Halt => p.(active := false)
    case OnSq(t, e) =>
      var q := p.(sq := Step(p.sq, t, e));
      if !e.Return? then q
      else if t < |p.clients| then
        if p.sq.threads[t].Pushed? then q.(clients := p.clients[t := Reaping(p.clients[t].done)]) else q
      else
        (match p.sq.threads[t]
         case Popped(_, value) => q.(workers := p.workers[t - |p.clients| := Serving(value)])
         case PopEmpty(_) => q.(workers := p.workers[t - |p.clients| := Checking])
         case _ => q)
    case OnCq(t, e) =>
      var q := p.(cq := Step(p.cq, t, e));
      if !e.Return? then q
      else if t < |p.clients| then
        (match p.cq.threads[t]
         case Popped(_, value) => q.(clients := p.clients[t := Counting(p.clients[t].done, value)])
         case _ => q)
      else if p.cq.threads[t].Pushed? then q.(workers := p.workers[t - |p.clients| := Checking])
      else q
  }

  function ClientMoves(cfg: B.Config, p: Program, c: nat): (q: Program)
    requires cfg.clients > 0 && c < |p.clients| && (p.clients[c].Ready? || p.clients[c].Counting?)
  {
    var done := p.clients[c].done;
    if p.clients[c].Counting? then p.(reaped := p.reaped + 1, clients := p.clients[c := Ready(done + 1)])
    else if done >= B.OpsPerClient(cfg) then p.(clients := p.clients[c := Finished(done)])
    else if p.submitted >= cfg.total then p.(submitted := p.submitted + 1, clients := p.clients[c := Finished(done)])
    else p.(submitted := p.submitted + 1, clients := p.clients[c := Submitting(done, p.submitted)])
  }

  /** The step over queues that a step over rings makes, if it makes one: the winning swaps, the publications, and
      the refusal of a pop to a worker. */
  function QueueMove(p: Program, m: Move): (e: seq<B.Event>)
    ensures |e| <= 1
  {
    var n := |p.clients|;
    match m
    case ClientTurn(c) => if c < n && p.clients[c].Counting? then [B.CountUp(c)] else [B.Issue(c)]
    case WorkerTurn(w) => if w < |p.workers| && p.workers[w].Checking? then [B.Check(w)] else [B.CheckReaped(w)]
    case Halt => [B.Stop]
    case OnSq(t, e) =>
      if t >= |p.sq.threads| then []
      else if t < n then
        if Wins(p.sq, t, e) then [B.Submit(t)] else if Publishes(p.sq, t, e) then [B.Publish(t)] else []
      else
        if Wins(p.sq, t, e) then [B.Take(t - n)]
        else if p.sq.threads[t].PopEmpty? && e.Return? then [B.Miss(t - n)] else []
    case OnCq(t, e) =>
      if t >= |p.cq.threads| then []
      else if t < n then
        if Wins(p.cq, t, e) then [B.Reap(t)] else []
      else
        if Wins(p.cq, t, e) then [B.Complete(t - n)]
        else if Publishes(p.cq, t, e) then [B.Announce(t - n)] else []
  }

  /** A swap that succeeds. */
  predicate Wins(s: Ring, t: nat, e: Event)
    requires t < |s.threads|
  {
    && e == Cas(false)
    && match s.threads[t]
       case PushTry(_, pos) => pos == s.enq
       case PopTry(pos) => pos == s.deq
       case _ => false
  }

  /** The store that makes a pushed entry visible. */
  predicate Publishes(s: Ring, t: nat, e: Event)
    requires t < |s.threads|
  {
    e.Publish? && s.threads[t].PushCopy? && s.threads[t].copied == |s.threads[t].v|
  }

  // ---------------------------------------------------------------- one thread in a ring

  /** Calling Push with v, no ticket won yet. */
  predicate Offering(pc: Pc, v: Entry) {
    pc.Idle? || ((pc.PushAt? || pc.PushReload? || pc.PushTry? || pc.PushFull?) && pc.v == v)
  }

  /** Calling Pop, no ticket won yet. */
  predicate Seeking(pc: Pc) {
    pc.Idle? || pc.PopAt? || pc.PopReload? || pc.PopTry? || pc.PopEmpty?
  }

  predicate Won(pc: Pc) {
    pc.PopCopy? || pc.Popped?
  }

  lemma OfferingStep(s: Ring, t: nat, e: Event, v: Entry)
    requires Shape(s) && t < |s.threads| && Offering(s.threads[t], v)
    requires !e.CallPop? && (e.CallPush? ==> e.v == v)
    ensures var pc := Step(s, t, e).threads[t];
            if Wins(s, t, e) then pc.PushCopy? && pc.v == v && s.threads[t].PushTry? && s.threads[t].v == v
            else Offering(pc, v)
    ensures !Publishes(s, t, e)
  {
    hide Slot;
  }

  lemma FillingStep(s: Ring, t: nat, e: Event)
    requires Shape(s) && t < |s.threads| && (s.threads[t].PushCopy? || s.threads[t].Pushed?)
    requires !e.CallPop? && !e.CallPush?
    ensures var was, pc := s.threads[t], Step(s, t, e).threads[t];
            && (was.PushCopy? && !Publishes(s, t, e) ==> pc.PushCopy? && pc.v == was.v)
            && (was.PushCopy? && Publishes(s, t, e) ==> pc.Pushed?)
            && (was.Pushed? ==> if e.Return? then pc.Idle? else pc.Pushed?)
    ensures !Wins(s, t, e) && (Publishes(s, t, e) ==> s.threads[t].PushCopy? && !e.Return?)
  {
    hide Slot;
  }

  lemma SeekingStep(s: Ring, t: nat, e: Event)
    requires Shape(s) && t < |s.threads| && Seeking(s.threads[t]) && !e.CallPush?
    ensures var pc := Step(s, t, e).threads[t];
            if Wins(s, t, e) then pc == PopCopy(s.threads[t].pos, []) && s.threads[t].PopTry?
            else Seeking(pc) && (s.threads[t].PopEmpty? && e.Return? ==> pc.Idle?)
    ensures !Publishes(s, t, e)
  {
    hide Slot;
  }

  lemma EmptyingStep(s: Ring, t: nat, e: Event)
    requires Shape(s) && t < |s.threads| && Won(s.threads[t]) && !e.CallPush?
    ensures var was, pc := s.threads[t], Step(s, t, e).threads[t];
            if was.Popped? && e.Return? then pc.Idle? else Won(pc) && pc.pos == was.pos
    ensures !Wins(s, t, e) && !Publishes(s, t, e)
  {
    hide Slot;
  }

  // ---------------------------------------------------------------- how the two benchmarks match

  ghost predicate ClientMatches(k: Codec, cqLog: seq<Entry>, x: Client, onSq: Pc, onCq: Pc, y: B.Client) {
    match x
    case Ready(done) => onSq.Idle? && onCq.Idle? && y == B.Client.Ready(done)
    case Submitting(done, cid) =>
      && onCq.Idle?
      && (|| (Offering(onSq, k.request(cid)) && y == B.Client.Submitting(done, cid))
          || (onSq.PushCopy? && onSq.v == k.request(cid) && y == B.Client.Publishing(done, cid))
          || (onSq.Pushed? && y == B.Client.Reaping(done)))
    case Reaping(done) =>
      && onSq.Idle?
      && (|| (Seeking(onCq) && y == B.Client.Reaping(done))
          || (&& Won(onCq) && y.Counting? && y.done == done
              && onCq.pos < |cqLog| && cqLog[onCq.pos] == k.completion(y.cid)))
    case Counting(done, entry) =>
      onSq.Idle? && onCq.Idle? && y.Counting? && y.done == done && entry == k.completion(y.cid)
    case Finished(done) => onSq.Idle? && onCq.Idle? && y == B.Client.Finished(done)
  }

  ghost predicate WorkerMatches(k: Codec, sqLog: seq<Entry>, x: Worker, onSq: Pc, onCq: Pc, y: B.Worker) {
    match x
    case Checking => onSq.Idle? && onCq.Idle? && y == B.Worker.Checking
    case CheckingReaped => onSq.Idle? && onCq.Idle? && y == B.Worker.CheckingReaped
    case Polling =>
      && onCq.Idle?
      && (|| (Seeking(onSq) && y == B.Worker.Polling)
          || (Won(onSq) && y.Holding? && onSq.pos < |sqLog| && sqLog[onSq.pos] == k.request(y.cid)))
    case Serving(entry) =>
      && onSq.Idle?
      && (|| (Offering(onCq, k.reply(entry)) && y.Holding? && entry == k.request(y.cid))
          || (onCq.PushCopy? && y.Announcing? && onCq.v == k.completion(y.cid))
          || (onCq.Pushed? && y == B.Worker.Checking))
    case Exited => onSq.Idle? && onCq.Idle? && y == B.Worker.Exited
  }

  /** The queue of the ring holds the entries of the requests queued. */
  ghost predicate QueueMatches(code: nat -> Entry, s: Ring, q: seq<nat>) {
    && Good(s) && s.deq <= s.enq == |s.log|
    && |Contents(s)| == |q| && forall i :: 0 <= i < |q| ==> Contents(s)[i] == code(q[i])
  }

  ghost predicate ThreadsMatch(k: Codec, p: Program, b: B.Bench)
    requires Formed(p)
  {
    && |b.clients| == |p.clients| && |b.workers| == |p.workers|
    && (forall c :: 0 <= c < |p.clients| ==>
          ClientMatches(k, p.cq.log, p.clients[c], p.sq.threads[c], p.cq.threads[c], b.clients[c]))
    && (forall w :: 0 <= w < |p.workers| ==>
          WorkerMatches(k, p.sq.log, p.workers[w], p.sq.threads[|p.clients| + w], p.cq.threads[|p.clients| + w],
                        b.workers[w]))
  }

  ghost predicate Matches(cfg: B.Config, k: Codec, p: Program, b: B.Bench) {
    && Formed(p) && cfg.clients > 0 && |p.clients| == cfg.clients
    && Codes(k, p.sq.width, p.cq.width) && (p.sq.size == 1 || p.cq.size == 1 ==> cfg.clients == 1)
    && QueueMatches(k.request, p.sq, b.sq) && QueueMatches(k.completion, p.cq, b.cq)
    && p.submitted == b.submitted && p.reaped == b.reaped && p.active == b.active
    && ThreadsMatch(k, p, b) && B.Inv(cfg, b)
  }

  /** What a step over rings is over queues: nothing, or an enabled step to a matching state. */
  ghost predicate Refined(cfg: B.Config, k: Codec, q: Program, b: B.Bench, e: seq<B.Event>)
    requires cfg.clients > 0
  {
    if |e| == 0 then Matches(cfg, k, q, b)
    else B.Enabled(b, e[0]) && Matches(cfg, k, q, B.Next(cfg, b, e[0]))
  }

  /** Other threads match still, the logs having grown. */
  lemma ClientStill(k: Codec, cqLog: seq<Entry>, longer: seq<Entry>, x: Client, onSq: Pc, onCq: Pc, y: B.Client)
    requires ClientMatches(k, cqLog, x, onSq, onCq, y) && cqLog <= longer
    ensures ClientMatches(k, longer, x, onSq, onCq, y)
  {
  }

  lemma WorkerStill(k: Codec, sqLog: seq<Entry>, longer: seq<Entry>, x: Worker, onSq: Pc, onCq: Pc, y: B.Worker)
    requires WorkerMatches(k, sqLog, x, onSq, onCq, y) && sqLog <= longer
    ensures WorkerMatches(k, longer, x, onSq, onCq, y)
  {
  }

  /** Only client c and its places in the rings have changed. */
  ghost predicate OnlyClient(p: Program, b: B.Bench, q: Program, b': B.Bench, c: nat)
    requires Formed(p) && Formed(q)
  {
    && c < |p.clients| == |q.clients| == |b.clients| == |b'.clients|
    && q.workers == p.workers && b'.workers == b.workers
    && p.sq.log <= q.sq.log && p.cq.log <= q.cq.log
    && (forall u :: 0 <= u < |p.clients| && u != c ==> q.clients[u] == p.clients[u] && b'.clients[u] == b.clients[u])
    && (forall u :: 0 <= u < |p.sq.threads| && u != c ==>
          q.sq.threads[u] == p.sq.threads[u] && q.cq.threads[u] == p.cq.threads[u])
  }

  lemma ClientAlone(k: Codec, p: Program, b: B.Bench, q: Program, b': B.Bench, c: nat)
    requires Formed(p) && Formed(q) && ThreadsMatch(k, p, b) && OnlyClient(p, b, q, b', c)
    requires ClientMatches(k, q.cq.log, q.clients[c], q.sq.threads[c], q.cq.threads[c], b'.clients[c])
    ensures ThreadsMatch(k, q, b')
  {
    hide ClientMatches;
    hide WorkerMatches;
    forall u | 0 <= u < |q.clients|
      ensures ClientMatches(k, q.cq.log, q.clients[u], q.sq.threads[u], q.cq.threads[u], b'.clients[u])
    {
      if u != c {
        ClientStill(k, p.cq.log, q.cq.log, p.clients[u], p.sq.threads[u], p.cq.threads[u], b.clients[u]);
      }
    }
    var n := |q.clients|;
    forall w | 0 <= w < |q.workers|
      ensures WorkerMatches(k, q.sq.log, q.workers[w], q.sq.threads[n + w], q.cq.threads[n + w], b'.workers[w])
    {
      WorkerStill(k, p.sq.log, q.sq.log, p.workers[w], p.sq.threads[n + w], p.cq.threads[n + w], b.workers[w]);
    }
  }

  ghost predicate OnlyWorker(p: Program, b: B.Bench, q: Program, b': B.Bench, w: nat)
    requires Formed(p) && Formed(q)
  {
    && w < |p.workers| == |q.workers| == |b.workers| == |b'.workers|
    && q.clients == p.clients && b'.clients == b.clients
    && p.sq.log <= q.sq.log && p.cq.log <= q.cq.log
    && (forall u :: 0 <= u < |p.workers| && u != w ==> q.workers[u] == p.workers[u] && b'.workers[u] == b.workers[u])
    && (forall u :: 0 <= u < |p.sq.threads| && u != |p.clients| + w ==>
          q.sq.threads[u] == p.sq.threads[u] && q.cq.threads[u] == p.cq.threads[u])
  }

  lemma WorkerAlone(k: Codec, p: Program, b: B.Bench, q: Program, b': B.Bench, w: nat)
    requires Formed(p) && Formed(q) && ThreadsMatch(k, p, b) && OnlyWorker(p, b, q, b', w)
    requires WorkerMatches(k, q.sq.log, q.workers[w], q.sq.threads[|q.clients| + w], q.cq.threads[|q.clients| + w],
                           b'.workers[w])
    ensures ThreadsMatch(k, q, b')
  {
    hide ClientMatches;
    hide WorkerMatches;
    var n := |q.clients|;
    forall u | 0 <= u < n
      ensures ClientMatches(k, q.cq.log, q.clients[u], q.sq.threads[u], q.cq.threads[u], b'.clients[u])
    {
      ClientStill(k, p.cq.log, q.cq.log, p.clients[u], p.sq.threads[u], p.cq.threads[u], b.clients[u]);
    }
    forall u | 0 <= u < |q.workers|
      ensures WorkerMatches(k, q.sq.log, q.workers[u], q.sq.threads[n + u], q.cq.threads[n + u], b'.workers[u])
    {
      if u != w {
        WorkerStill(k, p.sq.log, q.sq.log, p.workers[u], p.sq.threads[n + u], p.cq.threads[n + u], b.workers[u]);
      }
    }
  }

  // ---------------------------------------------------------------- the turns without a ring

  lemma TurnRefines(cfg: B.Config, k: Codec, p: Program, b: B.Bench, m: Move)
    requires Matches(cfg, k, p, b) && Allowed(k, p, m) && (m.ClientTurn? || m.WorkerTurn? || m.Halt?)
    ensures Refined(cfg, k, After(cfg, k, p, m), b, QueueMove(p, m))
  {
    hide QueueMatches;
    hide Codes;
    hide B.Inv;
    hide ThreadsMatch;
    hide Shape;
    hide ClientMatches;
    var q, e := After(cfg, k, p, m), QueueMove(p, m)[0];
    match m
    case ClientTurn(c) =>
      ClientTurns(cfg, k, p, b, c);
      B.StepInv(cfg, b, e);
    case WorkerTurn(w) =>
      WorkerTurns(cfg, k, p, b, w);
      B.StepInv(cfg, b, e);
    case Halt =>
      AllFinished(k, p, b);
      B.StepInv(cfg, b, e);
      HaltThreads(k, p, b);
  }

  lemma ClientTurns(cfg: B.Config, k: Codec, p: Program, b: B.Bench, c: nat)
    requires Matches(cfg, k, p, b) && Allowed(k, p, ClientTurn(c))
    ensures var q, e := After(cfg, k, p, ClientTurn(c)), QueueMove(p, ClientTurn(c))[0];
            && B.Enabled(b, e) && ThreadsMatch(k, q, B.Next(cfg, b, e))
            && var b' := B.Next(cfg, b, e);
               && b'.sq == b.sq && b'.cq == b.cq
               && q.submitted == b'.submitted && q.reaped == b'.reaped && q.active == b'.active
  {
    hide QueueMatches;
    hide Codes;
    hide B.Inv;
    hide WorkerMatches;
    var q, e := After(cfg, k, p, ClientTurn(c)), QueueMove(p, ClientTurn(c))[0];
    CountedIsPlaced(cfg, b);
    assert ClientMatches(k, p.cq.log, p.clients[c], p.sq.threads[c], p.cq.threads[c], b.clients[c]);
    assert p.sq.threads[c].Idle? && p.cq.threads[c].Idle?;
    ClientAlone(k, p, b, q, B.Next(cfg, b, e), c);
  }

  lemma WorkerTurns(cfg: B.Config, k: Codec, p: Program, b: B.Bench, w: nat)
    requires Matches(cfg, k, p, b) && Allowed(k, p, WorkerTurn(w))
    ensures var q, e := After(cfg, k, p, WorkerTurn(w)), QueueMove(p, WorkerTurn(w))[0];
            && B.Enabled(b, e) && ThreadsMatch(k, q, B.Next(cfg, b, e))
            && var b' := B.Next(cfg, b, e);
               && b'.sq == b.sq && b'.cq == b.cq
               && q.submitted == b'.submitted && q.reaped == b'.reaped && q.active == b'.active
  {
    hide QueueMatches;
    hide Codes;
    hide B.Inv;
    hide ClientMatches;
    var n := |p.clients|;
    var q, e := After(cfg, k, p, WorkerTurn(w)), QueueMove(p, WorkerTurn(w))[0];
    assert WorkerMatches(k, p.sq.log, p.workers[w], p.sq.threads[n + w], p.cq.threads[n + w], b.workers[w]);
    WorkerAlone(k, p, b, q, B.Next(cfg, b, e), w);
  }

  lemma AllFinished(k: Codec, p: Program, b: B.Bench)
    requires Formed(p) && ThreadsMatch(k, p, b) && Allowed(k, p, Halt)
    ensures B.Enabled(b, B.Stop)
  {
    forall c | 0 <= c < |b.clients| ensures b.clients[c].Finished? {
      assert ClientMatches(k, p.cq.log, p.clients[c], p.sq.threads[c], p.cq.threads[c], b.clients[c]);
    }
  }

  lemma HaltThreads(k: Codec, p: Program, b: B.Bench)
    requires Formed(p) && ThreadsMatch(k, p, b)
    ensures ThreadsMatch(k, p.(active := false), b.(active := false))
  {
    hide ClientMatches;
    hide WorkerMatches;
  }

  /** A request in a thread's hands has been drawn. */
  lemma CountedIsPlaced(cfg: B.Config, b: B.Bench)
    requires B.Inv(cfg, b)
    ensures forall c :: 0 <= c < |b.clients| && (b.clients[c].Submitting? || b.clients[c].Counting?) ==>
              b.clients[c].cid < |b.place|
    ensures forall w :: 0 <= w < |b.workers| && b.workers[w].Holding? ==> b.workers[w].cid < |b.place|
    ensures forall i :: 0 <= i < |b.sq| ==> b.sq[i] < |b.place|
    ensures forall i :: 0 <= i < |b.cq| ==> b.cq[i] < |b.place|
  {
    hide B.Numbered;
    hide B.Conserved;
    hide B.Shared;
    hide B.Stopping;
    forall c | 0 <= c < |b.clients| && (b.clients[c].Submitting? || b.clients[c].Counting?)
      ensures b.clients[c].cid < |b.place|
    {
      assert B.ClientFits(b.clients[c], c, b.place);
    }
    forall w | 0 <= w < |b.workers| && b.workers[w].Holding? ensures b.workers[w].cid < |b.place| {
      assert B.WorkerFits(b.workers[w], w, b.place);
    }
  }

  // ---------------------------------------------------------------- one step of a ring

  /** With one client a push of the client begins over a quiet ring. */
  lemma SubmitsInQuiet(cfg: B.Config, k: Codec, p: Program, b: B.Bench)
    requires Matches(cfg, k, p, b) && cfg.clients == 1 && p.clients[0].Submitting? && p.sq.threads[0].Idle?
    ensures Quiet(p.sq)
  {
    hide Codes;
    hide B.Inv;
    hide Good;
    B.OneClientIsQuiet(cfg, b);
    assert ClientMatches(k, p.cq.log, p.clients[0], p.sq.threads[0], p.cq.threads[0], b.clients[0]);
    forall t | 0 <= t < |p.sq.threads| ensures !Active(p.sq.threads[t]) {
      if t > 0 {
        assert WorkerMatches(k, p.sq.log, p.workers[t - 1], p.sq.threads[1 + (t - 1)], p.cq.threads[1 + (t - 1)],
                             b.workers[t - 1]);
      }
    }
  }

  /** ... and so does a push of a worker. */
  lemma CompletesInQuiet(cfg: B.Config, k: Codec, p: Program, b: B.Bench, w: nat)
    requires Matches(cfg, k, p, b) && cfg.clients == 1 && w < |p.workers|
    requires p.workers[w].Serving? && p.cq.threads[1 + w].Idle?
    ensures Quiet(p.cq)
  {
    hide Codes;
    hide B.Inv;
    hide Good;
    B.OneClientIsQuiet(cfg, b);
    assert WorkerMatches(k, p.sq.log, p.workers[w], p.sq.threads[1 + w], p.cq.threads[1 + w], b.workers[w]);
    forall t | 0 <= t < |p.cq.threads| ensures !Active(p.cq.threads[t]) {
      if t == 0 {
        assert ClientMatches(k, p.cq.log, p.clients[0], p.sq.threads[0], p.cq.threads[0], b.clients[0]);
      } else {
        assert WorkerMatches(k, p.sq.log, p.workers[t - 1], p.sq.threads[1 + (t - 1)], p.cq.threads[1 + (t - 1)],
                             b.workers[t - 1]);
      }
    }
  }

  /** What a step of a ring does to the queue it stands for. */
  lemma QueueMatchesStep(code: nat -> Entry, s: Ring, q: seq<nat>, t: nat, e: Event)
    requires QueueMatches(code, s, q) && t < |s.threads| && (s.size == 1 && e.CallPush? ==> Quiet(s))
    ensures Shape(s)
    ensures var r := Step(s, t, e);
            && s.log <= r.log
            && (forall u :: 0 <= u < |s.threads| && u != t ==> r.threads[u] == s.threads[u])
            && (!Wins(s, t, e) ==> QueueMatches(code, r, q))
            && (Wins(s, t, e) && s.threads[t].PushTry? ==>
                  forall cid: nat :: code(cid) == s.threads[t].v ==> QueueMatches(code, r, q + [cid]))
            && (Wins(s, t, e) && s.threads[t].PopTry? ==>
                  && q != [] && QueueMatches(code, r, q[1..])
                  && s.threads[t].pos < |r.log| && r.log[s.threads[t].pos] == code(q[0]))
  {
    hide Good;
    hide Quiet;
    GoodStep(s, t, e);
    hide Step;
    hide Shape;
  }

  /** What a worker takes, no client is still filling in. */
  lemma TakenIsPublished(cfg: B.Config, k: Codec, p: Program, b: B.Bench, t: nat)
    requires Matches(cfg, k, p, b) && t < |p.sq.threads| && b.sq != []
    requires p.sq.threads[t].PopTry? && p.sq.threads[t].pos == p.sq.deq
    ensures forall c :: 0 <= c < |b.clients| && b.clients[c].Publishing? ==> b.clients[c].cid != b.sq[0]
  {
    hide Good;
    hide Shape;
    hide B.Held;
    hide B.Numbered;
    hide B.Conserved;
    hide B.Shared;
    hide B.Stopping;
    forall c | 0 <= c < |b.clients| && b.clients[c].Publishing? ensures b.clients[c].cid != b.sq[0] {
      assert ClientMatches(k, p.cq.log, p.clients[c], p.sq.threads[c], p.cq.threads[c], b.clients[c]);
      Holdings(p.sq, c);
      WonIsPublished(p.sq, t, c);
      PlaceInQueue(k.request, p.sq, b.sq, c, b.clients[c].cid);
    }
  }

  /** What a client reaps, no worker is still filling in. */
  lemma ReapedIsPublished(cfg: B.Config, k: Codec, p: Program, b: B.Bench, t: nat)
    requires Matches(cfg, k, p, b) && t < |p.cq.threads| && b.cq != []
    requires p.cq.threads[t].PopTry? && p.cq.threads[t].pos == p.cq.deq
    ensures forall w :: 0 <= w < |b.workers| && b.workers[w].Announcing? ==> b.workers[w].cid != b.cq[0]
  {
    hide Good;
    hide Shape;
    hide B.Held;
    hide B.Numbered;
    hide B.Conserved;
    hide B.Shared;
    hide B.Stopping;
    var n := |p.clients|;
    forall w | 0 <= w < |b.workers| && b.workers[w].Announcing? ensures b.workers[w].cid != b.cq[0] {
      assert WorkerMatches(k, p.sq.log, p.workers[w], p.sq.threads[n + w], p.cq.threads[n + w], b.workers[w]);
      Holdings(p.cq, n + w);
      WonIsPublished(p.cq, t, n + w);
      PlaceInQueue(k.completion, p.cq, b.cq, n + w, b.workers[w].cid);
    }
  }

  /** A thread filling in the slot of ticket pos has its request in the queue at that distance from the head. */
  lemma PlaceInQueue(code: nat -> Entry, s: Ring, q: seq<nat>, u: nat, cid: nat)
    requires QueueMatches(code, s, q) && u < |s.threads| && s.threads[u].PushCopy? && s.threads[u].v == code(cid)
    requires s.deq < s.threads[u].pos < |s.log| && s.log[s.threads[u].pos] == s.threads[u].v
    requires forall a: nat, b: nat :: code(a) == code(b) ==> a == b
    requires forall i, j :: 0 <= i < j < |q| ==> q[i] != q[j]
    ensures q != [] && cid != q[0]
  {
    hide Good;
    var i := s.threads[u].pos - s.deq;
    assert Contents(s)[i] == code(q[i]);
  }

  // ---------------------------------------------------------------- the steps on a ring

  /** A step on the submission ring, once its pieces match, gives matching states. */
  lemma SqMatches(cfg: B.Config, k: Codec, p: Program, b: B.Bench, q: Program, b': B.Bench, t: nat, e: Event)
    requires Matches(cfg, k, p, b) && t < |p.sq.threads| && q.sq == Step(p.sq, t, e) && q.cq == p.cq
    requires Formed(q) && |q.clients| == |p.clients| && ThreadsMatch(k, q, b') && B.Inv(cfg, b')
    requires QueueMatches(k.request, q.sq, b'.sq) && b'.cq == b.cq
    requires q.submitted == p.submitted && q.reaped == p.reaped && q.active == p.active
    requires b'.submitted == b.submitted && b'.reaped == b.reaped && b'.active == b.active
    ensures Matches(cfg, k, q, b')
  {
    hide B.Inv;
    hide QueueMatches;
    hide ThreadsMatch;
    hide Codes;
    hide Shape;
  }

  lemma CqMatches(cfg: B.Config, k: Codec, p: Program, b: B.Bench, q: Program, b': B.Bench, t: nat, e: Event)
    requires Matches(cfg, k, p, b) && t < |p.cq.threads| && q.cq == Step(p.cq, t, e) && q.sq == p.sq
    requires Formed(q) && |q.clients| == |p.clients| && ThreadsMatch(k, q, b') && B.Inv(cfg, b')
    requires QueueMatches(k.completion, q.cq, b'.cq) && b'.sq == b.sq
    requires q.submitted == p.submitted && q.reaped == p.reaped && q.active == p.active
    requires b'.submitted == b.submitted && b'.reaped == b.reaped && b'.active == b.active
    ensures Matches(cfg, k, q, b')
  {
    hide B.Inv;
    hide QueueMatches;
    hide ThreadsMatch;
    hide Codes;
    hide Shape;
  }

  lemma ClientOnSq(cfg: B.Config, k: Codec, p: Program, b: B.Bench, c: nat, e: Event)
    requires Matches(cfg, k, p, b) && Allowed(k, p, OnSq(c, e)) && c < |p.clients|
    ensures Refined(cfg, k, After(cfg, k, p, OnSq(c, e)), b, QueueMove(p, OnSq(c, e)))
  {
    hide B.Inv;
    hide QueueMatches;
    hide WorkerMatches;
    hide Codes;
    hide Step;
    hide Offering;
    hide Wins;
    hide Publishes;
    hide Shape;
    hide Good;
    var q, bs := After(cfg, k, p, OnSq(c, e)), QueueMove(p, OnSq(c, e));
    var x, y, pc := p.clients[c], b.clients[c], p.sq.threads[c];
    assert ClientMatches(k, p.cq.log, x, pc, p.cq.threads[c], y);
    if p.sq.size == 1 && e.CallPush? {
      SubmitsInQuiet(cfg, k, p, b);
    }
    QueueMatchesStep(k.request, p.sq, b.sq, c, e);
    CountedIsPlaced(cfg, b);
    if Offering(pc, k.request(x.cid)) && y.Submitting? {
      OfferingStep(p.sq, c, e, k.request(x.cid));
      NotPushed(pc, k.request(x.cid));
    } else {
      FillingStep(p.sq, c, e);
    }
    OfferingIdle(q.sq.threads[c], k.request(x.cid));
    var b' := if bs == [] then b else B.Next(cfg, b, bs[0]);
    if bs != [] {
      B.StepInv(cfg, b, bs[0]);
    }
    ClientAlone(k, p, b, q, b', c);
    hide ThreadsMatch;
    SqMatches(cfg, k, p, b, q, b', c, e);
  }

  lemma NotPushed(pc: Pc, v: Entry)
    requires Offering(pc, v)
    ensures !pc.Pushed? && !pc.PushCopy?
  {
  }

  lemma OfferingIdle(pc: Pc, v: Entry)
    ensures pc.Idle? ==> Offering(pc, v) && Seeking(pc)
  {
  }

  lemma ClientOnCq(cfg: B.Config, k: Codec, p: Program, b: B.Bench, c: nat, e: Event)
    requires Matches(cfg, k, p, b) && Allowed(k, p, OnCq(c, e)) && c < |p.clients|
    ensures Refined(cfg, k, After(cfg, k, p, OnCq(c, e)), b, QueueMove(p, OnCq(c, e)))
  {
    hide B.Inv;
    hide QueueMatches;
    hide WorkerMatches;
    hide Codes;
    hide Step;
    hide Seeking;
    hide Wins;
    hide Publishes;
    hide Shape;
    hide Good;
    var q, bs := After(cfg, k, p, OnCq(c, e)), QueueMove(p, OnCq(c, e));
    var y, pc := b.clients[c], p.cq.threads[c];
    assert ClientMatches(k, p.cq.log, p.clients[c], p.sq.threads[c], pc, y);
    QueueMatchesStep(k.completion, p.cq, b.cq, c, e);
    CountedIsPlaced(cfg, b);
    if Seeking(pc) && y.Reaping? {
      SeekingStep(p.cq, c, e);
      NotPopped(pc);
      if Wins(p.cq, c, e) {
        SwapWon(p.cq, c, e);
        ReapedIsPublished(cfg, k, p, b, c);
      }
    } else {
      EmptyingStep(p.cq, c, e);
      PoppedValue(k.completion, p.cq, b.cq, c);
    }
    var b' := if bs == [] then b else B.Next(cfg, b, bs[0]);
    if bs != [] {
      B.StepInv(cfg, b, bs[0]);
    }
    ClientAlone(k, p, b, q, b', c);
    hide ThreadsMatch;
    CqMatches(cfg, k, p, b, q, b', c, e);
  }

  /** Where a worker that polls goes. */
  function Polled(x: Worker, pc: Pc, e: Event): Worker {
    if e.Return? && pc.Popped? then Serving(pc.value) else if e.Return? && pc.PopEmpty? then Checking else x
  }

  lemma PolledIs(cfg: B.Config, k: Codec, p: Program, w: nat, e: Event)
    requires cfg.clients > 0 && Formed(p) && w < |p.workers| && Allowed(k, p, OnSq(|p.clients| + w, e))
    ensures p.workers[w].Polling? && !e.CallPush?
    ensures var t := |p.clients| + w;
            && After(cfg, k, p, OnSq(t, e))
               == p.(sq := Step(p.sq, t, e), workers := p.workers[w := Polled(p.workers[w], p.sq.threads[t], e)])
            && QueueMove(p, OnSq(t, e))
               == if Wins(p.sq, t, e) then [B.Take(w)]
                  else if p.sq.threads[t].PopEmpty? && e.Return? then [B.Miss(w)] else []
  {
    hide Step;
    hide Wins;
    assert p.workers[w := p.workers[w]] == p.workers;
  }

  lemma WorkerOnSqThreads(cfg: B.Config, k: Codec, p: Program, b: B.Bench, w: nat, e: Event)
    requires Matches(cfg, k, p, b) && w < |p.workers| && Allowed(k, p, OnSq(|p.clients| + w, e))
    ensures var m := OnSq(|p.clients| + w, e);
            var bs, q := QueueMove(p, m), After(cfg, k, p, m);
            && (bs != [] ==> B.Enabled(b, bs[0]))
            && var b' := if bs == [] then b else B.Next(cfg, b, bs[0]);
               && ThreadsMatch(k, q, b') && QueueMatches(k.request, q.sq, b'.sq) && b'.cq == b.cq
               && b'.submitted == b.submitted && b'.reaped == b.reaped && b'.active == b.active
  {
    hide B.Enabled;
    hide After;
    hide QueueMove;
    hide Allowed;
    hide B.Inv;
    hide QueueMatches;
    hide ClientMatches;
    hide Codes;
    hide Step;
    hide Seeking;
    hide Offering;
    hide Wins;
    hide Publishes;
    hide Shape;
    hide Good;
    var t := |p.clients| + w;
    var q, bs := After(cfg, k, p, OnSq(t, e)), QueueMove(p, OnSq(t, e));
    PolledIs(cfg, k, p, w, e);
    var y, pc := b.workers[w], p.sq.threads[t];
    assert WorkerMatches(k, p.sq.log, p.workers[w], pc, p.cq.threads[t], y);
    QueueMatchesStep(k.request, p.sq, b.sq, t, e);
    MissEnabled(b, w);
    if Seeking(pc) && y.Polling? {
      SeekingStep(p.sq, t, e);
      NotPopped(pc);
      if Wins(p.sq, t, e) {
        SwapWon(p.sq, t, e);
        TakeEnabled(cfg, k, p, b, w);
      }
    } else {
      EmptyingStep(p.sq, t, e);
      PoppedValue(k.request, p.sq, b.sq, t);
    }
    if q.workers[w].Serving? {
      OfferingIdle(p.cq.threads[t], k.reply(q.workers[w].entry));
    }
    var b' := if bs == [] then b else B.Next(cfg, b, bs[0]);
    WorkerAlone(k, p, b, q, b', w);
  }

  lemma WorkerOnSq(cfg: B.Config, k: Codec, p: Program, b: B.Bench, w: nat, e: Event)
    requires Matches(cfg, k, p, b) && w < |p.workers| && Allowed(k, p, OnSq(|p.clients| + w, e))
    ensures var m := OnSq(|p.clients| + w, e); Refined(cfg, k, After(cfg, k, p, m), b, QueueMove(p, m))
  {
    hide B.Inv;
    hide B.Next;
    hide B.Enabled;
    hide QueueMatches;
    hide Codes;
    hide Step;
    hide Shape;
    hide ThreadsMatch;
    var t := |p.clients| + w;
    var q, bs := After(cfg, k, p, OnSq(t, e)), QueueMove(p, OnSq(t, e));
    WorkerOnSqThreads(cfg, k, p, b, w, e);
    var b' := if bs == [] then b else B.Next(cfg, b, bs[0]);
    if bs != [] {
      B.StepInv(cfg, b, bs[0]);
    }
    SqMatches(cfg, k, p, b, q, b', t, e);
  }

  lemma ServedIs(cfg: B.Config, k: Codec, p: Program, w: nat, e: Event)
    requires cfg.clients > 0 && Formed(p) && w < |p.workers| && Allowed(k, p, OnCq(|p.clients| + w, e))
    ensures var t := |p.clients| + w;
            && p.workers[w].Serving? && !e.CallPop?
            && (e.CallPush? ==> p.cq.threads[t].Idle? && e.v == k.reply(p.workers[w].entry))
            && After(cfg, k, p, OnCq(t, e))
               == p.(cq := Step(p.cq, t, e),
                     workers := p.workers[w := if e.Return? && p.cq.threads[t].Pushed? then Checking else p.workers[w]])
            && QueueMove(p, OnCq(t, e))
               == if Wins(p.cq, t, e) then [B.Complete(w)]
                  else if Publishes(p.cq, t, e) then [B.Announce(w)] else []
  {
    hide Step;
    hide Wins;
    hide Publishes;
    assert p.workers[w := p.workers[w]] == p.workers;
  }

  lemma WorkerOnCqThreads(cfg: B.Config, k: Codec, p: Program, b: B.Bench, w: nat, e: Event)
    requires Matches(cfg, k, p, b) && w < |p.workers| && Allowed(k, p, OnCq(|p.clients| + w, e))
    ensures var m := OnCq(|p.clients| + w, e);
            var bs, q := QueueMove(p, m), After(cfg, k, p, m);
            && (bs != [] ==> B.Enabled(b, bs[0]))
            && var b' := if bs == [] then b else B.Next(cfg, b, bs[0]);
               && ThreadsMatch(k, q, b') && QueueMatches(k.completion, q.cq, b'.cq) && b'.sq == b.sq
               && b'.submitted == b.submitted && b'.reaped == b.reaped && b'.active == b.active
  {
    hide B.Enabled;
    hide B.Inv;
    hide After;
    hide QueueMove;
    hide Allowed;
    hide QueueMatches;
    hide ClientMatches;
    hide Codes;
    hide Step;
    hide Seeking;
    hide Offering;
    hide Wins;
    hide Publishes;
    hide Shape;
    hide Good;
    var t := |p.clients| + w;
    var q, bs := After(cfg, k, p, OnCq(t, e)), QueueMove(p, OnCq(t, e));
    ServedIs(cfg, k, p, w, e);
    var x, y, pc := p.workers[w], b.workers[w], p.cq.threads[t];
    assert WorkerMatches(k, p.sq.log, x, p.sq.threads[t], pc, y);
    if p.cq.size == 1 && e.CallPush? {
      CompletesInQuiet(cfg, k, p, b, w);
    }
    QueueMatchesStep(k.completion, p.cq, b.cq, t, e);
    CompletingEnabled(cfg, b, w);
    if Offering(pc, k.reply(x.entry)) && y.Holding? {
      OfferingStep(p.cq, t, e, k.reply(x.entry));
      NotPushed(pc, k.reply(x.entry));
      Replied(k, p.sq.width, p.cq.width, y.cid);
    } else {
      FillingStep(p.cq, t, e);
    }
    OfferingIdle(q.cq.threads[t], k.reply(x.entry));
    var b' := if bs == [] then b else B.Next(cfg, b, bs[0]);
    WorkerAlone(k, p, b, q, b', w);
  }

  lemma WorkerOnCq(cfg: B.Config, k: Codec, p: Program, b: B.Bench, w: nat, e: Event)
    requires Matches(cfg, k, p, b) && w < |p.workers| && Allowed(k, p, OnCq(|p.clients| + w, e))
    ensures var m := OnCq(|p.clients| + w, e); Refined(cfg, k, After(cfg, k, p, m), b, QueueMove(p, m))
  {
    hide B.Inv;
    hide B.Next;
    hide B.Enabled;
    hide QueueMatches;
    hide Codes;
    hide Step;
    hide Shape;
    hide ThreadsMatch;
    var t := |p.clients| + w;
    var q, bs := After(cfg, k, p, OnCq(t, e)), QueueMove(p, OnCq(t, e));
    WorkerOnCqThreads(cfg, k, p, b, w, e);
    var b' := if bs == [] then b else B.Next(cfg, b, bs[0]);
    if bs != [] {
      B.StepInv(cfg, b, bs[0]);
    }
    CqMatches(cfg, k, p, b, q, b', t, e);
  }

  lemma TakeEnabled(cfg: B.Config, k: Codec, p: Program, b: B.Bench, w: nat)
    requires Matches(cfg, k, p, b) && w < |p.workers| && b.workers[w].Polling? && b.sq != []
    requires p.sq.threads[|p.clients| + w].PopTry? && p.sq.threads[|p.clients| + w].pos == p.sq.deq
    ensures B.Enabled(b, B.Take(w))
  {
    CountedIsPlaced(cfg, b);
    TakenIsPublished(cfg, k, p, b, |p.clients| + w);
    hide B.Inv;
    hide ThreadsMatch;
    hide QueueMatches;
  }

  lemma CompletingEnabled(cfg: B.Config, b: B.Bench, w: nat)
    requires B.Inv(cfg, b)
    ensures w < |b.workers| && b.workers[w].Holding? ==> B.Enabled(b, B.Complete(w))
    ensures w < |b.workers| && b.workers[w].Announcing? ==> B.Enabled(b, B.Announce(w))
  {
    CountedIsPlaced(cfg, b);
    hide B.Inv;
  }

  lemma MissEnabled(b: B.Bench, w: nat)
    ensures w < |b.workers| && b.workers[w].Polling? ==> B.Enabled(b, B.Miss(w))
  {
  }

  lemma NotPopped(pc: Pc)
    requires Seeking(pc)
    ensures !Won(pc)
  {
  }

  lemma SwapWon(s: Ring, t: nat, e: Event)
    requires t < |s.threads| && Wins(s, t, e) && s.threads[t].PopTry?
    ensures s.threads[t].pos == s.deq
  {
  }

  lemma PoppedValue(code: nat -> Entry, s: Ring, q: seq<nat>, t: nat)
    requires QueueMatches(code, s, q) && t < |s.threads|
    ensures s.threads[t].Popped? ==> s.threads[t].pos < |s.log| && s.threads[t].value == s.log[s.threads[t].pos]
  {
    Holdings(s, t);
    hide Good;
  }

  lemma Replied(k: Codec, sqWidth: nat, cqWidth: nat, cid: nat)
    requires Codes(k, sqWidth, cqWidth)
    ensures k.reply(k.request(cid)) == k.completion(cid)
  {
  }

  // ---------------------------------------------------------------- every step, every run

  /** Every step over the rings is at most one step over the queues, and keeps the two matched. */
  lemma StepRefines(cfg: B.Config, k: Codec, p: Program, b: B.Bench, m: Move)
    requires Matches(cfg, k, p, b) && Allowed(k, p, m)
    ensures Refined(cfg, k, After(cfg, k, p, m), b, QueueMove(p, m))
  {
    hide Refined;
    hide Matches;
    match m
    case ClientTurn(_) => TurnRefines(cfg, k, p, b, m);
    case WorkerTurn(_) => TurnRefines(cfg, k, p, b, m);
    case Halt => TurnRefines(cfg, k, p, b, m);
    case OnSq(t, e) =>
      if t < |p.clients| {
        ClientOnSq(cfg, k, p, b, t, e);
      } else {
        WorkerOnSq(cfg, k, p, b, t - |p.clients|, e);
      }
    case OnCq(t, e) =>
      if t < |p.clients| {
        ClientOnCq(cfg, k, p, b, t, e);
      } else {
        WorkerOnCq(cfg, k, p, b, t - |p.clients|, e);
      }
  }

  /** The program at its start: new rings, one slot only for one client. */
  ghost predicate Starts(cfg: B.Config, k: Codec, p: Program) {
    && cfg.clients > 0 && p.clients == seq(cfg.clients, _ => Ready(0)) && p.workers == seq(cfg.workers, _ => Checking)
    && Init(p.sq) && Init(p.cq) && |p.sq.threads| == |p.cq.threads| == cfg.clients + cfg.workers
    && Codes(k, p.sq.width, p.cq.width) && (p.sq.size == 1 || p.cq.size == 1 ==> cfg.clients == 1)
    && p.submitted == p.reaped == 0 && p.active
  }

  lemma StartMatches(cfg: B.Config, k: Codec, p: Program)
    requires Starts(cfg, k, p)
    ensures Matches(cfg, k, p, B.Start(cfg))
  {
    hide B.Inv;
    hide Good;
    hide Codes;
    B.StartInv(cfg);
    StartsGood(p.sq);
    StartsGood(p.cq);
  }

  ghost predicate ValidRun(cfg: B.Config, k: Codec, states: seq<Program>, moves: seq<Move>) {
    && cfg.clients > 0 && |states| == |moves| + 1 && Starts(cfg, k, states[0])
    && forall i :: 0 <= i < |moves| ==>
         && Formed(states[i]) && Allowed(k, states[i], moves[i])
         && states[i + 1] == After(cfg, k, states[i], moves[i])
  }

  /** Every run of the threads over the rings is a run over the queues, with matching ends: no entry is lost, torn or
      served twice, at any queue depth, one included. */
  lemma {:induction false} RunRefines(cfg: B.Config, k: Codec, states: seq<Program>, moves: seq<Move>)
    returns (queueStates: seq<B.Bench>, events: seq<B.Event>)
    requires ValidRun(cfg, k, states, moves)
    ensures B.Run(cfg, queueStates, events)
    ensures Matches(cfg, k, states[|moves|], queueStates[|events|])
    decreases |moves|
  {
    hide Matches;
    hide Starts;
    hide Allowed;
    hide After;
    hide B.Next;
    hide B.Enabled;
    if moves == [] {
      StartMatches(cfg, k, states[0]);
      queueStates, events := [B.Start(cfg)], [];
    } else {
      var n := |moves| - 1;
      queueStates, events := RunRefines(cfg, k, states[..n + 1], moves[..n]);
      var b := queueStates[|events|];
      StepRefines(cfg, k, states[n], b, moves[n]);
      var e := QueueMove(states[n], moves[n]);
      if |e| == 1 {
        queueStates, events := queueStates + [B.Next(cfg, b, e[0])], events + e;
      }
    }
  }

  /** Whatever a worker serves is the entry of a request that has been drawn, whole, and whatever a client counts is the
      completion of one. */
  lemma HandsHoldRequests(cfg: B.Config, k: Codec, states: seq<Program>, moves: seq<Move>)
    requires ValidRun(cfg, k, states, moves)
    ensures HandsHold(k, states[|moves|])
  {
    hide HandsHold;
    hide Matches;
    var queueStates, events := RunRefines(cfg, k, states, moves);
    HandsMatched(cfg, k, states[|moves|], queueStates[|events|]);
  }

  ghost predicate HandsHold(k: Codec, p: Program) {
    && Formed(p)
    && (forall w :: 0 <= w < |p.workers| && p.workers[w].Serving? && p.cq.threads[|p.clients| + w].Idle? ==>
          exists cid: nat :: cid < p.submitted && p.workers[w].entry == k.request(cid))
    && (forall c :: 0 <= c < |p.clients| && p.clients[c].Counting? ==>
          exists cid: nat :: cid < p.submitted && p.clients[c].entry == k.completion(cid))
  }

  lemma HandsMatched(cfg: B.Config, k: Codec, p: Program, b: B.Bench)
    requires Matches(cfg, k, p, b)
    ensures HandsHold(k, p)
  {
    CountedIsPlaced(cfg, b);
    DrawnAreNumbered(cfg, b);
    hide B.Inv;
    hide QueueMatches;
    hide Shape;
    hide WorkerMatches;
    hide ClientMatches;
    hide Codes;
    forall w | 0 <= w < |p.workers| && p.workers[w].Serving? && p.cq.threads[|p.clients| + w].Idle?
      ensures exists cid: nat :: cid < p.submitted && p.workers[w].entry == k.request(cid)
    {
      var t := |p.clients| + w;
      ServedRequest(k, p.sq.log, p.workers[w], p.sq.threads[t], p.cq.threads[t], b.workers[w]);
    }
    forall c | 0 <= c < |p.clients| && p.clients[c].Counting?
      ensures exists cid: nat :: cid < p.submitted && p.clients[c].entry == k.completion(cid)
    {
      CountedCompletion(k, p.cq.log, p.clients[c], p.sq.threads[c], p.cq.threads[c], b.clients[c]);
    }
  }

  lemma ServedRequest(k: Codec, sqLog: seq<Entry>, x: Worker, onSq: Pc, onCq: Pc, y: B.Worker)
    requires WorkerMatches(k, sqLog, x, onSq, onCq, y) && x.Serving? && onCq.Idle?
    ensures y.Holding? && x.entry == k.request(y.cid)
  {
  }

  lemma CountedCompletion(k: Codec, cqLog: seq<Entry>, x: Client, onSq: Pc, onCq: Pc, y: B.Client)
    requires ClientMatches(k, cqLog, x, onSq, onCq, y) && x.Counting?
    ensures y.Counting? && x.entry == k.completion(y.cid)
  {
  }

  lemma DrawnAreNumbered(cfg: B.Config, b: B.Bench)
    requires B.Inv(cfg, b)
    ensures |b.place| == b.submitted
  {
  }

  /** A worker that has left its loop leaves both rings empty, at any queue depth. */
  lemma ExitedMeansDrained(cfg: B.Config, k: Codec, states: seq<Program>, moves: seq<Move>, w: nat)
    requires ValidRun(cfg, k, states, moves)
    requires w < |states[|moves|].workers| && states[|moves|].workers[w].Exited?
    ensures var p := states[|moves|];
            p.sq.deq == p.sq.enq && p.cq.deq == p.cq.enq && p.reaped == p.submitted
  {
    var queueStates, events := RunRefines(cfg, k, states, moves);
    var p, b := states[|moves|], queueStates[|events|];
    hide B.Inv;
    hide B.Run;
    hide ValidRun;
    hide Good;
    var t := |p.clients| + w;
    assert WorkerMatches(k, p.sq.log, p.workers[w], p.sq.threads[t], p.cq.threads[t], b.workers[w]);
    B.ExitOnlyWhenDrained(cfg, queueStates, events, |events|, w);
  }
}
