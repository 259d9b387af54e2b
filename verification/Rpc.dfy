/** The little modular arithmetic the counter needs. */
module ModularCounting {

  lemma SmallMod(a: nat, p: nat)
    requires a < p
    ensures a % p == a
  {
  }

  lemma QuotientIsZero(p: nat, q: int, r: int)
    requires p > 0 && r < p && -r < p && r == p * q
    ensures q == 0
  {
    assert q >= 1 ==> p * q >= p;
    assert q <= -1 ==> p * q <= p * -1;
  }

  lemma SameRemainder(a: nat, b: nat, p: nat)
    requires a <= b && p > 0
    ensures a % p == b % p <==> (b - a) % p == 0
  {
    var qa, qb, qd := a / p, b / p, (b - a) / p;
    assert a == p * qa + a % p;
    assert b == p * qb + b % p;
    assert b - a == p * qd + (b - a) % p;
    if a % p == b % p {
      assert (b - a) % p == p * (qb - qa - qd);
      QuotientIsZero(p, qb - qa - qd, (b - a) % p);
    }
    if (b - a) % p == 0 {
      assert b % p - a % p == p * (qa + qd - qb);
      QuotientIsZero(p, qa + qd - qb, b % p - a % p);
    }
  }

  lemma RemainderIs(a: nat, p: nat, q: nat, r: nat)
    requires p > 0 && a == p * q + r && r < p
    ensures a % p == r
  {
    assert a == p * (a / p) + a % p;
    assert p * (a / p - q) == r - a % p;
    QuotientIsZero(p, a / p - q, r - a % p);
  }

  lemma ModSuccessor(a: nat, p: nat)
    requires p > 0
    ensures (a + 1) % p == if a % p == p - 1 then 0 else a % p + 1
  {
    var q, r := a / p, a % p;
    assert a == p * q + r;
    if r == p - 1 {
      assert a + 1 == p * (q + 1) + 0;
      RemainderIs(a + 1, p, q + 1, 0);
    } else {
      RemainderIs(a + 1, p, q, r + 1);
    }
  }
}

/** The optimistic-concurrency protocol of the management RPC.

    The server keeps a counter that every successful configuration change bumps.
    A client sends the counter value it was last told; a handler refuses the
    request when the two differ.  The macros of sammgmt.h are the functions
    below; a run interleaves any number of clients, and requests and replies may
    be delayed, reordered or lost.
  */
module RpcProtocol {
  import opened ModularCounting

  // SAMRPC_TIMESTAMP_NO_UPDATE
  const NO_UPDATE: int := -1

  /** The counter's C type reaches up to max; the macro wraps it at limit. */
  datatype Counter = Counter(max: nat, limit: nat) {

    /** SAMRPC_UPDATE_TIMESTAMP's arithmetic, with two's complement overflow. */
    function Bump(stamp: int): int {
      if stamp < limit then
        if stamp == max then 0 - max - 1 else stamp + 1
      else 0
    }

    // The number of distinct values the counter takes before it repeats.
    function Period(): nat {
      if limit <= max then limit + 1 else 2 * (max + 1)
    }

    // The counter after n successful updates of a server that started at 0.
    function StampAt(n: nat): int {
      if n == 0 then 0 else Bump(StampAt(n - 1))
    }

    function Offset(): nat {
      if limit <= max then 0 else max + 1
    }
  }

  lemma {:induction false} StampClosedForm(w: Counter, n: nat)
    ensures w.StampAt(n) == (n + w.Offset()) % w.Period() - w.Offset()
  {
    if n == 0 {
      SmallMod(w.Offset(), w.Period());
    } else {
      StampClosedForm(w, n - 1);
      ModSuccessor(n - 1 + w.Offset(), w.Period());
    }
  }

  /** Two update counts carry the same stamp exactly when they are a whole number
      of periods apart. */
  lemma SameStamp(w: Counter, m: nat, n: nat)
    requires m <= n
    ensures w.StampAt(m) == w.StampAt(n) <==> (n - m) % w.Period() == 0
  {
    StampClosedForm(w, m);
    StampClosedForm(w, n);
    SameRemainder(m + w.Offset(), n + w.Offset(), w.Period());
  }

  // ---------------------------------------------------------------- the server

  datatype Reply = Reply(status: int, stamp: int)

  /** server_timestamp, timestamp_updated and the one reused rpc_result. */
  datatype Server = Server(stamp: int, updated: bool, result: Reply)

  /** SAMRPC_UPDATE_TIMESTAMP */
  function UpdateTimestamp(w: Counter, s: Server, ret: int): Server {
    if ret != -1 then s.(stamp := w.Bump(s.stamp), updated := true) else s
  }

  /** SAMRPC_SET_RESULT.  A status of -1 leaves the reply's old stamp in place. */
  function SetResult(s: Server, ret: int): Server {
    if ret == -1 then s.(result := Reply(ret, s.result.stamp))
    else if s.updated then Server(s.stamp, false, Reply(ret, s.stamp))
    else s.(result := Reply(ret, NO_UPDATE))
  }

  /** The shapes of the server's handlers: Resync always hands out the stamp; a
      Procedure may check the stamp, may bump it, and starts with ret == initRet. */
  datatype Handler = Resync | Procedure(checks: bool, updates: bool, initRet: int)

  // No handler changes the configuration without checking the stamp first.
  predicate WellFormed(h: Handler) {
    h.Procedure? && h.updates ==> h.checks
  }

  predicate Refused(s: Server, h: Handler, stamp: int) {
    h.Procedure? && h.checks && stamp != s.stamp
  }

  // The request is let through and changes the configuration.
  predicate Changes(s: Server, h: Handler, stamp: int, apiRet: int) {
    h.Procedure? && h.updates && !Refused(s, h, stamp) && apiRet != -1
  }

  /** One request: check, call the library (which returns apiRet), bump, reply. */
  function Handle(w: Counter, s: Server, h: Handler, stamp: int, apiRet: int): Server {
    if h.Resync? then SetResult(s.(updated := true), 0)
    else if h.checks && stamp != s.stamp then SetResult(s, h.initRet)
    else SetResult(if h.updates then UpdateTimestamp(w, s, apiRet) else s, apiRet)
  }

  // ---------------------------------------------------------------- whole runs

  /** A client's stamp, with the number of updates there had been when the server
      issued it. */
  datatype Client = Client(stamp: int, issuedAt: nat)

  datatype Request = Request(client: nat, held: Client, handler: Handler)

  /** A reply on its way; at is the number of updates when it was written, owned
      says that this very request resynchronised or changed the configuration. */
  datatype Delivery = Delivery(client: nat, reply: Reply, at: nat, owned: bool)

  /** An accepted configuration change and the update count its author knew. */
  datatype Change = Change(client: nat, basedOn: nat)

  datatype State = State(
    server: Server,
    log: seq<Change>,
    clients: map<nat, Client>,
    requests: seq<Request>,
    replies: seq<Delivery>)

  datatype Step =
    | Connect(c: nat)
    | Send(c: nat, h: Handler)
    | Serve(i: nat, apiRet: int)
    | Receive(j: nat)
    | LoseRequest(i: nat)
    | LoseReply(j: nat)

  function Without<T>(s: seq<T>, i: nat): seq<T>
    requires i < |s|
  {
    s[..i] + s[i + 1..]
  }

  /** CHECK_FUNCTION_FAILURE: an error reply, and a reply without a stamp, leave
      the client's stamp alone. */
  function Adopt(c: Client, d: Delivery): Client {
    if d.reply.status == -1 || d.reply.stamp == NO_UPDATE then c
    else Client(d.reply.stamp, d.at)
  }

  function ServeRequest(w: Counter, s: State, r: Request, apiRet: int): State {
    var after := Handle(w, s.server, r.handler, r.held.stamp, apiRet);
    var changes := Changes(s.server, r.handler, r.held.stamp, apiRet);
    var log := if changes then s.log + [Change(r.client, r.held.issuedAt)] else s.log;
    var d := Delivery(r.client, after.result, |log|, changes || r.handler.Resync?);
    s.(server := after, log := log, replies := s.replies + [d])
  }

  function Next(w: Counter, s: State, step: Step): State {
    match step
    case Connect(c) =>
      s.(clients := s.clients[c := Client(s.server.stamp, |s.log|)])
    case Send(c, h) =>
      if c in s.clients && WellFormed(h)
      then s.(requests := s.requests + [Request(c, s.clients[c], h)]) else s
    case Serve(i, apiRet) =>
      if i < |s.requests|
      then ServeRequest(w, s.(requests := Without(s.requests, i)), s.requests[i], apiRet) else s
    case Receive(j) =>
      if j < |s.replies| && s.replies[j].client in s.clients
      then
        var d := s.replies[j];
        s.(clients := s.clients[d.client := Adopt(s.clients[d.client], d)],
           replies := Without(s.replies, j))
      else s
    case LoseRequest(i) => if i < |s.requests| then s.(requests := Without(s.requests, i)) else s
    case LoseReply(j) => if j < |s.replies| then s.(replies := Without(s.replies, j)) else s
  }

  // rpc_result starts zeroed, so the first error reply carries stamp 0.
  const Start: State := State(Server(0, false, Reply(0, 0)), [], map[], [], [])

  function Run(w: Counter, steps: seq<Step>): State {
    if steps == [] then Start else Next(w, Run(w, steps[..|steps| - 1]), steps[|steps| - 1])
  }

  // ---------------------------------------------------------------- invariants

  ghost predicate Holds(w: Counter, c: Client, n: nat) {
    c.issuedAt <= n && c.stamp == w.StampAt(c.issuedAt)
  }

  ghost predicate ServerInSync(w: Counter, s: State) {
    s.server.stamp == w.StampAt(|s.log|) && !s.server.updated
  }

  ghost predicate StampsIssued(w: Counter, s: State) {
    && (forall c <- s.clients :: Holds(w, s.clients[c], |s.log|))
    && (forall r <- s.requests :: Holds(w, r.held, |s.log|) && WellFormed(r.handler))
  }

  /** A reply makes its client adopt a stamp only if its own request was a resync
      or a change, and then the stamp is the one of that moment. */
  ghost predicate CleanReply(w: Counter, d: Delivery, n: nat) {
    && d.at <= n
    && (d.owned ==> d.reply == Reply(d.reply.status, w.StampAt(d.at)) && d.reply.status != -1)
    && (!d.owned ==> d.reply.status == -1 || d.reply.stamp == NO_UPDATE)
  }

  ghost predicate RepliesClean(w: Counter, s: State) {
    forall d <- s.replies :: CleanReply(w, d, |s.log|)
  }

  // Change number k was made by a client that knew k updates, modulo the period.
  ghost predicate NoLostUpdate(w: Counter, log: seq<Change>) {
    forall k | 0 <= k < |log| ::
      log[k].basedOn <= k && (k - log[k].basedOn) % w.Period() == 0
  }

  ghost predicate Inv(w: Counter, s: State) {
    ServerInSync(w, s) && StampsIssued(w, s) && RepliesClean(w, s) && NoLostUpdate(w, s.log)
  }

  lemma ServeKeepsInv(w: Counter, s: State, r: Request, apiRet: int)
    requires Inv(w, s) && Holds(w, r.held, |s.log|) && WellFormed(r.handler)
    ensures Inv(w, ServeRequest(w, s, r, apiRet))
  {
    var t := ServeRequest(w, s, r, apiRet);
    if Changes(s.server, r.handler, r.held.stamp, apiRet) {
      SameStamp(w, r.held.issuedAt, |s.log|);
      assert t.server.stamp == w.StampAt(|s.log| + 1);
      assert NoLostUpdate(w, t.log);
    }
    assert CleanReply(w, t.replies[|s.replies|], |t.log|);
  }

  lemma NextKeepsInv(w: Counter, s: State, step: Step)
    requires Inv(w, s)
    ensures Inv(w, Next(w, s, step))
  {
    match step
    case Serve(i, apiRet) =>
      if i < |s.requests| {
        var t := s.(requests := Without(s.requests, i));
        ServeKeepsInv(w, t, s.requests[i], apiRet);
      }
    case Receive(j) =>
      if j < |s.replies| {
        assert s.replies[j] in s.replies;
      }
    case _ =>
  }

  lemma {:induction false} RunKeepsInv(w: Counter, steps: seq<Step>)
    ensures Inv(w, Run(w, steps))
  {
    if steps != [] {
      RunKeepsInv(w, steps[..|steps| - 1]);
      NextKeepsInv(w, Run(w, steps[..|steps| - 1]), steps[|steps| - 1]);
    }
  }

  // ---------------------------------------------------------------- theorems

  /** In every run, every accepted change was based on the configuration it
      replaced, or on one a nonzero multiple of the period older; a run with at
      most one period of changes has a linear history. */
  lemma EveryAcceptedChangeIsUpToDate(w: Counter, steps: seq<Step>)
    ensures NoLostUpdate(w, Run(w, steps).log)
    ensures |Run(w, steps).log| <= w.Period() ==>
              forall k | 0 <= k < |Run(w, steps).log| :: Run(w, steps).log[k].basedOn == k
  {
    RunKeepsInv(w, steps);
    var log := Run(w, steps).log;
    if |log| <= w.Period() {
      forall k | 0 <= k < |log| ensures log[k].basedOn == k {
        SmallMod(k - log[k].basedOn, w.Period());
      }
    }
  }

  /** In every reachable state the check on a pending request is exact: it passes
      iff no update, or a multiple of the period, happened since the stamp the
      request carries was issued. */
  lemma CheckIsExact(w: Counter, steps: seq<Step>, i: nat)
    requires i < |Run(w, steps).requests|
    requires var h := Run(w, steps).requests[i].handler; h.Procedure? && h.checks
    ensures var s := Run(w, steps); var r := s.requests[i];
            && r.held.issuedAt <= |s.log|
            && (!Refused(s.server, r.handler, r.held.stamp)
                <==> (|s.log| - r.held.issuedAt) % w.Period() == 0)
  {
    RunKeepsInv(w, steps);
    var s := Run(w, steps);
    var r := s.requests[i];
    assert r in s.requests;
    SameStamp(w, r.held.issuedAt, |s.log|);
  }

  /** Between requests timestamp_updated is false, and a delivered reply changes
      the client's stamp only if its own request resynchronised or changed the
      configuration - never through a stamp left over in rpc_result. */
  lemma ReplyHygiene(w: Counter, steps: seq<Step>, j: nat)
    requires j < |Run(w, steps).replies|
    requires Run(w, steps).replies[j].client in Run(w, steps).clients
    ensures var s := Run(w, steps); var d := s.replies[j];
            var before, after := s.clients[d.client], Next(w, s, Receive(j)).clients[d.client];
            && !s.server.updated
            && (!d.owned ==> after == before)
            && (d.owned && w.StampAt(d.at) != NO_UPDATE ==> after == Client(w.StampAt(d.at), d.at))
            && (d.owned && w.StampAt(d.at) == NO_UPDATE ==> after == before)
  {
    RunKeepsInv(w, steps);
    var s := Run(w, steps);
    assert s.replies[j] in s.replies;
  }

  /** A client that takes the reply to its own change or resynchronisation before any
      further change is in sync for its next request - exactly unless the new stamp is
      the number that means "no stamp" and the stamp it already held is another one. */
  lemma AuthorStaysInSync(w: Counter, steps: seq<Step>, j: nat)
    requires j < |Run(w, steps).replies|
    requires var s := Run(w, steps); var d := s.replies[j];
             d.client in s.clients && d.owned && d.at == |s.log|
    ensures var s := Run(w, steps); var d := s.replies[j];
            var before, t := s.clients[d.client], Next(w, s, Receive(j));
            && before.issuedAt <= |s.log|
            && (t.clients[d.client].stamp == t.server.stamp
                <==> w.StampAt(|s.log|) != NO_UPDATE || (|s.log| - before.issuedAt) % w.Period() == 0)
  {
    RunKeepsInv(w, steps);
    var s := Run(w, steps);
    var d := s.replies[j];
    assert d in s.replies;
    SameStamp(w, s.clients[d.client].issuedAt, |s.log|);
  }

  // ---------------------------------------------------------------- runs with a stale request

  const UPDATE: Handler := Procedure(true, true, -1)

  /** Client 0 sends a request; before it is served, client 1 makes n changes. */
  function Overtaken(h: Handler, n: nat): seq<Step> {
    if n == 0 then [Connect(0), Send(0, h)]
    else Overtaken(h, n - 1) + [Connect(1)] + [Send(1, UPDATE)] + [Serve(1, 0)]
  }

  lemma RunStep(w: Counter, steps: seq<Step>, step: Step)
    ensures Run(w, steps + [step]) == Next(w, Run(w, steps), step)
  {
    assert (steps + [step])[..|steps|] == steps;
  }

  // The reply to client 1's n-th change is the last on its way, and client 1 still holds
  // the stamp it connected with.
  ghost predicate ReplyOnItsWay(s: State, n: nat) {
    && n > 0 && |s.log| == n && |s.replies| == n
    && 1 in s.clients && s.clients[1].issuedAt == n - 1
    && s.replies[n - 1].client == 1 && s.replies[n - 1].owned && s.replies[n - 1].at == n
  }

  lemma OneChange(w: Counter, s: State, stale: Request)
    requires s.requests == [stale]
    ensures var t := Next(w, Next(w, Next(w, s, Connect(1)), Send(1, UPDATE)), Serve(1, 0));
            && t.requests == [stale] && |t.log| == |s.log| + 1
            && (|s.replies| == |s.log| ==> ReplyOnItsWay(t, |s.log| + 1))
  {
    var u := Next(w, Next(w, s, Connect(1)), Send(1, UPDATE));
    assert u.requests[1] == Request(1, Client(s.server.stamp, |s.log|), UPDATE);
    assert Without(u.requests, 1) == [stale];
  }

  lemma {:induction false} OvertakenRun(w: Counter, h: Handler, n: nat)
    requires WellFormed(h)
    ensures var s := Run(w, Overtaken(h, n));
            && s.requests == [Request(0, Client(0, 0), h)] && |s.log| == |s.replies| == n
            && (n > 0 ==> ReplyOnItsWay(s, n))
  {
    if n == 0 {
      assert Overtaken(h, 0) == [] + [Connect(0)] + [Send(0, h)];
      RunStep(w, [], Connect(0));
      RunStep(w, [] + [Connect(0)], Send(0, h));
    } else {
      OvertakenRun(w, h, n - 1);
      OvertakenStep(w, h, n);
      OneChange(w, Run(w, Overtaken(h, n - 1)), Request(0, Client(0, 0), h));
    }
  }

  lemma OvertakenStep(w: Counter, h: Handler, n: nat)
    requires n > 0
    ensures Run(w, Overtaken(h, n))
            == Next(w, Next(w, Next(w, Run(w, Overtaken(h, n - 1)), Connect(1)), Send(1, UPDATE)), Serve(1, 0))
  {
    var steps := Overtaken(h, n - 1);
    RunStep(w, steps, Connect(1));
    RunStep(w, steps + [Connect(1)], Send(1, UPDATE));
    RunStep(w, steps + [Connect(1)] + [Send(1, UPDATE)], Serve(1, 0));
  }

  /** The wrap case is reachable for every counter: after a whole period of other
      changes a request based on none of them is accepted. */
  lemma WrapIsReachable(w: Counter)
    ensures var log := Run(w, Overtaken(UPDATE, w.Period()) + [Serve(0, 0)]).log;
            |log| == w.Period() + 1 && log[w.Period()] == Change(0, 0)
  {
    var p := w.Period();
    var steps := Overtaken(UPDATE, p);
    OvertakenRun(w, UPDATE, p);
    RunStep(w, steps, Serve(0, 0));
    RunKeepsInv(w, steps);
    SameStamp(w, 0, p);
    RemainderIs(p, p, 1, 0);
  }

  /** A counter that wraps at its own maximum never collides with "no stamp"; one
      compared with a limit beyond its type does, once per period. */
  lemma SentinelCollision(w: Counter, n: nat)
    ensures w.StampAt(n) == NO_UPDATE <==> w.limit > w.max && (n + 1) % w.Period() == 0
  {
    StampClosedForm(w, n);
    if w.limit > w.max {
      SmallMod(w.max, w.Period());
      SameRemainder(w.max, n + w.Offset(), w.Period());
    }
  }

  /** It happens with every counter whose limit lies beyond its type: the author of the
      last change before a whole period takes its reply and is out of sync. */
  lemma AuthorFallsOutOfSync(w: Counter)
    requires w.limit > w.max
    ensures var s := Run(w, Overtaken(UPDATE, w.Period() - 1));
            && |s.replies| == w.Period() - 1 && s.replies[w.Period() - 2].client == 1
            && s.replies[w.Period() - 2].owned && s.replies[w.Period() - 2].at == |s.log|
            && var t := Next(w, s, Receive(w.Period() - 2));
               1 in t.clients && t.clients[1].stamp != t.server.stamp
  {
    var n := w.Period() - 1;
    OvertakenRun(w, UPDATE, n);
    LastBeforePeriod(w, Overtaken(UPDATE, n), n);
  }

  lemma LastBeforePeriod(w: Counter, steps: seq<Step>, n: nat)
    requires w.limit > w.max && n + 1 == w.Period() && ReplyOnItsWay(Run(w, steps), n)
    ensures var t := Next(w, Run(w, steps), Receive(n - 1));
            1 in t.clients && t.clients[1].stamp != t.server.stamp
  {
    SentinelCollision(w, n);
    RemainderIs(n + 1, n + 1, 1, 0);
    AuthorStaysInSync(w, steps, n - 1);
    SmallMod(1, w.Period());
  }

  // server_timestamp is a 32-bit int compared with the 64-bit INTMAX_MAX.
  const IntCounter: Counter := Counter(0x7fff_ffff, 0x7fff_ffff_ffff_ffff)

  /** As compiled, the reset to zero is never taken: the counter runs through the
      negative numbers, repeats after 2^32 updates and passes the sentinel. */
  lemma IntCounterNeverResets(n: nat)
    ensures IntCounter.StampAt(n) < IntCounter.limit && IntCounter.Period() == 0x1_0000_0000
    ensures IntCounter.StampAt(n) == NO_UPDATE <==> (n + 1) % 0x1_0000_0000 == 0
  {
    StampClosedForm(IntCounter, n);
    SentinelCollision(IntCounter, n);
  }

  /** A refusal changes nothing on either side, and is answered with the status the handler
      reached the check with: the client is told of it iff that is -1; the two version
      queries start at 0 and report success. */
  lemma RefusalIsReported(w: Counter, steps: seq<Step>, i: nat, apiRet: int)
    requires i < |Run(w, steps).requests|
    requires var s := Run(w, steps); var r := s.requests[i];
             Refused(s.server, r.handler, r.held.stamp)
    ensures var s := Run(w, steps); var r := s.requests[i];
            var t := Next(w, s, Serve(i, apiRet)); var d := t.replies[|s.replies|];
            && t.server.stamp == s.server.stamp && t.log == s.log && t.clients == s.clients
            && d.client == r.client && Adopt(r.held, d) == r.held
            && d.reply.status == r.handler.initRet && t.server.result == d.reply
            && d.reply.stamp == if r.handler.initRet != -1 then NO_UPDATE else s.server.result.stamp
  {
    RunKeepsInv(w, steps);
  }

  /** Every request that the check lets through is answered, to its client and with
      exactly the status of the library call (0 for a resynchronisation).  The
      configuration changes iff the handler updates and the call did not fail; the reply
      carries the new stamp then and after a resynchronisation, and otherwise the
      no-update number, or after a failed call what the last reply carried. */
  lemma EveryRequestIsAnswered(w: Counter, steps: seq<Step>, i: nat, apiRet: int)
    requires i < |Run(w, steps).requests|
    requires var s := Run(w, steps); var r := s.requests[i];
             r.handler.Procedure? && r.handler.checks ==> r.held.stamp == s.server.stamp
    ensures var s := Run(w, steps); var r := s.requests[i]; var t := Next(w, s, Serve(i, apiRet));
            var changed := r.handler.Procedure? && r.handler.updates && apiRet != -1;
            && t.clients == s.clients && t.requests == s.requests[..i] + s.requests[i + 1..]
            && |t.replies| == |s.replies| + 1 && t.replies[..|s.replies|] == s.replies
            && t.log == s.log + (if changed then [Change(r.client, r.held.issuedAt)] else [])
            && t.server.stamp == w.StampAt(|t.log|)
            && var d := t.replies[|s.replies|];
               && d.client == r.client && d.at == |t.log| && (d.owned <==> changed || r.handler.Resync?)
               && d.reply.status == (if r.handler.Resync? then 0 else apiRet)
               && (d.owned ==> d.reply.stamp == w.StampAt(|t.log|))
               && (!d.owned ==> d.reply.stamp == if apiRet != -1 then NO_UPDATE else s.server.result.stamp)
               && t.server.result == d.reply && !t.server.updated
  {
    RunKeepsInv(w, steps);
    NextKeepsInv(w, Run(w, steps), Serve(i, apiRet));
  }

  // The two version queries: they check the stamp with ret == 0.
  const VERSION: Handler := Procedure(true, false, 0)

  /** A version query that another client's change overtakes is refused and answered
      with status 0, for every counter that takes more than one value. */
  lemma RefusedVersionQuerySucceeds(w: Counter)
    requires w.Period() > 1
    ensures var s := Run(w, Overtaken(VERSION, 1));
            var t := Run(w, Overtaken(VERSION, 1) + [Serve(0, 0)]);
            && |s.requests| == 1 && Refused(s.server, VERSION, s.requests[0].held.stamp)
            && |t.replies| == |s.replies| + 1 && t.replies[|s.replies|].reply.status == 0
  {
    var steps := Overtaken(VERSION, 1);
    OvertakenRun(w, VERSION, 1);
    RunKeepsInv(w, steps);
    SameStamp(w, 0, 1);
    SmallMod(1, w.Period());
    RunStep(w, steps, Serve(0, 0));
  }
}

/** The same handlers in the macros' own form: one server object whose three
    globals the macros update in place. */
module RpcServer {
  import opened RpcProtocol

  class Daemon {
    var serverTimestamp: int
    var timestampUpdated: bool
    var rpcResult: Reply

    ghost function View(): Server
      reads this
    {
      Server(serverTimestamp, timestampUpdated, rpcResult)
    }

    constructor ()
      ensures View() == Start.server
    {
      serverTimestamp, timestampUpdated, rpcResult := 0, false, Reply(0, 0);
    }

    /** SAMRPC_SET_RESULT */
    method SetResult(ret: int)
      modifies this
      ensures View() == RpcProtocol.SetResult(old(View()), ret)
    {
      rpcResult := rpcResult.(status := ret);
      match ret {
        case -1 =>
        case _ =>
          if timestampUpdated {
            rpcResult := rpcResult.(stamp := serverTimestamp);
            timestampUpdated := false;
          } else {
            rpcResult := rpcResult.(stamp := NO_UPDATE);
          }
      }
    }

    /** SAMRPC_UPDATE_TIMESTAMP */
    method UpdateTimestamp(w: Counter, ret: int)
      modifies this
      ensures View() == RpcProtocol.UpdateTimestamp(w, old(View()), ret)
    {
      if ret != -1 {
        if serverTimestamp < w.limit {
          serverTimestamp := if serverTimestamp == w.max then 0 - w.max - 1 else serverTimestamp + 1;
        } else {
          serverTimestamp := 0;
        }
        timestampUpdated := true;
      }
    }

    /** A handler's body: SAMRPC_CHECK_TIMESTAMP, the library call, the bump and
        the reply. */
    method Serve(w: Counter, h: Handler, stamp: int, apiRet: int) returns (reply: Reply)
      modifies this
      ensures View() == Handle(w, old(View()), h, stamp, apiRet)
      ensures reply == View().result
      ensures reply.status == if h.Resync? then 0
                              else if h.checks && stamp != old(serverTimestamp) then h.initRet else apiRet
    {
      match h {
        case Resync =>
          timestampUpdated := true;
          SetResult(0);
          return rpcResult;
        case Procedure(checks, updates, initRet) =>
          var ret := initRet;
          if checks && stamp != serverTimestamp {
            SetResult(ret);
            return rpcResult;
          }
          ret := apiRet;
          if updates {
            UpdateTimestamp(w, ret);
          }
          SetResult(ret);
          return rpcResult;
      }
    }
  }
}
