/**
 Batch work over SSH: one worker per client sends its result into a channel of capacity one, and the
 main goroutine collects as many results as there are clients and closes the channel.
 */
module SshClients {

  /** A configured connection, and whether its credentials can be read and its host be reached. */
  datatype Connection = Connection(host: string, authorized: bool, reachable: bool)

  predicate Usable(c: Connection) {
    c.authorized && c.reachable
  }

  /** `i` is the last usable connection to the host `h` among the first `k`. */
  ghost predicate LastUsable(conns: seq<Connection>, k: nat, h: string, i: nat)
    requires k <= |conns|
  {
    && i < k && Usable(conns[i]) && conns[i].host == h
    && forall j :: i < j < k && conns[j].host == h ==> !Usable(conns[j])
  }

  /** The map that the first `k` connections build. */
  function Clients(conns: seq<Connection>, k: nat): map<string, nat>
    requires k <= |conns|
  {
    if k == 0 then map[]
    else if Usable(conns[k - 1]) then Clients(conns, k - 1)[conns[k - 1].host := k - 1]
    else Clients(conns, k - 1)
  }

  /** A host is a key exactly when one of its connections is usable, and its client is the last of them. */
  lemma {:induction false} ClientsAreLastUsable(conns: seq<Connection>, k: nat)
    requires k <= |conns|
    ensures forall h, i: nat :: LastUsable(conns, k, h, i) <==> h in Clients(conns, k) && Clients(conns, k)[h] == i
    ensures |Clients(conns, k)| <= k
  {
    if k > 0 {
      ClientsAreLastUsable(conns, k - 1);
      var conn, before := conns[k - 1], Clients(conns, k - 1);
      forall h, i: nat
        ensures LastUsable(conns, k, h, i) <==> h in Clients(conns, k) && Clients(conns, k)[h] == i
      {
        if Usable(conn) && h == conn.host {
          assert LastUsable(conns, k, h, i) <==> i == k - 1;
        } else {
          assert LastUsable(conns, k, h, i) <==> LastUsable(conns, k - 1, h, i);
        }
      }
    }
  }

  /** Opens the clients, keyed by host; there are never more of them than connections. */
  method InitClients(conns: seq<Connection>) returns (clients: map<string, nat>)
    ensures forall h, i: nat :: LastUsable(conns, |conns|, h, i) <==> h in clients && clients[h] == i
    ensures |clients| <= |conns|
  {
    clients := map[];
    for k := 0 to |conns|
      invariant clients == Clients(conns, k)
    {
      var conn := conns[k];
      if !conn.authorized {
        continue;
      }
      if !conn.reachable {
        continue;
      }
      clients := clients[conn.host := k];
    }
    ClientsAreLastUsable(conns, |conns|);
  }
}

module SshFanIn {

  /** The result of one host, as sent, buffered and printed. */
  datatype Result = Result(host: nat, ok: bool)

  /**
   One client's share of the work. A goroutine ranges over its own channel, which holds `queued`
   commands and is closed; `OpenFailed` is a session that could not be opened, whose error the
   launcher itself still has to send.
   */
  datatype Worker =
    | Unlaunched
    | OpenFailed
    | Ranging(queued: nat)
    | Calling(queued: nat)
    | Sending(queued: nat, ok: bool)
    | Exited

  /**
   The two uses. With `launchFirst` the main goroutine launches every worker before it collects, and
   launching cannot fail (SSHBatchSendFile); otherwise a launcher goroutine runs beside the collector
   and may meet sessions that do not open (sshRun).
   */
  datatype Config = Config(hosts: nat, launchFirst: bool)

  datatype State = State(
    workers: seq<Worker>,
    next: nat,
    channel: seq<Result>,
    printed: seq<Result>,
    closed: bool,
    panicked: bool)

  datatype Action =
    | Launch(host: nat, up: bool)
    | SendError(host: nat)
    | Take(host: nat)
    | Return(host: nat, ok: bool)
    | Send(host: nat)
    | Exit(host: nat)
    | Collect
    | Close

  const CAPACITY := 1

  function Init(c: Config): State {
    State(seq(c.hosts, _ => Unlaunched), 0, [], [], false, false)
  }

  predicate LauncherBlocked(s: State) {
    0 < s.next <= |s.workers| && s.workers[s.next - 1] == OpenFailed
  }

  predicate Enabled(c: Config, s: State, a: Action) {
    match a
    case Launch(h, up) => h == s.next < |s.workers| && !LauncherBlocked(s) && (c.launchFirst ==> up)
    case SendError(h) => h < |s.workers| && s.workers[h].OpenFailed? && (|s.channel| < CAPACITY || s.closed)
    case Take(h) => h < |s.workers| && s.workers[h].Ranging? && s.workers[h].queued > 0
    case Return(h, _) => h < |s.workers| && s.workers[h].Calling?
    case Send(h) => h < |s.workers| && s.workers[h].Sending? && (|s.channel| < CAPACITY || s.closed)
    case Exit(h) => h < |s.workers| && s.workers[h] == Ranging(0)
    case Collect => s.channel != [] && |s.printed| < c.hosts && (c.launchFirst ==> s.next == |s.workers|)
    case Close => |s.printed| == c.hosts && !s.closed && (c.launchFirst ==> s.next == |s.workers|)
  }

  /** Sending on a closed channel panics. */
  function Put(s: State, r: Result, w: Worker): State
    requires r.host < |s.workers|
  {
    if s.closed then s.(panicked := true)
    else s.(workers := s.workers[r.host := w], channel := s.channel + [r])
  }

  function Step(c: Config, s: State, a: Action): State
    requires Enabled(c, s, a)
  {
    match a
    case Launch(h, up) => s.(workers := s.workers[h := if up then Ranging(1) else OpenFailed], next := s.next + 1)
    case SendError(h) => Put(s, Result(h, false), Exited)
    case Take(h) => s.(workers := s.workers[h := Calling(s.workers[h].queued - 1)])
    case Return(h, ok) => s.(workers := s.workers[h := Sending(s.workers[h].queued, ok)])
    case Send(h) => Put(s, Result(h, s.workers[h].ok), Ranging(s.workers[h].queued))
    case Exit(h) => s.(workers := s.workers[h := Exited])
    case Collect => s.(channel := s.channel[1..], printed := s.printed + [s.channel[0]])
    case Close => s.(closed := true)
  }

  predicate Run(c: Config, s: State, acts: seq<Action>)
    decreases |acts|
  {
    acts == [] || (Enabled(c, s, acts[0]) && Run(c, Step(c, s, acts[0]), acts[1..]))
  }

  function Exec(c: Config, s: State, acts: seq<Action>): State
    requires Run(c, s, acts)
    decreases |acts|
  {
    if acts == [] then s else Exec(c, Step(c, s, acts[0]), acts[1..])
  }

  /** The results a worker has still to send. */
  function Unsent(w: Worker): nat {
    match w
    case Unlaunched => 1
    case OpenFailed => 1
    case Ranging(q) => q
    case Calling(q) => q + 1
    case Sending(q, _) => q + 1
    case Exited => 0
  }

  /** An upper bound on the steps a worker causes. */
  function Weight(w: Worker): nat {
    match w
    case Unlaunched => 6
    case OpenFailed => 2
    case Ranging(q) => 1 + 4 * q
    case Calling(q) => 4 + 4 * q
    case Sending(q, _) => 3 + 4 * q
    case Exited => 0
  }

  function Sum(f: Worker -> nat, ws: seq<Worker>): nat {
    if ws == [] then 0 else f(ws[0]) + Sum(f, ws[1..])
  }

  lemma {:induction false} SumUpdate(f: Worker -> nat, ws: seq<Worker>, i: nat, w: Worker)
    requires i < |ws|
    ensures Sum(f, ws[i := w]) == Sum(f, ws) - f(ws[i]) + f(w)
  {
    if i == 0 {
      assert ws[i := w][1..] == ws[1..];
    } else {
      assert ws[i := w][1..] == ws[1..][i - 1 := w];
      SumUpdate(f, ws[1..], i - 1, w);
    }
  }

  lemma {:induction false} SumConst(f: Worker -> nat, ws: seq<Worker>, k: nat)
    requires forall w :: w in ws ==> f(w) == k
    ensures Sum(f, ws) == k * |ws|
  {
    if ws != [] { SumConst(f, ws[1..], k); }
  }

  lemma {:induction false} SumZero(f: Worker -> nat, ws: seq<Worker>, i: nat)
    requires Sum(f, ws) == 0 && i < |ws|
    ensures f(ws[i]) == 0
  {
    if i > 0 { SumZero(f, ws[1..], i - 1); }
  }

  /** How often the results name a host. */
  function Times(h: nat, rs: seq<Result>): nat {
    if rs == [] then 0 else (if rs[0].host == h then 1 else 0) + Times(h, rs[1..])
  }

  lemma {:induction false} TimesSnoc(h: nat, rs: seq<Result>, r: Result)
    ensures Times(h, rs + [r]) == Times(h, rs) + if r.host == h then 1 else 0
  {
    if rs == [] {
      assert (rs + [r])[1..] == [];
    } else {
      assert (rs + [r])[1..] == rs[1..] + [r];
      TimesSnoc(h, rs[1..], r);
    }
  }

  /** Each host's one result is still to be sent, in the channel, or printed. */
  ghost predicate OneResult(s: State, h: nat)
    requires h < |s.workers|
  {
    Unsent(s.workers[h]) + Times(h, s.channel) + Times(h, s.printed) == 1
  }

  ghost predicate Inv(c: Config, s: State) {
    && |s.workers| == c.hosts && s.next <= c.hosts
    && (forall h :: 0 <= h < c.hosts ==> (s.workers[h].Unlaunched? <==> s.next <= h))
    && (forall h :: 0 <= h < c.hosts && s.workers[h].OpenFailed? ==> h == s.next - 1 && !c.launchFirst)
    && (forall h :: 0 <= h < c.hosts ==> OneResult(s, h))
    && Sum(Unsent, s.workers) + |s.channel| + |s.printed| == c.hosts
    && |s.channel| <= CAPACITY
    && (s.closed ==> |s.printed| == c.hosts)
    && !s.panicked
  }

  lemma InitInv(c: Config)
    ensures Inv(c, Init(c))
    ensures Sum(Weight, Init(c).workers) == 6 * c.hosts
  {
    SumConst(Unsent, Init(c).workers, 1);
    SumConst(Weight, Init(c).workers, 6);
  }

  /** Once every result is printed, nothing is left to send. */
  lemma NothingLeft(c: Config, s: State, h: nat)
    requires Inv(c, s) && |s.printed| == c.hosts && h < c.hosts
    ensures Unsent(s.workers[h]) == 0 && s.channel == []
  {
    SumZero(Unsent, s.workers, h);
  }

  lemma PutInv(c: Config, s: State, r: Result, w: Worker)
    requires Inv(c, s) && r.host < c.hosts && |s.channel| < CAPACITY && !s.closed
    requires !w.Unlaunched? && !w.OpenFailed? && !s.workers[r.host].Unlaunched?
    requires Unsent(w) + 1 == Unsent(s.workers[r.host])
    ensures Inv(c, Put(s, r, w))
  {
    var t := Put(s, r, w);
    SumUpdate(Unsent, s.workers, r.host, w);
    forall h | 0 <= h < c.hosts ensures OneResult(t, h) {
      assert OneResult(s, h);
      TimesSnoc(h, s.channel, r);
    }
  }

  lemma InvStep(c: Config, s: State, a: Action)
    requires Inv(c, s) && Enabled(c, s, a)
    ensures Inv(c, Step(c, s, a))
  {
    var t := Step(c, s, a);
    match a
    case Launch(_, _) =>
      SumUpdate(Unsent, s.workers, s.next, t.workers[s.next]);
      forall h | 0 <= h < c.hosts ensures OneResult(t, h) { assert OneResult(s, h); }
    case Take(h) => MoveInv(c, s, h, t.workers[h]);
    case Return(h, _) => MoveInv(c, s, h, t.workers[h]);
    case Exit(h) => MoveInv(c, s, h, t.workers[h]);
    case SendError(h) =>
      if s.closed { NothingLeft(c, s, h); }
      PutInv(c, s, Result(h, false), Exited);
    case Send(h) =>
      if s.closed { NothingLeft(c, s, h); }
      PutInv(c, s, Result(h, s.workers[h].ok), Ranging(s.workers[h].queued));
    case Collect =>
      forall h | 0 <= h < c.hosts ensures OneResult(t, h) {
        assert OneResult(s, h);
        TimesSnoc(h, s.printed, s.channel[0]);
      }
    case Close =>
      forall h | 0 <= h < c.hosts ensures OneResult(t, h) { assert OneResult(s, h); }
  }

  /** A worker moves on without sending. */
  lemma MoveInv(c: Config, s: State, h: nat, w: Worker)
    requires Inv(c, s) && h < c.hosts && Unsent(w) == Unsent(s.workers[h])
    requires !w.Unlaunched? && !w.OpenFailed? && !s.workers[h].Unlaunched?
    ensures Inv(c, s.(workers := s.workers[h := w]))
  {
    var t := s.(workers := s.workers[h := w]);
    SumUpdate(Unsent, s.workers, h, w);
    forall k | 0 <= k < c.hosts ensures OneResult(t, k) { assert OneResult(s, k); }
  }

  /** The remaining work, which every step lessens. */
  function Measure(s: State): nat {
    Sum(Weight, s.workers) + |s.channel| + if s.closed then 0 else 1
  }

  lemma MeasureStep(c: Config, s: State, a: Action)
    requires Inv(c, s) && Enabled(c, s, a)
    ensures Measure(Step(c, s, a)) < Measure(s)
  {
    var t := Step(c, s, a);
    match a
    case Launch(_, _) => SumUpdate(Weight, s.workers, s.next, t.workers[s.next]);
    case Take(h) => SumUpdate(Weight, s.workers, h, t.workers[h]);
    case Return(h, _) => SumUpdate(Weight, s.workers, h, t.workers[h]);
    case Exit(h) => SumUpdate(Weight, s.workers, h, t.workers[h]);
    case SendError(h) =>
      if s.closed { NothingLeft(c, s, h); }
      SumUpdate(Weight, s.workers, h, Exited);
    case Send(h) =>
      if s.closed { NothingLeft(c, s, h); }
      SumUpdate(Weight, s.workers, h, Ranging(s.workers[h].queued));
    case Collect =>
    case Close =>
  }

  lemma {:induction false} InvExec(c: Config, s: State, acts: seq<Action>)
    requires Inv(c, s) && Run(c, s, acts)
    ensures Inv(c, Exec(c, s, acts))
    ensures Measure(Exec(c, s, acts)) + |acts| <= Measure(s)
    decreases |acts|
  {
    if acts != [] {
      InvStep(c, s, acts[0]);
      MeasureStep(c, s, acts[0]);
      InvExec(c, Step(c, s, acts[0]), acts[1..]);
    }
  }

  /**
   In every interleaving nothing is ever sent on the closed channel, and unsent, buffered and printed
   results add up to the clients.
   */
  lemma SafeRuns(c: Config, acts: seq<Action>)
    requires Run(c, Init(c), acts)
    ensures var s := Exec(c, Init(c), acts);
            && !s.panicked
            && Sum(Unsent, s.workers) + |s.channel| + |s.printed| == c.hosts
            && forall h :: 0 <= h < c.hosts ==> Times(h, s.printed) <= 1
  {
    InitInv(c);
    InvExec(c, Init(c), acts);
    var s := Exec(c, Init(c), acts);
    forall h | 0 <= h < c.hosts ensures Times(h, s.printed) <= 1 { assert OneResult(s, h); }
  }

  /** What the steps so far account for: the result is its call's, or the error of a session that did not open. */
  ghost predicate Accounted(past: seq<Action>, r: Result) {
    Return(r.host, r.ok) in past || (!r.ok && Launch(r.host, false) in past && SendError(r.host) in past)
  }

  ghost predicate Justified(s: State, past: seq<Action>) {
    && (forall i :: 0 <= i < |s.channel| ==> Accounted(past, s.channel[i]))
    && (forall i :: 0 <= i < |s.printed| ==> Accounted(past, s.printed[i]))
    && (forall h :: 0 <= h < |s.workers| && s.workers[h].Sending? ==> Return(h, s.workers[h].ok) in past)
    && (forall h :: 0 <= h < |s.workers| && s.workers[h].OpenFailed? ==> Launch(h, false) in past)
  }

  lemma AccountedMore(past: seq<Action>, a: Action, r: Result)
    requires Accounted(past, r)
    ensures Accounted(past + [a], r)
  {}

  lemma JustifiedStep(c: Config, s: State, a: Action, past: seq<Action>)
    requires Enabled(c, s, a) && Justified(s, past)
    ensures Justified(Step(c, s, a), past + [a])
  {
    var t := Step(c, s, a);
    forall r | Accounted(past, r) ensures Accounted(past + [a], r) { AccountedMore(past, a, r); }
    assert a in past + [a];
    if a.Send? && !s.closed {
      assert Accounted(past, Result(a.host, s.workers[a.host].ok));
    }
  }

  lemma {:induction false} JustifiedExec(c: Config, s: State, acts: seq<Action>, past: seq<Action>)
    requires Run(c, s, acts) && Justified(s, past)
    ensures Justified(Exec(c, s, acts), past + acts)
    decreases |acts|
  {
    if acts == [] {
      assert past + acts == past;
    } else {
      JustifiedStep(c, s, acts[0], past);
      JustifiedExec(c, Step(c, s, acts[0]), acts[1..], past + [acts[0]]);
      assert past + [acts[0]] + acts[1..] == past + acts;
    }
  }

  /** Every printed result is the outcome of its host's own call, or the error of its session that did not open. */
  lemma PrintedAreOutcomes(c: Config, acts: seq<Action>, i: nat)
    requires Run(c, Init(c), acts) && i < |Exec(c, Init(c), acts).printed|
    ensures Accounted(acts, Exec(c, Init(c), acts).printed[i])
  {
    JustifiedExec(c, Init(c), acts, []);
    assert [] + acts == acts;
  }

  /** The hosts that send, the launcher's errors included, in order. */
  function Senders(acts: seq<Action>): seq<nat> {
    if acts == [] then []
    else (if acts[0].Send? || acts[0].SendError? then [acts[0].host] else []) + Senders(acts[1..])
  }

  function HostsOf(rs: seq<Result>): seq<nat> {
    seq(|rs|, i requires 0 <= i < |rs| => rs[i].host)
  }

  /** In every interleaving results are printed in the order in which they are sent. */
  lemma PrintedInOrder(c: Config, acts: seq<Action>)
    requires Run(c, Init(c), acts)
    ensures var s := Exec(c, Init(c), acts); HostsOf(s.printed) + HostsOf(s.channel) == Senders(acts)
  {
    InitInv(c);
    OrderExec(c, Init(c), acts);
  }

  lemma {:induction false} OrderExec(c: Config, s: State, acts: seq<Action>)
    requires Inv(c, s) && Run(c, s, acts)
    ensures var t := Exec(c, s, acts);
            HostsOf(t.printed) + HostsOf(t.channel) == HostsOf(s.printed) + HostsOf(s.channel) + Senders(acts)
    decreases |acts|
  {
    if acts != [] {
      InvStep(c, s, acts[0]);
      OrderExec(c, Step(c, s, acts[0]), acts[1..]);
      OrderStep(c, s, acts[0]);
      var sent := if acts[0].Send? || acts[0].SendError? then [acts[0].host] else [];
      Associate(HostsOf(s.printed) + HostsOf(s.channel), sent, Senders(acts[1..]));
    }
  }

  lemma Associate(a: seq<nat>, b: seq<nat>, c: seq<nat>)
    ensures a + b + c == a + (b + c)
  {}

  lemma OrderStep(c: Config, s: State, a: Action)
    requires Inv(c, s) && Enabled(c, s, a)
    ensures var t := Step(c, s, a);
            HostsOf(t.printed) + HostsOf(t.channel) ==
            HostsOf(s.printed) + HostsOf(s.channel) + if a.Send? || a.SendError? then [a.host] else []
  {
    InvStep(c, s, a);
  }

  /** Once the channel is closed every client's result has been printed, and printed once. */
  lemma ClosedMeansAllPrinted(c: Config, acts: seq<Action>)
    requires Run(c, Init(c), acts) && Exec(c, Init(c), acts).closed
    ensures var s := Exec(c, Init(c), acts);
            |s.printed| == c.hosts && forall h :: 0 <= h < c.hosts ==> Times(h, s.printed) == 1
  {
    InitInv(c);
    InvExec(c, Init(c), acts);
    var s := Exec(c, Init(c), acts);
    forall h | 0 <= h < c.hosts ensures Times(h, s.printed) == 1 {
      NothingLeft(c, s, h);
      assert OneResult(s, h);
    }
  }

  predicate Final(s: State) {
    s.closed && s.channel == [] && forall w :: w in s.workers ==> w.Exited?
  }

  /** A state that is not final has a next step. */
  lemma Progress(c: Config, s: State) returns (a: Action)
    requires Inv(c, s) && !Final(s)
    ensures Enabled(c, s, a)
  {
    if s.next < c.hosts && !LauncherBlocked(s) {
      return Launch(s.next, true);
    }
    if s.channel != [] {
      return Collect;
    }
    if h: nat :| h < c.hosts && !s.workers[h].Exited? {
      match s.workers[h]
      case OpenFailed => return SendError(h);
      case Ranging(q) => return if q > 0 then Take(h) else Exit(h);
      case Calling(_) => return Return(h, true);
      case Sending(_, _) => return Send(h);
      case Unlaunched => return SendError(s.next - 1);
    }
    SumConst(Unsent, s.workers, 0);
    return Close;
  }

  lemma FinalRests(c: Config, s: State, a: Action)
    requires Final(s) && s.next == |s.workers|
    ensures !Enabled(c, s, a)
  {
    match a
    case Launch(_, _) =>
    case SendError(h) => if h < |s.workers| { assert s.workers[h] in s.workers; }
    case Take(h) => if h < |s.workers| { assert s.workers[h] in s.workers; }
    case Return(h, _) => if h < |s.workers| { assert s.workers[h] in s.workers; }
    case Send(h) => if h < |s.workers| { assert s.workers[h] in s.workers; }
    case Exit(h) => if h < |s.workers| { assert s.workers[h] in s.workers; }
    case Collect =>
    case Close =>
  }

  lemma StillUnlaunched(c: Config, s: State)
    requires Inv(c, s) && s.next < c.hosts
    ensures s.workers[s.next] in s.workers && s.workers[s.next].Unlaunched?
  {}

  /** No run is longer than six steps a client and the close, and a run that cannot go on has finished its work. */
  lemma {:induction false} RunsFinish(c: Config, acts: seq<Action>)
    requires Run(c, Init(c), acts)
    ensures |acts| <= 6 * c.hosts + 1
    ensures (forall a :: !Enabled(c, Exec(c, Init(c), acts), a)) <==> Final(Exec(c, Init(c), acts))
  {
    InitInv(c);
    InvExec(c, Init(c), acts);
    var s := Exec(c, Init(c), acts);
    if Final(s) {
      if s.next < c.hosts { StillUnlaunched(c, s); }
      forall a ensures !Enabled(c, s, a) { FinalRests(c, s, a); }
    } else {
      var a := Progress(c, s);
    }
  }
}
