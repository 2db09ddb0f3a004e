/**
 Broadcasting commands over SSH, before cancellation: the dispatcher hands every command to each
 host's worker over an unbuffered channel, one host after the other in an order chosen anew for every
 command; the workers send results into one bounded channel, and a printer empties it.
 */
module SshBatch {

  type Command = string

  /** A worker waits for a command, runs it, and reports; without a session there is no worker. */
  datatype Phase = Absent | Ready | Calling | Reporting

  /** The dispatcher waits for a command, or is handing one to the first of the hosts in `todo`. */
  datatype Dispatcher = Idle | Handing(cmd: Command, todo: seq<nat>)

  datatype Line = Line(host: nat, failed: bool)

  datatype State = State(
    workers: seq<Phase>,
    dispatcher: Dispatcher,
    results: seq<nat>,              // the channel: each entry is the host's one shared result
    failed: set<nat>,               // the hosts whose shared result carries an error
    taken: seq<Command>,            // every command broadcast so far
    delivered: seq<seq<Command>>,   // the commands each host has received
    sent: seq<nat>,                 // how many results each host has sent
    printed: seq<Line>)

  datatype Action =
    | TakeCommand(cmd: Command, order: seq<nat>)
    | Hand(host: nat)
    | Return(host: nat, ok: bool)
    | Report(host: nat)
    | Print

  /** Which sessions could be opened, and the capacity of the results channel. */
  datatype Config = Config(open: seq<bool>, capacity: nat)

  ghost predicate ValidConfig(c: Config) {
    1 <= |c.open| <= c.capacity
  }

  ghost predicate AllOpen(c: Config) {
    forall h :: 0 <= h < |c.open| ==> c.open[h]
  }

  /** An order in which a range over the clients may visit them: every host once. */
  predicate RangeOrder(c: Config, order: seq<nat>) {
    && (forall h: nat :: h < |c.open| ==> h in order)
    && (forall i :: 0 <= i < |order| ==> order[i] < |c.open|)
    && (forall i, j :: 0 <= i < j < |order| ==> order[i] != order[j])
  }

  function Init(c: Config): State {
    var n := |c.open|;
    State(seq(n, h requires 0 <= h < n => if c.open[h] then Ready else Absent), Idle, [], {}, [],
          seq(n, _ => []), seq(n, _ => 0), [])
  }

  predicate Shape(c: Config, s: State) {
    |s.workers| == |s.delivered| == |s.sent| == |c.open|
  }

  /**
   Which steps can be taken. A session refuses to run a second command, its output being set already,
   so only the first call of a host can succeed.
   */
  predicate Enabled(c: Config, s: State, a: Action) {
    Shape(c, s) &&
    match a
    case TakeCommand(_, order) => s.dispatcher.Idle? && RangeOrder(c, order)
    case Hand(h) => s.dispatcher.Handing? && s.dispatcher.todo != [] && h == s.dispatcher.todo[0] &&
                    h < |s.workers| && s.workers[h] == Ready
    case Return(h, ok) => h < |s.workers| && s.workers[h] == Calling && (ok ==> |s.delivered[h]| == 1)
    case Report(h) => h < |s.workers| && s.workers[h] == Reporting && |s.results| < c.capacity
    case Print => s.results != []
  }

  function Step(c: Config, s: State, a: Action): State
    requires Enabled(c, s, a)
  {
    match a
    case TakeCommand(cmd, order) => s.(dispatcher := Handing(cmd, order), taken := s.taken + [cmd])
    case Hand(h) =>
      var rest := s.dispatcher.todo[1..];
      s.(workers := s.workers[h := Calling],
         delivered := s.delivered[h := s.delivered[h] + [s.dispatcher.cmd]],
         dispatcher := if rest == [] then Idle else Handing(s.dispatcher.cmd, rest))
    case Return(h, ok) =>
      s.(workers := s.workers[h := Reporting], failed := if ok then s.failed else s.failed + {h})
    case Report(h) =>
      s.(workers := s.workers[h := Ready], results := s.results + [h], sent := s.sent[h := s.sent[h] + 1])
    case Print =>
      s.(results := s.results[1..], printed := s.printed + [Line(s.results[0], s.results[0] in s.failed)])
  }

  predicate Run(c: Config, s: State, acts: seq<Action>)
    decreases |acts|
  {
    acts == [] || (Enabled(c, s, acts[0]) && Run(c, Step(c, s, acts[0]), acts[1..]))
  }

  function Exec(c: Config, s: State, acts: seq<Action>): State
    requires Run(c, s, acts)
    decreases |acts|
  {
    if acts == [] then s else Exec(c, Step(c, s, acts[0]), acts[1..])
  }

  function Busy(p: Phase): nat {
    if p == Calling || p == Reporting then 1 else 0
  }

  function InChannel(h: nat, rs: seq<nat>): nat {
    if rs == [] then 0 else (if rs[0] == h then 1 else 0) + InChannel(h, rs[1..])
  }

  function Printed(h: nat, ls: seq<Line>): nat {
    if ls == [] then 0 else (if ls[0].host == h then 1 else 0) + Printed(h, ls[1..])
  }

  lemma {:induction false} InChannelSnoc(h: nat, rs: seq<nat>, r: nat)
    ensures InChannel(h, rs + [r]) == InChannel(h, rs) + if r == h then 1 else 0
  {
    if rs == [] {
      assert (rs + [r])[1..] == [];
    } else {
      assert (rs + [r])[1..] == rs[1..] + [r];
      InChannelSnoc(h, rs[1..], r);
    }
  }

  lemma {:induction false} PrintedSnoc(h: nat, ls: seq<Line>, l: Line)
    ensures Printed(h, ls + [l]) == Printed(h, ls) + if l.host == h then 1 else 0
  {
    if ls == [] {
      assert (ls + [l])[1..] == [];
    } else {
      assert (ls + [l])[1..] == ls[1..] + [l];
      PrintedSnoc(h, ls[1..], l);
    }
  }

  /** How many of the broadcast commands host `h` has received. */
  function Received(s: State, h: nat): int {
    if s.dispatcher.Handing? && h in s.dispatcher.todo then |s.taken| - 1 else |s.taken|
  }

  /** What holds of one host: it has received the commands in order, and each result is accounted for. */
  ghost predicate HostInv(c: Config, s: State, h: nat)
    requires Shape(c, s) && h < |c.open|
  {
    && (s.workers[h] == Absent <==> !c.open[h])
    && 0 <= Received(s, h) && s.delivered[h] == s.taken[..Received(s, h)]
    && |s.delivered[h]| == s.sent[h] + Busy(s.workers[h])
    && s.sent[h] == InChannel(h, s.results) + Printed(h, s.printed)
  }

  ghost predicate Inv(c: Config, s: State) {
    && Shape(c, s)
    && (forall h :: 0 <= h < |c.open| ==> HostInv(c, s, h))
    && (s.dispatcher.Handing? ==>
          && s.dispatcher.todo != []
          && (forall i :: 0 <= i < |s.dispatcher.todo| ==> s.dispatcher.todo[i] < |c.open|)
          && (forall i, j :: 0 <= i < j < |s.dispatcher.todo| ==> s.dispatcher.todo[i] != s.dispatcher.todo[j])
          && s.taken != [] && s.taken[|s.taken| - 1] == s.dispatcher.cmd)
    && |s.results| <= c.capacity
  }

  lemma InitInv(c: Config)
    requires ValidConfig(c)
    ensures Inv(c, Init(c))
  {}

  lemma InvStep(c: Config, s: State, a: Action)
    requires ValidConfig(c) && Inv(c, s) && Enabled(c, s, a)
    ensures Inv(c, Step(c, s, a))
  {
    var t := Step(c, s, a);
    if a.TakeCommand? { assert 0 in a.order; }
    forall h | 0 <= h < |c.open| ensures HostInv(c, t, h) {
      assert HostInv(c, s, h);
      HostStep(c, s, a, h);
    }
  }

  lemma HostStep(c: Config, s: State, a: Action, h: nat)
    requires ValidConfig(c) && Inv(c, s) && Enabled(c, s, a) && h < |c.open|
    ensures Shape(c, Step(c, s, a)) && HostInv(c, Step(c, s, a), h)
  {
    assert HostInv(c, s, h);
    match a
    case TakeCommand(cmd, order) =>
      assert h in order;
      assert (s.taken + [cmd])[..|s.taken|] == s.taken;
    case Hand(k) => HandStep(c, s, k, h);
    case Return(k, _) =>
    case Report(k) => InChannelSnoc(h, s.results, k);
    case Print => PrintedSnoc(h, s.printed, Line(s.results[0], s.results[0] in s.failed));
  }

  lemma HandStep(c: Config, s: State, k: nat, h: nat)
    requires Inv(c, s) && Enabled(c, s, Hand(k)) && h < |c.open|
    ensures Shape(c, Step(c, s, Hand(k))) && HostInv(c, Step(c, s, Hand(k)), h)
  {
    assert HostInv(c, s, h);
    FirstOut(s.dispatcher.todo);
    LastTaken(s.taken);
  }

  lemma FirstOut(todo: seq<nat>)
    requires todo != [] && forall i, j :: 0 <= i < j < |todo| ==> todo[i] != todo[j]
    ensures forall h :: h in todo <==> h == todo[0] || h in todo[1..]
    ensures todo[0] !in todo[1..]
  {
    assert todo == [todo[0]] + todo[1..];
  }

  lemma LastTaken(taken: seq<Command>)
    requires taken != []
    ensures taken[..|taken| - 1] + [taken[|taken| - 1]] == taken == taken[..|taken|]
  {}

  lemma {:induction false} InvExec(c: Config, s: State, acts: seq<Action>)
    requires ValidConfig(c) && Inv(c, s) && Run(c, s, acts)
    ensures Inv(c, Exec(c, s, acts))
    decreases |acts|
  {
    if acts != [] {
      InvStep(c, s, acts[0]);
      InvExec(c, Step(c, s, acts[0]), acts[1..]);
    }
  }

  /** In every run each host receives a prefix of the broadcast commands, all of them or all but the last. */
  lemma DeliveredInOrder(c: Config, acts: seq<Action>, h: nat)
    requires ValidConfig(c) && Run(c, Init(c), acts) && h < |c.open|
    ensures var s := Exec(c, Init(c), acts);
            Shape(c, s) && s.delivered[h] <= s.taken && |s.taken| - 1 <= |s.delivered[h]|
  {
    InitInv(c);
    InvExec(c, Init(c), acts);
    assert HostInv(c, Exec(c, Init(c), acts), h);
  }

  /** In every run no host is more than one command ahead of another. */
  lemma HostsWithinOne(c: Config, acts: seq<Action>, h: nat, k: nat)
    requires ValidConfig(c) && Run(c, Init(c), acts) && h < |c.open| && k < |c.open|
    ensures var s := Exec(c, Init(c), acts);
            && Shape(c, s) && |s.delivered[h]| <= |s.delivered[k]| + 1
            && (|s.delivered[h]| <= |s.delivered[k]| ==> s.delivered[h] <= s.delivered[k])
  {
    DeliveredInOrder(c, acts, h);
    DeliveredInOrder(c, acts, k);
  }

  /**
   In every run the commands a host has received are those printed, those in the channel, and at most
   one in progress.
   */
  lemma ResultsConserved(c: Config, acts: seq<Action>, h: nat)
    requires ValidConfig(c) && Run(c, Init(c), acts) && h < |c.open|
    ensures var s := Exec(c, Init(c), acts);
            && Shape(c, s)
            && |s.delivered[h]| == Printed(h, s.printed) + InChannel(h, s.results) + Busy(s.workers[h])
            && |s.results| <= c.capacity
  {
    InitInv(c);
    InvExec(c, Init(c), acts);
    assert HostInv(c, Exec(c, Init(c), acts), h);
  }

  function Total(sent: seq<nat>): nat {
    if sent == [] then 0 else sent[0] + Total(sent[1..])
  }

  lemma {:induction false} TotalUpdate(sent: seq<nat>, h: nat, n: nat)
    requires h < |sent|
    ensures Total(sent[h := n]) == Total(sent) - sent[h] + n
  {
    if h == 0 {
      assert sent[h := n][1..] == sent[1..];
    } else {
      assert sent[h := n][1..] == sent[1..][h - 1 := n];
      TotalUpdate(sent[1..], h - 1, n);
    }
  }

  lemma {:induction false} TotalBound(sent: seq<nat>)
    requires forall h :: 0 <= h < |sent| ==> sent[h] <= 1
    ensures Total(sent) <= |sent|
  {
    if sent != [] { TotalBound(sent[1..]); }
  }

  /** In every run what the hosts have sent is what has been printed and what is in the channel. */
  lemma {:induction false} SentTotal(c: Config, s: State, acts: seq<Action>)
    requires Run(c, s, acts) && Shape(c, s) && Total(s.sent) == |s.results| + |s.printed|
    ensures var t := Exec(c, s, acts); Shape(c, t) && Total(t.sent) == |t.results| + |t.printed|
    decreases |acts|
  {
    if acts != [] {
      if acts[0].Report? { TotalUpdate(s.sent, acts[0].host, s.sent[acts[0].host] + 1); }
      SentTotal(c, Step(c, s, acts[0]), acts[1..]);
    }
  }

  lemma {:induction false} NothingSent(sent: seq<nat>)
    requires forall h :: 0 <= h < |sent| ==> sent[h] == 0
    ensures Total(sent) == 0
  {
    if sent != [] { NothingSent(sent[1..]); }
  }

  /**
   The channel has room for a result of every connection: in every run a worker can report the result of
   the first command at once, whether or not anything is printed.
   */
  lemma FirstResultsNeverWait(c: Config, acts: seq<Action>, h: nat)
    requires ValidConfig(c) && Run(c, Init(c), acts) && |Exec(c, Init(c), acts).taken| <= 1 && h < |c.open|
    ensures Shape(c, Exec(c, Init(c), acts))
    ensures Exec(c, Init(c), acts).workers[h] == Reporting ==> Enabled(c, Exec(c, Init(c), acts), Report(h))
  {
    var s := Exec(c, Init(c), acts);
    InitInv(c);
    InvExec(c, Init(c), acts);
    NothingSent(Init(c).sent);
    SentTotal(c, Init(c), acts);
    if s.workers[h] == Reporting {
      forall k | 0 <= k < |s.sent| ensures s.sent[k] <= 1 { assert HostInv(c, s, k); }
      assert HostInv(c, s, h);
      TotalUpdate(s.sent, h, 1);
      TotalBound(s.sent[h := 1]);
    }
  }

  /** The hosts that report, in order. */
  function Reporters(acts: seq<Action>): seq<nat> {
    if acts == [] then []
    else (if acts[0].Report? then [acts[0].host] else []) + Reporters(acts[1..])
  }

  /** The commands that are taken, in order. */
  function Commands(acts: seq<Action>): seq<Command> {
    if acts == [] then []
    else (if acts[0].TakeCommand? then [acts[0].cmd] else []) + Commands(acts[1..])
  }

  /** The hosts in the orders in which the commands taken range over them, one command after the other. */
  function Ranges(acts: seq<Action>): seq<nat> {
    if acts == [] then []
    else (if acts[0].TakeCommand? then acts[0].order else []) + Ranges(acts[1..])
  }

  /** The hosts that are handed a command, in order. */
  function Handed(acts: seq<Action>): seq<nat> {
    if acts == [] then []
    else (if acts[0].Hand? then [acts[0].host] else []) + Handed(acts[1..])
  }

  function HostsOf(lines: seq<Line>): seq<nat> {
    seq(|lines|, i requires 0 <= i < |lines| => lines[i].host)
  }

  /** The hosts the dispatcher still has to serve. */
  function ToServe(s: State): seq<nat> {
    if s.dispatcher.Handing? then s.dispatcher.todo else []
  }

  /**
   In every run the lines come out in the order of the reports, those in the channel next, and the hosts
   are served in the orders chosen, command by command; what has been broadcast is what was taken.
   */
  lemma OrderIsKept(c: Config, acts: seq<Action>)
    requires Run(c, Init(c), acts)
    ensures var s := Exec(c, Init(c), acts);
            && HostsOf(s.printed) + s.results == Reporters(acts)
            && Handed(acts) + ToServe(s) == Ranges(acts)
            && s.taken == Commands(acts)
  {
    OrderExec(c, Init(c), acts);
    var s := Exec(c, Init(c), acts);
    assert HostsOf([]) == [];
    assert HostsOf([]) + [] + Reporters(acts) == Reporters(acts);
    assert [] + Ranges(acts) == Ranges(acts) && [] + Commands(acts) == Commands(acts);
  }

  lemma {:induction false} OrderExec(c: Config, s: State, acts: seq<Action>)
    requires Run(c, s, acts)
    ensures var t := Exec(c, s, acts);
            && HostsOf(t.printed) + t.results == HostsOf(s.printed) + s.results + Reporters(acts)
            && Handed(acts) + ToServe(t) == ToServe(s) + Ranges(acts)
            && t.taken == s.taken + Commands(acts)
    decreases |acts|
  {
    if acts != [] {
      var u, one, rest := Step(c, s, acts[0]), [acts[0]], acts[1..];
      OrderExec(c, u, rest);
      OrderStep(c, s, acts[0]);
      Associate(HostsOf(s.printed) + s.results, Reporters(one), Reporters(rest));
      Associate(Handed(one), Handed(rest), ToServe(Exec(c, s, acts)));
      Associate(Handed(one), ToServe(u), Ranges(rest));
      Associate(ToServe(s), Ranges(one), Ranges(rest));
      Associate(s.taken, Commands(one), Commands(rest));
      HeadAndRest(acts);
    }
  }

  lemma OrderStep(c: Config, s: State, a: Action)
    requires Enabled(c, s, a)
    ensures var t := Step(c, s, a);
            && HostsOf(t.printed) + t.results == HostsOf(s.printed) + s.results + Reporters([a])
            && Handed([a]) + ToServe(t) == ToServe(s) + Ranges([a])
            && t.taken == s.taken + Commands([a])
  {
    HeadAndRest([a]);
  }

  lemma {:induction false} HeadAndRest(acts: seq<Action>)
    requires acts != []
    ensures Reporters(acts) == Reporters([acts[0]]) + Reporters(acts[1..])
    ensures Commands(acts) == Commands([acts[0]]) + Commands(acts[1..])
    ensures Ranges(acts) == Ranges([acts[0]]) + Ranges(acts[1..])
    ensures Handed(acts) == Handed([acts[0]]) + Handed(acts[1..])
  {
    var a := acts[0];
    assert [a][1..] == [];
    assert Reporters([a]) == if a.Report? then [a.host] else [];
    assert Commands([a]) == if a.TakeCommand? then [a.cmd] else [];
    assert Ranges([a]) == if a.TakeCommand? then a.order else [];
    assert Handed([a]) == if a.Hand? then [a.host] else [];
  }

  lemma Associate<T>(a: seq<T>, b: seq<T>, c: seq<T>)
    ensures a + b + c == a + (b + c)
  {}

  /** Nothing is going on: the dispatcher waits for a command and every result has been printed. */
  ghost predicate Quiet(s: State) {
    s.dispatcher == Idle && s.results == [] && forall p :: p in s.workers ==> p == Ready || p == Absent
  }

  /** With all sessions open some remote call, handoff, report or print can always go on, unless all is quiet. */
  lemma Progress(c: Config, s: State) returns (a: Action)
    requires ValidConfig(c) && AllOpen(c) && Inv(c, s) && !Quiet(s)
    ensures Enabled(c, s, a) && !a.TakeCommand?
  {
    if s.results != [] {
      return Print;
    }
    if h: nat :| h < |s.workers| && s.workers[h] == Calling {
      return Return(h, false);
    }
    if h: nat :| h < |s.workers| && s.workers[h] == Reporting {
      return Report(h);
    }
    assert forall h :: 0 <= h < |s.workers| ==> HostInv(c, s, h);
    var next := s.dispatcher.todo[0];
    assert HostInv(c, s, next);
    return Hand(next);
  }

  function Weight(p: Phase): nat {
    match p case Absent => 0 case Ready => 0 case Calling => 3 case Reporting => 2
  }

  function Sum(ws: seq<Phase>): nat {
    if ws == [] then 0 else Weight(ws[0]) + Sum(ws[1..])
  }

  lemma {:induction false} SumUpdate(ws: seq<Phase>, i: nat, p: Phase)
    requires i < |ws|
    ensures Sum(ws[i := p]) == Sum(ws) - Weight(ws[i]) + Weight(p)
  {
    if i == 0 {
      assert ws[i := p][1..] == ws[1..];
    } else {
      assert ws[i := p][1..] == ws[1..][i - 1 := p];
      SumUpdate(ws[1..], i - 1, p);
    }
  }

  /** The work left of the commands already taken. */
  function Measure(s: State): nat {
    (if s.dispatcher.Handing? then 4 * |s.dispatcher.todo| else 0) + Sum(s.workers) + |s.results|
  }

  lemma MeasureStep(c: Config, s: State, a: Action)
    requires Enabled(c, s, a) && !a.TakeCommand?
    ensures Measure(Step(c, s, a)) < Measure(s)
  {
    match a
    case Hand(h) =>
      SumUpdate(s.workers, h, Calling);
    case Return(h, _) => SumUpdate(s.workers, h, Reporting);
    case Report(h) => SumUpdate(s.workers, h, Ready);
    case Print =>
  }

  predicate NoNewCommand(acts: seq<Action>) {
    forall a :: a in acts ==> !a.TakeCommand?
  }

  /** Without new commands every run is bounded, so results cannot keep a round from ending. */
  lemma {:induction false} RoundBounded(c: Config, s: State, acts: seq<Action>)
    requires Run(c, s, acts) && NoNewCommand(acts)
    ensures |acts| + Measure(Exec(c, s, acts)) <= Measure(s)
    decreases |acts|
  {
    if acts != [] {
      assert acts[0] in acts;
      MeasureStep(c, s, acts[0]);
      RoundBounded(c, Step(c, s, acts[0]), acts[1..]);
    }
  }

  /** With all sessions open the commands already taken can always be carried through to the last printed result. */
  lemma {:induction false} CanFinish(c: Config, s: State) returns (acts: seq<Action>)
    requires ValidConfig(c) && AllOpen(c) && Inv(c, s)
    ensures Run(c, s, acts) && NoNewCommand(acts) && Quiet(Exec(c, s, acts))
    decreases Measure(s)
  {
    if Quiet(s) {
      acts := [];
    } else {
      var a := Progress(c, s);
      InvStep(c, s, a);
      MeasureStep(c, s, a);
      var rest := CanFinish(c, Step(c, s, a));
      acts := [a] + rest;
      assert acts[1..] == rest;
    }
  }

  /** A host without a session is never handed the first command, so the dispatcher never takes a second one. */
  lemma AbsentBlocks(c: Config, acts: seq<Action>, h: nat)
    requires ValidConfig(c) && Run(c, Init(c), acts) && h < |c.open| && !c.open[h]
    ensures var s := Exec(c, Init(c), acts);
            |s.taken| <= 1 && (s.taken != [] ==> !s.dispatcher.Idle? && h in s.dispatcher.todo)
  {
    InitInv(c);
    assert HostInv(c, Init(c), h);
    AbsentStays(c, Init(c), acts, h);
  }

  ghost predicate Blocked(s: State, h: nat) {
    if s.taken == [] then s.dispatcher.Idle?
    else |s.taken| == 1 && s.dispatcher.Handing? && h in s.dispatcher.todo
  }

  lemma {:induction false} AbsentStays(c: Config, s: State, acts: seq<Action>, h: nat)
    requires Run(c, s, acts) && Shape(c, s) && h < |c.open| && s.workers[h] == Absent && Blocked(s, h)
    ensures Blocked(Exec(c, s, acts), h)
    decreases |acts|
  {
    if acts != [] {
      var t := Step(c, s, acts[0]);
      if acts[0].TakeCommand? { assert h in acts[0].order; }
      assert Blocked(t, h) by {
        if acts[0].Hand? { assert s.dispatcher.todo == [s.dispatcher.todo[0]] + s.dispatcher.todo[1..]; }
      }
      AbsentStays(c, t, acts[1..], h);
    }
  }

  /** Nothing but a new command can go on. */
  ghost predicate Waits(c: Config, s: State) {
    forall a :: Enabled(c, s, a) ==> a.TakeCommand?
  }

  /**
   With all sessions open every round ends: however the steps are chosen, a run without new commands
   is bounded, and when it cannot go on, every result has been printed.
   */
  lemma {:induction false} RoundsEnd(c: Config, before: seq<Action>, round: seq<Action>)
    requires ValidConfig(c) && AllOpen(c) && Run(c, Init(c), before)
    requires Run(c, Exec(c, Init(c), before), round) && NoNewCommand(round)
    ensures var s := Exec(c, Init(c), before);
            var t := Exec(c, s, round);
            |round| <= Measure(s) && (Waits(c, t) <==> Quiet(t))
  {
    InitInv(c);
    InvExec(c, Init(c), before);
    var s := Exec(c, Init(c), before);
    InvExec(c, s, round);
    RoundBounded(c, s, round);
    WaitsIff(c, Exec(c, s, round));
  }

  /** With all sessions open, a state that only waits for a command is quiet, and the other way round. */
  lemma WaitsIff(c: Config, s: State)
    requires ValidConfig(c) && AllOpen(c) && Inv(c, s)
    ensures Waits(c, s) <==> Quiet(s)
  {
    if Quiet(s) {
      forall a: Action | !a.TakeCommand? ensures !Enabled(c, s, a) { QuietWaits(c, s, a); }
    } else {
      var a := Progress(c, s);
    }
  }

  lemma QuietWaits(c: Config, s: State, a: Action)
    requires Quiet(s) && !a.TakeCommand?
    ensures !Enabled(c, s, a)
  {
    assert forall h :: 0 <= h < |s.workers| ==> s.workers[h] in s.workers;
  }

  /**
   No run ever gets stuck, other than in waiting for a command with all results printed, exactly when
   every session opened.
   */
  lemma NeverStuckIff(c: Config)
    requires ValidConfig(c)
    ensures AllOpen(c) <==>
            forall acts :: Run(c, Init(c), acts) && Waits(c, Exec(c, Init(c), acts)) ==> Quiet(Exec(c, Init(c), acts))
  {
    if AllOpen(c) {
      forall acts | Run(c, Init(c), acts) && Waits(c, Exec(c, Init(c), acts)) ensures Quiet(Exec(c, Init(c), acts)) {
        InitInv(c);
        InvExec(c, Init(c), acts);
        WaitsIff(c, Exec(c, Init(c), acts));
      }
    } else {
      var acts := StuckRun(c);
      assert Run(c, Init(c), acts);
    }
  }

  /** With a session missing, the first command gets the dispatcher stuck at once if that host comes first. */
  lemma StuckRun(c: Config) returns (acts: seq<Action>)
    requires ValidConfig(c) && !AllOpen(c)
    ensures Run(c, Init(c), acts) && Waits(c, Exec(c, Init(c), acts)) && !Quiet(Exec(c, Init(c), acts))
  {
    var h: nat :| h < |c.open| && !c.open[h];
    var order := HostFirst(c, h);
    acts := [TakeCommand("", order)];
    var s := Step(c, Init(c), acts[0]);
    assert acts[1..] == [];
    assert Exec(c, s, []) == s;
  }

  lemma HostFirst(c: Config, h: nat) returns (order: seq<nat>)
    requires h < |c.open|
    ensures RangeOrder(c, order) && order != [] && order[0] == h
  {
    order := seq(|c.open|, i requires 0 <= i < |c.open| => if i == 0 then h else if i == h then 0 else i);
    forall k: nat | k < |c.open| ensures k in order {
      assert order[if k == h then 0 else if k == 0 then h else k] == k;
    }
  }

  /** Each worker fills in one result object over and over: once a host has failed, all its later lines say so. */
  lemma {:induction false} FailureSticks(c: Config, s: State, acts: seq<Action>, h: nat)
    requires Run(c, s, acts) && h in s.failed
    ensures var t := Exec(c, s, acts);
            && h in t.failed && |s.printed| <= |t.printed|
            && forall i :: |s.printed| <= i < |t.printed| && t.printed[i].host == h ==> t.printed[i].failed
    decreases |acts|
  {
    if acts != [] {
      var u := Step(c, s, acts[0]);
      FailureSticks(c, u, acts[1..], h);
      PrintedGrows(c, u, acts[1..]);
    }
  }

  lemma {:induction false} PrintedGrows(c: Config, s: State, acts: seq<Action>)
    requires Run(c, s, acts)
    ensures s.printed <= Exec(c, s, acts).printed
    decreases |acts|
  {
    if acts != [] {
      PrintedGrows(c, Step(c, s, acts[0]), acts[1..]);
    }
  }

  /** A host is marked as failed exactly when one of its calls has failed. */
  lemma FailedIff(c: Config, acts: seq<Action>, h: nat)
    requires Run(c, Init(c), acts)
    ensures h in Exec(c, Init(c), acts).failed <==> Return(h, false) in acts
  {
    FailedExec(c, Init(c), acts, h);
  }

  lemma {:induction false} FailedExec(c: Config, s: State, acts: seq<Action>, h: nat)
    requires Run(c, s, acts)
    ensures h in Exec(c, s, acts).failed <==> h in s.failed || Return(h, false) in acts
    decreases |acts|
  {
    if acts != [] {
      FailedExec(c, Step(c, s, acts[0]), acts[1..], h);
      assert acts == [acts[0]] + acts[1..];
    }
  }

  /** A host that has made two calls has failed, and of its lines only the first may say otherwise. */
  ghost predicate LaterFail(c: Config, s: State) {
    && Shape(c, s)
    && (forall h :: 0 <= h < |c.open| ==>
          s.sent[h] + (if s.workers[h] == Reporting then 1 else 0) >= 2 ==> h in s.failed)
    && (forall i :: 0 <= i < |s.printed| && Printed(s.printed[i].host, s.printed[..i]) >= 1 ==> s.printed[i].failed)
    && (forall i :: 0 <= i < |s.results| ==> s.results[i] < |c.open|)
  }

  lemma LaterFailStep(c: Config, s: State, a: Action)
    requires Inv(c, s) && LaterFail(c, s) && Enabled(c, s, a)
    ensures LaterFail(c, Step(c, s, a))
  {
    match a
    case Return(h, ok) => assert HostInv(c, s, h);
    case Print => LaterFailPrint(c, s);
    case _ =>
  }

  lemma LaterFailPrint(c: Config, s: State)
    requires Inv(c, s) && LaterFail(c, s) && Enabled(c, s, Print)
    ensures LaterFail(c, Step(c, s, Print))
  {
    var t := Step(c, s, Print);
    var n := |s.printed|;
    assert HostInv(c, s, s.results[0]);
    forall i | 0 <= i < |t.printed| && Printed(t.printed[i].host, t.printed[..i]) >= 1 ensures t.printed[i].failed {
      assert t.printed[..i] == s.printed[..i];
      if i == n { assert s.printed[..n] == s.printed; }
    }
  }

  lemma {:induction false} LaterFailExec(c: Config, s: State, acts: seq<Action>)
    requires ValidConfig(c) && Inv(c, s) && LaterFail(c, s) && Run(c, s, acts)
    ensures LaterFail(c, Exec(c, s, acts))
    decreases |acts|
  {
    if acts != [] {
      InvStep(c, s, acts[0]);
      LaterFailStep(c, s, acts[0]);
      LaterFailExec(c, Step(c, s, acts[0]), acts[1..]);
    }
  }

  /** In every run only the first line printed for a host can report a success: a session runs one command. */
  lemma OnlyFirstLineSucceeds(c: Config, acts: seq<Action>, i: nat)
    requires ValidConfig(c) && Run(c, Init(c), acts) && i < |Exec(c, Init(c), acts).printed|
    ensures var printed := Exec(c, Init(c), acts).printed;
            !printed[i].failed ==> Printed(printed[i].host, printed[..i]) == 0
  {
    InitInv(c);
    LaterFailExec(c, Init(c), acts);
  }

  /** How the calls of host `h` ended, in order. */
  function Calls(acts: seq<Action>, h: nat): seq<bool> {
    if acts == [] then []
    else (if acts[0].Return? && acts[0].host == h then [acts[0].ok] else []) + Calls(acts[1..], h)
  }

  /** How many calls of host `h` have ended. */
  function Ended(s: State, h: nat): nat
    requires h < |s.workers| && h < |s.sent|
  {
    s.sent[h] + if s.workers[h] == Reporting then 1 else 0
  }

  /** A host's calls are counted, and only its first can have succeeded. */
  lemma {:induction false} CallsCount(c: Config, s: State, acts: seq<Action>, h: nat)
    requires ValidConfig(c) && Inv(c, s) && Run(c, s, acts) && h < |c.open|
    ensures Inv(c, Exec(c, s, acts)) && Ended(Exec(c, s, acts), h) == Ended(s, h) + |Calls(acts, h)|
    ensures forall k :: 0 <= k < |Calls(acts, h)| && Calls(acts, h)[k] ==> Ended(s, h) + k == 0
    decreases |acts|
  {
    if acts != [] {
      var t := Step(c, s, acts[0]);
      InvStep(c, s, acts[0]);
      CallsCount(c, t, acts[1..], h);
      EndedStep(c, s, acts[0], h);
      var now := if acts[0].Return? && acts[0].host == h then [acts[0].ok] else [];
      assert Calls(acts, h) == now + Calls(acts[1..], h);
    }
  }

  lemma EndedStep(c: Config, s: State, a: Action, h: nat)
    requires Inv(c, s) && Enabled(c, s, a) && h < |c.open|
    ensures Ended(Step(c, s, a), h) == Ended(s, h) + if a.Return? && a.host == h then 1 else 0
    ensures a == Return(h, true) ==> Ended(s, h) == 0
  {
    assert HostInv(c, s, h);
  }

  /**
   The next line to be printed tells how its own call ended, unless that call succeeded and a later
   one of the same host has failed by then: the host's one result object is shared.
   */
  lemma LineTellsOutcomeIff(c: Config, acts: seq<Action>)
    requires ValidConfig(c) && Run(c, Init(c), acts) && Exec(c, Init(c), acts).results != []
    ensures var s := Exec(c, Init(c), acts);
            var h := s.results[0];
            var k := Printed(h, s.printed);
            && k < |Calls(acts, h)| && Enabled(c, s, Print)
            && var line := Step(c, s, Print).printed[|s.printed|];
            && line.host == h
            && (line.failed == !Calls(acts, h)[k] <==> !(Calls(acts, h)[k] && Return(h, false) in acts))
            && (Calls(acts, h)[k] ==> k == 0)
  {
    InitInv(c);
    InvExec(c, Init(c), acts);
    LaterFailExec(c, Init(c), acts);
    var s := Exec(c, Init(c), acts);
    var h := s.results[0];
    HeadCounts(c, s);
    CallsCount(c, Init(c), acts, h);
    FailedIff(c, acts, h);
    if !Calls(acts, h)[Printed(h, s.printed)] { FailedCall(acts, h, Printed(h, s.printed)); }
  }

  lemma HeadCounts(c: Config, s: State)
    requires Inv(c, s) && s.results != [] && s.results[0] < |c.open|
    ensures Printed(s.results[0], s.printed) < Ended(s, s.results[0])
  {
    assert HostInv(c, s, s.results[0]);
  }

  lemma {:induction false} FailedCall(acts: seq<Action>, h: nat, k: nat)
    requires k < |Calls(acts, h)| && !Calls(acts, h)[k]
    ensures Return(h, false) in acts
  {
    if acts[0] != Return(h, false) {
      var now := if acts[0].Return? && acts[0].host == h then [acts[0].ok] else [];
      assert Calls(acts, h) == now + Calls(acts[1..], h);
      FailedCall(acts[1..], h, k - |now|);
    }
  }

  /** A command taken, handed to the one host, and returned from. */
  function OneCall(cmd: Command, ok: bool): seq<Action> {
    [TakeCommand(cmd, [0]), Hand(0), Return(0, ok)]
  }

  /** The second command runs while the first result still waits to be printed. */
  function LosingRun(cmd: Command): seq<Action> {
    OneCall(cmd, true) + ([Report(0)] + OneCall(cmd, false))
  }

  /** A first success printed as a failure: the second call fails before the printer comes to the first result. */
  lemma SuccessPrintedAsFailure(c: Config, cmd: Command)
    requires ValidConfig(c) && c.open == [true]
    ensures var acts := LosingRun(cmd);
            && Run(c, Init(c), acts) && Calls(acts, 0) == [true, false]
            && var s := Exec(c, Init(c), acts);
            && s.results == [0] && s.printed == [] && Enabled(c, s, Print)
            && Step(c, s, Print).printed == [Line(0, true)]
  {
    var first := Called(Init(c), cmd, true);
    var reported := Step(c, first, Report(0));
    assert OneCall(cmd, false) + [] == OneCall(cmd, false);
    CallSteps(c, reported, cmd, false, []);
    RunStep(c, first, Report(0), OneCall(cmd, false));
    CallSteps(c, Init(c), cmd, true, [Report(0)] + OneCall(cmd, false));
    OneCallEnds(cmd, false, []);
    CallsCons(Report(0), OneCall(cmd, false), 0);
    OneCallEnds(cmd, true, [Report(0)] + OneCall(cmd, false));
  }

  /** The one host's state after such a call. */
  function Called(s: State, cmd: Command, ok: bool): State
    requires |s.delivered| == 1
  {
    s.(workers := [Reporting], taken := s.taken + [cmd], delivered := [s.delivered[0] + [cmd]],
       failed := if ok then s.failed else s.failed + {0})
  }

  lemma CallSteps(c: Config, s: State, cmd: Command, ok: bool, rest: seq<Action>)
    requires |c.open| == 1 && Shape(c, s) && s.workers == [Ready] && s.dispatcher.Idle? && (ok ==> s.delivered[0] == [])
    requires Run(c, Called(s, cmd, ok), rest)
    ensures Run(c, s, OneCall(cmd, ok) + rest)
    ensures Exec(c, s, OneCall(cmd, ok) + rest) == Exec(c, Called(s, cmd, ok), rest)
  {
    var taken := Step(c, s, TakeCommand(cmd, [0]));
    assert [0][1..] == [];
    var calling := s.(workers := [Calling], taken := s.taken + [cmd], delivered := [s.delivered[0] + [cmd]]);
    assert Step(c, taken, Hand(0)) == calling;
    assert Step(c, calling, Return(0, ok)) == Called(s, cmd, ok);
    RunStep(c, calling, Return(0, ok), rest);
    RunStep(c, taken, Hand(0), [Return(0, ok)] + rest);
    RunStep(c, s, TakeCommand(cmd, [0]), [Hand(0)] + ([Return(0, ok)] + rest));
    assert OneCall(cmd, ok) + rest == [TakeCommand(cmd, [0])] + ([Hand(0)] + ([Return(0, ok)] + rest));
  }

  lemma RunStep(c: Config, s: State, a: Action, rest: seq<Action>)
    requires Enabled(c, s, a) && Run(c, Step(c, s, a), rest)
    ensures Run(c, s, [a] + rest) && Exec(c, s, [a] + rest) == Exec(c, Step(c, s, a), rest)
  {
    assert ([a] + rest)[1..] == rest;
  }

  lemma OneCallEnds(cmd: Command, ok: bool, rest: seq<Action>)
    ensures Calls(OneCall(cmd, ok) + rest, 0) == [ok] + Calls(rest, 0)
  {
    CallsCons(Return(0, ok), rest, 0);
    CallsCons(Hand(0), [Return(0, ok)] + rest, 0);
    CallsCons(TakeCommand(cmd, [0]), [Hand(0)] + ([Return(0, ok)] + rest), 0);
    assert OneCall(cmd, ok) + rest == [TakeCommand(cmd, [0])] + ([Hand(0)] + ([Return(0, ok)] + rest));
  }

  lemma CallsCons(a: Action, rest: seq<Action>, h: nat)
    ensures Calls([a] + rest, h) == (if a.Return? && a.host == h then [a.ok] else []) + Calls(rest, h)
  {
    assert ([a] + rest)[1..] == rest;
  }
}
