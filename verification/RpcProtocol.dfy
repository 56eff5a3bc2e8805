/** The request/response protocol between the server (rpc.rs, main.rs) and the two
    workers: one client at a time under the server's mutex, a command and a response
    queue per worker, a timeout, no correlation between responses and commands, and one
    output file that both workers overwrite. A command is named by its worker and its
    position among the commands sent to that worker; the names are not on the wire. */
module RpcProtocol {
  const MQ_MAXMSG: nat := 10

  datatype Target = Proc | Fs

  /** A command as its worker will treat it: a list of a known scope, a list of an unknown
      scope, or anything else. */
  datatype Kind = ListKnown | ListUnknown | NoList

  datatype Command = Command(target: Target, index: nat, kind: Kind)

  /** A response, which is only a code on the wire, and the command it answers. */
  datatype Response = Response(answers: nat, code: int)

  /** What a worker is doing: nothing, or a command whose listing is not yet begun, is
      being written, or needs no more writing. */
  datatype Work = Resting | Taken(cmd: Command) | Writing(cmd: Command) | Written(cmd: Command)

  /** The output file: untouched, being rewritten for a list command, holding the whole
      listing of one, or left by two writers at once. */
  datatype OutFile = Untouched | Partial(cmd: Command) | Listing(cmd: Command) | Mixed

  datatype Pair = Pair(
    commands: seq<Command>, work: Work, responses: seq<Response>,
    sent: seq<Command>, received: seq<Response>, timeouts: nat)

  /** The mutex holder: none, waiting for a response, or about to read the output file. Its
      command was sent `clear` when the other worker had no listing left to write. */
  datatype Server =
    | Idle
    | Waiting(cmd: Command, clear: bool)
    | Reading(cmd: Command, response: Response, clear: bool)

  /** What a client was told: a response with the body read for it, the timeouts of the pair
      before it, and whether the command was sent clear; or that the wait timed out. */
  datatype Reply =
    | Answer(cmd: Command, response: Response, body: OutFile, timeoutsBefore: nat, clear: bool)
    | TimedOut(cmd: Command)

  datatype State = State(proc: Pair, fs: Pair, server: Server, out: OutFile, replies: seq<Reply>)

  datatype Action =
    | Send(target: Target, kind: Kind)
    | Take(target: Target) | Truncate(target: Target) | Fill(target: Target) | Respond(target: Target, code: int)
    | Receive | ReadOut | TimeOut

  function Of(s: State, t: Target): Pair { if t == Proc then s.proc else s.fs }

  function With(s: State, t: Target, p: Pair): State { if t == Proc then s.(proc := p) else s.(fs := p) }

  function Other(t: Target): Target { if t == Proc then Fs else Proc }

  /** The worker will not write to the output file before it gets another command. */
  predicate NoListingLeft(p: Pair) {
    && (forall k :: 0 <= k < |p.commands| ==> p.commands[k].kind != ListKnown)
    && !p.work.Writing? && (p.work.Taken? ==> p.work.cmd.kind != ListKnown)
  }

  const NEW_PAIR := Pair([], Resting, [], [], [], 0)

  const INITIAL := State(NEW_PAIR, NEW_PAIR, Idle, Untouched, [])

  predicate Enabled(s: State, a: Action) {
    match a
    case Send(t, _) => s.server.Idle? && |Of(s, t).commands| < MQ_MAXMSG
    case Take(t) => Of(s, t).work.Resting? && Of(s, t).commands != []
    case Truncate(t) => Of(s, t).work.Taken? && Of(s, t).work.cmd.kind == ListKnown
    case Fill(t) => Of(s, t).work.Writing?
    case Respond(t, code) =>
      && |Of(s, t).responses| < MQ_MAXMSG
      && (match Of(s, t).work
          case Taken(cmd) => cmd.kind == NoList || (cmd.kind == ListUnknown && code != 0)
          case Written(_) => code == 0
          case _ => false)
    case Receive => s.server.Waiting? && Of(s, s.server.cmd.target).responses != []
    case ReadOut => s.server.Reading?
    case TimeOut => s.server.Waiting? && Of(s, s.server.cmd.target).responses == []
  }

  /** The pair an action concerns. */
  function Subject(s: State, a: Action): Target
    requires Enabled(s, a)
  {
    match a
    case Send(t, _) => t
    case Take(t) => t
    case Truncate(t) => t
    case Fill(t) => t
    case Respond(t, _) => t
    case _ => s.server.cmd.target
  }

  predicate PairEnabled(p: Pair, a: Action) {
    match a
    case Send(_, _) => true
    case Take(_) => p.work.Resting? && p.commands != []
    case Truncate(_) => p.work.Taken?
    case Fill(_) => p.work.Writing?
    case Respond(_, _) => p.work.Taken? || p.work.Written?
    case Receive => p.responses != []
    case ReadOut => true
    case TimeOut => true
  }

  function NextCommand(p: Pair, t: Target, kind: Kind): Command { Command(t, |p.sent|, kind) }

  function PairStep(p: Pair, t: Target, a: Action): Pair
    requires PairEnabled(p, a)
  {
    match a
    case Send(_, kind) =>
      p.(commands := p.commands + [NextCommand(p, t, kind)], sent := p.sent + [NextCommand(p, t, kind)])
    case Take(_) => p.(commands := p.commands[1..], work := Taken(p.commands[0]))
    case Truncate(_) => p.(work := Writing(p.work.cmd))
    case Fill(_) => p.(work := Written(p.work.cmd))
    case Respond(_, code) => p.(work := Resting, responses := p.responses + [Response(p.work.cmd.index, code)])
    case Receive => p.(responses := p.responses[1..], received := p.received + [p.responses[0]])
    case ReadOut => p
    case TimeOut => p.(timeouts := p.timeouts + 1)
  }

  /** The action on pair `p`, while the other pair is `other`. */
  function ServerStep(server: Server, p: Pair, other: Pair, a: Action): Server
    requires PairEnabled(p, a) && (a.Receive? ==> server.Waiting?)
  {
    match a
    case Send(t, kind) => Waiting(NextCommand(p, t, kind), NoListingLeft(other))
    case Receive => Reading(server.cmd, p.responses[0], server.clear)
    case ReadOut => Idle
    case TimeOut => Idle
    case _ => server
  }

  function OutStep(out: OutFile, p: Pair, a: Action): OutFile
    requires PairEnabled(p, a)
  {
    match a
    case Truncate(_) => Partial(p.work.cmd)
    case Fill(_) => if out == Partial(p.work.cmd) then Listing(p.work.cmd) else Mixed
    case _ => out
  }

  /** The reply an action gives a client, if any: only list commands are given a body. */
  function ReplyOf(s: State, a: Action): seq<Reply>
    requires Enabled(s, a)
  {
    match a
    case ReadOut =>
      var cmd := s.server.cmd;
      var body := if cmd.kind == NoList then Untouched else s.out;
      [Answer(cmd, s.server.response, body, Of(s, cmd.target).timeouts, s.server.clear)]
    case TimeOut => [TimedOut(s.server.cmd)]
    case _ => []
  }

  function Apply(s: State, a: Action): State
    requires Enabled(s, a)
  {
    var t := Subject(s, a);
    var p := Of(s, t);
    With(s, t, PairStep(p, t, a)).(
      server := ServerStep(s.server, p, Of(s, Other(t)), a),
      out := OutStep(s.out, p, a),
      replies := s.replies + ReplyOf(s, a))
  }

  ghost predicate IsRun(states: seq<State>, actions: seq<Action>) {
    && |states| == |actions| + 1 && states[0] == INITIAL
    && forall k :: 0 <= k < |actions| ==>
         Enabled(states[k], actions[k]) && states[k + 1] == Apply(states[k], actions[k])
  }

  // ----- conservation on one queue pair

  /** The command in the worker, if any. */
  function InWork(p: Pair): seq<Command> {
    match p.work case Resting => [] case Taken(c) => [c] case Writing(c) => [c] case Written(c) => [c]
  }

  /** Responses received, responses queued, the command in the worker and the commands
      queued are, in this order, the commands sent: each exactly once. */
  ghost predicate Conserved(p: Pair) {
    var r, q, w := |p.received|, |p.responses|, |InWork(p)|;
    && r + q + w + |p.commands| == |p.sent|
    && (forall k :: 0 <= k < |p.sent| ==> p.sent[k].index == k)
    && (forall k :: 0 <= k < r ==> p.received[k].answers == k)
    && (forall k :: 0 <= k < q ==> p.responses[k].answers == r + k)
    && (p.work.Resting? || InWork(p)[0] == p.sent[r + q])
    && (forall k :: 0 <= k < |p.commands| ==> p.commands[k] == p.sent[r + q + w + k])
  }

  lemma SendConserves(p: Pair, cmd: Command)
    requires Conserved(p) && cmd.index == |p.sent|
    ensures Conserved(p.(commands := p.commands + [cmd], sent := p.sent + [cmd]))
  {
  }

  lemma ReceiveConserves(p: Pair)
    requires Conserved(p) && p.responses != []
    ensures Conserved(p.(responses := p.responses[1..], received := p.received + [p.responses[0]]))
  {
  }

  lemma TakeConserves(p: Pair)
    requires Conserved(p) && p.work.Resting? && p.commands != []
    ensures Conserved(p.(commands := p.commands[1..], work := Taken(p.commands[0])))
  {
  }

  lemma RespondConserves(p: Pair, code: int)
    requires Conserved(p) && (p.work.Taken? || p.work.Written?)
    ensures Conserved(p.(work := Resting, responses := p.responses + [Response(p.work.cmd.index, code)]))
  {
  }

  lemma PairConserves(p: Pair, t: Target, a: Action)
    requires Conserved(p) && PairEnabled(p, a)
    ensures Conserved(PairStep(p, t, a))
  {
    match a {
      case Send(_, kind) => SendConserves(p, NextCommand(p, t, kind));
      case Receive => ReceiveConserves(p);
      case Take(_) => TakeConserves(p);
      case Respond(_, code) => RespondConserves(p, code);
      case _ =>
    }
  }

  /** Only the subject's pair changes. */
  lemma OtherPairStays(s: State, a: Action, t: Target)
    requires Enabled(s, a)
    ensures PairEnabled(Of(s, Subject(s, a)), a)
    ensures Of(Apply(s, a), t) == if t == Subject(s, a) then PairStep(Of(s, t), t, a) else Of(s, t)
  {
  }

  // ----- which command a reply answers

  /** Whether the mutex holder still waits on this pair. */
  function Due(server: Server, t: Target): nat { if server.Waiting? && server.cmd.target == t then 1 else 0 }

  /** Every timeout leaves one response of its pair unread for good. The holder waits for,
      or has received for, the command sent last. */
  ghost predicate Lag(p: Pair, t: Target, server: Server) {
    && |p.sent| == |p.received| + p.timeouts + Due(server, t)
    && (server.Waiting? && server.cmd.target == t ==> server.cmd.index == |p.sent| - 1)
    && (server.Reading? && server.cmd.target == t ==>
          server.cmd.index == |p.sent| - 1 && server.response.answers == |p.received| - 1)
  }

  lemma PairLags(p: Pair, other: Pair, t: Target, server: Server, a: Action)
    requires Conserved(p) && Lag(p, t, server) && PairEnabled(p, a)
    requires a.Send? ==> server.Idle? && a.target == t
    requires a.Receive? || a.TimeOut? ==> server.Waiting? && server.cmd.target == t
    requires a.ReadOut? ==> server.Reading? && server.cmd.target == t
    ensures Lag(PairStep(p, t, a), t, ServerStep(server, p, other, a))
  {
  }

  /** Every answer given is to the command as many places back as its pair had timeouts. */
  ghost predicate RepliesLag(replies: seq<Reply>) {
    forall k :: 0 <= k < |replies| && replies[k].Answer? ==>
      replies[k].response.answers + replies[k].timeoutsBefore == replies[k].cmd.index
  }

  /** The timeouts before an answer are among those of its pair so far. */
  ghost predicate TimeoutsCounted(s: State) {
    forall k :: 0 <= k < |s.replies| && s.replies[k].Answer? ==>
      s.replies[k].timeoutsBefore <= Of(s, s.replies[k].cmd.target).timeouts
  }

  ghost predicate Inv(s: State) {
    && Conserved(s.proc) && Conserved(s.fs)
    && Lag(s.proc, Proc, s.server) && Lag(s.fs, Fs, s.server)
    && RepliesLag(s.replies) && TimeoutsCounted(s)
  }

  lemma QueuesStep(s: State, a: Action)
    requires Enabled(s, a) && Conserved(s.proc) && Conserved(s.fs)
    ensures Conserved(Apply(s, a).proc) && Conserved(Apply(s, a).fs)
  {
    var t := Subject(s, a);
    OtherPairStays(s, a, Proc);
    OtherPairStays(s, a, Fs);
    PairConserves(Of(s, t), t, a);
  }

  lemma LagStep(s: State, a: Action, t: Target)
    requires Enabled(s, a) && Conserved(Of(s, t)) && Lag(Of(s, t), t, s.server)
    ensures Lag(Of(Apply(s, a), t), t, Apply(s, a).server)
  {
    OtherPairStays(s, a, t);
    if t == Subject(s, a) { PairLags(Of(s, t), Of(s, Other(t)), t, s.server, a); }
  }

  lemma ReplyStep(s: State, a: Action)
    requires Enabled(s, a) && RepliesLag(s.replies)
    requires a.ReadOut? ==> Lag(Of(s, s.server.cmd.target), s.server.cmd.target, s.server)
    ensures RepliesLag(Apply(s, a).replies)
  {
  }

  lemma TimeoutsGrow(s: State, a: Action, t: Target)
    requires Enabled(s, a)
    ensures Of(s, t).timeouts <= Of(Apply(s, a), t).timeouts
  {
    OtherPairStays(s, a, t);
  }

  lemma TimeoutsStep(s: State, a: Action)
    requires Enabled(s, a) && TimeoutsCounted(s)
    ensures TimeoutsCounted(Apply(s, a))
  {
    TimeoutsGrow(s, a, Proc);
    TimeoutsGrow(s, a, Fs);
  }

  lemma InvStep(s: State, a: Action)
    requires Enabled(s, a) && Inv(s)
    ensures Inv(Apply(s, a))
  {
    QueuesStep(s, a);
    LagStep(s, a, Proc);
    LagStep(s, a, Fs);
    ReplyStep(s, a);
    TimeoutsStep(s, a);
  }

  lemma {:induction false} RunKeepsInv(states: seq<State>, actions: seq<Action>, k: nat)
    requires IsRun(states, actions) && k < |states|
    ensures Inv(states[k])
  {
    if k > 0 {
      RunKeepsInv(states, actions, k - 1);
      InvStep(states[k - 1], actions[k - 1]);
    }
  }

  // ----- the awaited command

  function Outstanding(p: Pair): nat { |p.commands| + |InWork(p)| + |p.responses| }

  /** What is left of a pair's commands: those that timed out, and the one waited for. */
  lemma OutstandingIs(s: State, t: Target)
    requires Conserved(Of(s, t)) && Lag(Of(s, t), t, s.server)
    ensures Outstanding(Of(s, t)) == Of(s, t).timeouts + Due(s.server, t)
  {
  }

  /** The pair holds this command and no other; a known list is answered with success. */
  ghost predicate Awaited(p: Pair, cmd: Command) {
    && Outstanding(p) == 1
    && (p.commands != [] ==> p.commands[0] == cmd) && (InWork(p) != [] ==> InWork(p)[0] == cmd)
    && (p.work.Writing? || p.work.Written? ==> cmd.kind == ListKnown)
    && (p.responses != [] ==> CodeFits(cmd, p.responses[0].code))
  }

  /** The codes a worker answers a list with. */
  predicate CodeFits(cmd: Command, code: int) {
    (cmd.kind == ListKnown ==> code == 0) && (cmd.kind == ListUnknown ==> code != 0)
  }

  /** On a pair that never timed out only the awaited command is about. */
  ghost predicate Sole(s: State) {
    match s.server
    case Idle => true
    case Waiting(cmd, _) => Of(s, cmd.target).timeouts == 0 ==> Awaited(Of(s, cmd.target), cmd)
    case Reading(cmd, response, _) =>
      Of(s, cmd.target).timeouts == 0 ==> Outstanding(Of(s, cmd.target)) == 0 && CodeFits(cmd, response.code)
  }

  lemma SendIsSole(s: State, t: Target, kind: Kind)
    requires Enabled(s, Send(t, kind)) && Conserved(Of(s, t)) && Lag(Of(s, t), t, s.server)
    ensures Sole(Apply(s, Send(t, kind)))
  {
    OutstandingIs(s, t);
  }

  predicate IsWork(a: Action) { a.Take? || a.Truncate? || a.Fill? || a.Respond? }

  lemma AwaitedStep(s: State, a: Action, cmd: Command)
    requires Enabled(s, a) && IsWork(a) && Subject(s, a) == cmd.target && Awaited(Of(s, cmd.target), cmd)
    ensures Awaited(Of(Apply(s, a), cmd.target), cmd)
  {
  }

  lemma WorkIsSole(s: State, a: Action)
    requires Enabled(s, a) && IsWork(a) && Sole(s)
    ensures Sole(Apply(s, a))
  {
    OtherPairStays(s, a, Proc);
    OtherPairStays(s, a, Fs);
    match s.server {
      case Idle =>
      case Waiting(cmd, _) =>
        if Subject(s, a) == cmd.target && Of(s, cmd.target).timeouts == 0 { AwaitedStep(s, a, cmd); }
      case Reading(cmd, response, _) =>
    }
  }

  lemma SoleStep(s: State, a: Action)
    requires Enabled(s, a) && Inv(s) && Sole(s)
    ensures Sole(Apply(s, a))
  {
    match a {
      case Send(t, kind) => SendIsSole(s, t, kind);
      case Receive =>
      case ReadOut =>
      case TimeOut =>
      case _ => WorkIsSole(s, a);
    }
  }

  lemma {:induction false} RunIsSole(states: seq<State>, actions: seq<Action>, k: nat)
    requires IsRun(states, actions) && k < |states|
    ensures Sole(states[k])
  {
    if k > 0 {
      RunKeepsInv(states, actions, k - 1);
      RunIsSole(states, actions, k - 1);
      SoleStep(states[k - 1], actions[k - 1]);
    }
  }

  // ----- what the output file holds

  predicate WritesOut(a: Action) { a.Truncate? || a.Fill? }

  /** The worker of `cmd` emptied the output file for it at `i`. */
  ghost predicate Emptied(states: seq<State>, actions: seq<Action>, i: nat, cmd: Command) {
    && i < |actions| && i < |states|
    && actions[i] == Truncate(cmd.target) && Of(states[i], cmd.target).work == Taken(cmd)
  }

  /** The output file was emptied for `cmd` at `i`, and not written to since. */
  ghost predicate EmptySince(states: seq<State>, actions: seq<Action>, i: nat, m: nat, cmd: Command) {
    && i < m <= |actions| && Emptied(states, actions, i, cmd)
    && forall j :: i < j < m ==> !WritesOut(actions[j])
  }

  /** The output file was emptied for `cmd` at `i`, filled by its worker at `f`, and not
      written to otherwise. */
  ghost predicate FilledSince(states: seq<State>, actions: seq<Action>, i: nat, f: nat, m: nat, cmd: Command) {
    && i < f < m <= |actions| && Emptied(states, actions, i, cmd) && actions[f] == Fill(cmd.target)
    && forall j :: i < j < m && j != f ==> !WritesOut(actions[j])
  }

  ghost predicate OfTarget(p: Pair, t: Target) { forall k :: 0 <= k < |p.sent| ==> p.sent[k].target == t }

  lemma {:induction false} RunIsOfTarget(states: seq<State>, actions: seq<Action>, k: nat, t: Target)
    requires IsRun(states, actions) && k < |states|
    ensures OfTarget(Of(states[k], t), t)
  {
    if k > 0 {
      RunIsOfTarget(states, actions, k - 1, t);
      OtherPairStays(states[k - 1], actions[k - 1], t);
    }
  }

  /** A worker's command is one of its own pair. */
  lemma WorkIsOfTarget(states: seq<State>, actions: seq<Action>, k: nat, t: Target)
    requires IsRun(states, actions) && k < |states|
    ensures !Of(states[k], t).work.Resting? ==> Of(states[k], t).work.cmd.target == t
  {
    RunKeepsInv(states, actions, k);
    RunIsOfTarget(states, actions, k, t);
  }

  lemma WritingStep(s: State, a: Action, t: Target, cmd: Command)
    requires Enabled(s, a) && Of(s, t).work == Writing(cmd) && a != Fill(t)
    ensures Of(Apply(s, a), t).work == Writing(cmd)
  {
    OtherPairStays(s, a, t);
  }

  lemma {:induction false} StillWriting(states: seq<State>, actions: seq<Action>, i: nat, m: nat, cmd: Command)
    requires IsRun(states, actions) && EmptySince(states, actions, i, m, cmd)
    ensures Of(states[m], cmd.target).work == Writing(cmd)
    decreases m
  {
    if m == i + 1 {
      OtherPairStays(states[i], actions[i], cmd.target);
    } else {
      StillWriting(states, actions, i, m - 1, cmd);
      assert !WritesOut(actions[m - 1]);
      WritingStep(states[m - 1], actions[m - 1], cmd.target, cmd);
    }
  }

  /** The output file is, at `m`, what the history of writing to it says of `cmd`. */
  ghost predicate OutIs(states: seq<State>, actions: seq<Action>, m: nat, cmd: Command)
    requires m < |states|
  {
    && (states[m].out == Partial(cmd) <==> exists i: nat :: EmptySince(states, actions, i, m, cmd))
    && (states[m].out == Listing(cmd) <==> exists i: nat, f: nat :: FilledSince(states, actions, i, f, m, cmd))
  }

  lemma OutStays(states: seq<State>, actions: seq<Action>, m: nat, n: nat, cmd: Command)
    requires IsRun(states, actions) && m < |actions| && n == m + 1
    requires !WritesOut(actions[m]) && OutIs(states, actions, m, cmd)
    ensures OutIs(states, actions, n, cmd)
  {
    assert states[n].out == states[m].out;
    forall i: nat ensures EmptySince(states, actions, i, n, cmd) <==> EmptySince(states, actions, i, m, cmd) {}
    forall i: nat, f: nat
      ensures FilledSince(states, actions, i, f, n, cmd) <==> FilledSince(states, actions, i, f, m, cmd)
    {
    }
  }

  lemma OutIsEmptied(states: seq<State>, actions: seq<Action>, m: nat, n: nat, cmd: Command)
    requires IsRun(states, actions) && m < |actions| && n == m + 1 && actions[m].Truncate?
    ensures OutIs(states, actions, n, cmd)
  {
    var t := actions[m].target;
    var d := Of(states[m], t).work.cmd;
    WorkIsOfTarget(states, actions, m, t);
    assert states[n].out == Partial(d);
    assert WritesOut(actions[m]);
    if d == cmd { assert EmptySince(states, actions, m, n, cmd); }
    forall i: nat | EmptySince(states, actions, i, n, cmd) ensures d == cmd {
      assert i == m;
    }
    forall i: nat, f: nat ensures !FilledSince(states, actions, i, f, n, cmd) {}
  }

  lemma OutIsFilled(states: seq<State>, actions: seq<Action>, m: nat, n: nat, cmd: Command)
    requires IsRun(states, actions) && m < |actions| && n == m + 1 && actions[m].Fill?
    requires OutIs(states, actions, m, cmd)
    ensures OutIs(states, actions, n, cmd)
  {
    var t := actions[m].target;
    var d := Of(states[m], t).work.cmd;
    WorkIsOfTarget(states, actions, m, t);
    assert WritesOut(actions[m]);
    assert states[n].out == if states[m].out == Partial(d) then Listing(d) else Mixed;
    if states[n].out == Listing(cmd) {
      var i: nat :| EmptySince(states, actions, i, m, cmd);
      assert FilledSince(states, actions, i, m, n, cmd);
    }
    forall i: nat, f: nat | FilledSince(states, actions, i, f, n, cmd) ensures states[n].out == Listing(cmd) {
      assert f == m && EmptySince(states, actions, i, m, cmd);
      StillWriting(states, actions, i, m, cmd);
    }
    forall i: nat ensures !EmptySince(states, actions, i, n, cmd) {}
  }

  lemma {:induction false} OutIsItsHistory(states: seq<State>, actions: seq<Action>, m: nat, cmd: Command)
    requires IsRun(states, actions) && m < |states|
    ensures OutIs(states, actions, m, cmd)
  {
    if m > 0 {
      OutIsItsHistory(states, actions, m - 1, cmd);
      if actions[m - 1].Truncate? {
        OutIsEmptied(states, actions, m - 1, m, cmd);
      } else if actions[m - 1].Fill? {
        OutIsFilled(states, actions, m - 1, m, cmd);
      } else {
        OutStays(states, actions, m - 1, m, cmd);
      }
    }
  }

  // ----- what the awaited command has written

  /** Neither the worker of this pair empties nor fills the output file. */
  predicate Spares(a: Action, t: Target) { a != Truncate(t) && a != Fill(t) }

  ghost predicate BeganAt(states: seq<State>, actions: seq<Action>, i: nat, m: nat, cmd: Command) {
    && i < m <= |actions| && Emptied(states, actions, i, cmd)
    && forall j :: i < j < m ==> Spares(actions[j], cmd.target)
  }

  ghost predicate EndedAt(states: seq<State>, actions: seq<Action>, i: nat, f: nat, m: nat, cmd: Command) {
    && i < f < m <= |actions| && Emptied(states, actions, i, cmd) && actions[f] == Fill(cmd.target)
    && forall j :: i < j < m && j != f ==> Spares(actions[j], cmd.target)
  }

  /** The awaited list, on a pair that never timed out, was begun when it is being written,
      and was written, once, when it is written or answered. */
  ghost predicate Traced(states: seq<State>, actions: seq<Action>, m: nat)
    requires m < |states|
  {
    var s := states[m];
    !s.server.Idle? && s.server.cmd.kind == ListKnown && Of(s, s.server.cmd.target).timeouts == 0 ==>
      var cmd, p := s.server.cmd, Of(s, s.server.cmd.target);
      && (p.work.Writing? ==> exists i: nat :: BeganAt(states, actions, i, m, cmd))
      && (p.work.Written? || p.responses != [] || s.server.Reading? ==>
            exists i: nat, f: nat :: EndedAt(states, actions, i, f, m, cmd))
  }

  lemma BeganStays(states: seq<State>, actions: seq<Action>, i: nat, m: nat, cmd: Command)
    requires m < |actions| && BeganAt(states, actions, i, m, cmd) && Spares(actions[m], cmd.target)
    ensures BeganAt(states, actions, i, m + 1, cmd)
  {
  }

  lemma EndedStays(states: seq<State>, actions: seq<Action>, i: nat, f: nat, m: nat, cmd: Command)
    requires m < |actions| && EndedAt(states, actions, i, f, m, cmd) && Spares(actions[m], cmd.target)
    ensures EndedAt(states, actions, i, f, m + 1, cmd)
  {
  }

  /** The step neither begins nor ends the listing of the awaited command. */
  lemma SparedStep(s: State, a: Action, cmd: Command)
    requires Enabled(s, a) && Sole(s) && !s.server.Idle? && s.server.cmd == cmd && Spares(a, cmd.target)
    requires cmd.kind == ListKnown && Of(s, cmd.target).timeouts == 0
    ensures var p, p' := Of(s, cmd.target), Of(Apply(s, a), cmd.target);
            && (p'.work.Writing? ==> p.work.Writing?)
            && (p'.work.Written? || p'.responses != [] || Apply(s, a).server.Reading? ==>
                  p.work.Written? || p.responses != [] || s.server.Reading?)
  {
    OtherPairStays(s, a, cmd.target);
  }

  lemma TracedSparing(states: seq<State>, actions: seq<Action>, m: nat, cmd: Command)
    requires IsRun(states, actions) && m < |actions| && Traced(states, actions, m) && Sole(states[m])
    requires !states[m].server.Idle? && states[m].server.cmd == cmd && Spares(actions[m], cmd.target)
    requires cmd.kind == ListKnown && Of(states[m], cmd.target).timeouts == 0
    requires !states[m + 1].server.Idle? && states[m + 1].server.cmd == cmd
    ensures Traced(states, actions, m + 1)
  {
    SparedStep(states[m], actions[m], cmd);
    var p := Of(states[m], cmd.target);
    if p.work.Writing? {
      var i: nat :| BeganAt(states, actions, i, m, cmd);
      BeganStays(states, actions, i, m, cmd);
    }
    if p.work.Written? || p.responses != [] || states[m].server.Reading? {
      var i: nat, f: nat :| EndedAt(states, actions, i, f, m, cmd);
      EndedStays(states, actions, i, f, m, cmd);
    }
  }

  lemma TracedWriting(states: seq<State>, actions: seq<Action>, m: nat, cmd: Command)
    requires IsRun(states, actions) && m < |actions| && Traced(states, actions, m) && Sole(states[m])
    requires !states[m].server.Idle? && states[m].server.cmd == cmd && !Spares(actions[m], cmd.target)
    requires cmd.kind == ListKnown && Of(states[m], cmd.target).timeouts == 0
    ensures Traced(states, actions, m + 1)
  {
    OtherPairStays(states[m], actions[m], cmd.target);
    if actions[m].Truncate? {
      assert BeganAt(states, actions, m, m + 1, cmd);
    } else {
      var i: nat :| BeganAt(states, actions, i, m, cmd);
      assert EndedAt(states, actions, i, m, m + 1, cmd);
    }
  }

  lemma TracedStep(states: seq<State>, actions: seq<Action>, m: nat)
    requires IsRun(states, actions) && m < |actions| && Traced(states, actions, m) && Sole(states[m])
    requires Inv(states[m])
    ensures Traced(states, actions, m + 1)
  {
    var s, a, s' := states[m], actions[m], states[m + 1];
    if a.Send? {
      OutstandingIs(s, a.target);
    } else if !s'.server.Idle? {
      var cmd := s.server.cmd;
      TimeoutsGrow(s, a, cmd.target);
      if cmd.kind == ListKnown && Of(s, cmd.target).timeouts == 0 {
        if Spares(a, cmd.target) {
          TracedSparing(states, actions, m, cmd);
        } else {
          TracedWriting(states, actions, m, cmd);
        }
      }
    }
  }

  lemma {:induction false} RunIsTraced(states: seq<State>, actions: seq<Action>, k: nat)
    requires IsRun(states, actions) && k < |states|
    ensures Traced(states, actions, k)
  {
    if k > 0 {
      RunKeepsInv(states, actions, k - 1);
      RunIsSole(states, actions, k - 1);
      RunIsTraced(states, actions, k - 1);
      TracedStep(states, actions, k - 1);
    }
  }

  // ----- results

  /** On each pair the n-th response received answers the n-th command sent; and every
      command sent is queued, in the worker, answered in the queue, or answered and read. */
  lemma NthResponseAnswersNthCommand(states: seq<State>, actions: seq<Action>, k: nat, t: Target)
    requires IsRun(states, actions) && k < |states|
    ensures Conserved(Of(states[k], t))
    ensures var p := Of(states[k], t);
            && |p.sent| == |p.commands| + |InWork(p)| + |p.responses| + |p.received|
            && forall n :: 0 <= n < |p.received| ==> p.received[n].answers == p.sent[n].index
  {
    RunKeepsInv(states, actions, k);
  }

  /** An answer is to its own command exactly when its pair had not timed out before. */
  lemma AnswersItsOwnCommand(states: seq<State>, actions: seq<Action>, k: nat, n: nat)
    requires IsRun(states, actions) && k < |states| && n < |states[k].replies| && states[k].replies[n].Answer?
    ensures var r := states[k].replies[n];
            r.response.answers == r.cmd.index - r.timeoutsBefore
            && (r.response.answers == r.cmd.index <==> r.timeoutsBefore == 0)
  {
    RunKeepsInv(states, actions, k);
  }

  /** At every moment the commands outstanding in the whole system are those that timed out,
      and at most one more. */
  lemma OutstandingAreTheTimeouts(states: seq<State>, actions: seq<Action>, k: nat)
    requires IsRun(states, actions) && k < |states|
    ensures Outstanding(states[k].proc) + Outstanding(states[k].fs) ==
            states[k].proc.timeouts + states[k].fs.timeouts + if states[k].server.Waiting? then 1 else 0
  {
    RunKeepsInv(states, actions, k);
    OutstandingIs(states[k], Proc);
    OutstandingIs(states[k], Fs);
  }

  /** Whatever timed out before, the body given to a list is the listing written for it exactly
      when its worker has emptied and filled the output file and nothing was written otherwise. */
  lemma BodyIsOwnExactly(states: seq<State>, actions: seq<Action>, k: nat)
    requires IsRun(states, actions) && k < |actions| && actions[k] == ReadOut
    requires states[k].server.cmd.kind != NoList
    ensures |states[k + 1].replies| == |states[k].replies| + 1
    ensures var cmd, r := states[k].server.cmd, states[k + 1].replies[|states[k].replies|];
            && r.Answer? && r.cmd == cmd
            && (r.body == Listing(cmd) <==> exists i: nat, f: nat :: FilledSince(states, actions, i, f, k, cmd))
  {
    OutIsItsHistory(states, actions, k, states[k].server.cmd);
  }

  /** The answer to a known list, on a pair that never timed out, is a success; its worker
      emptied the output file for it at some `i`, and the body is its own exactly when the
      other worker has neither emptied nor filled the file between `i` and the reading. */
  lemma ListIsItsOwnExactly(states: seq<State>, actions: seq<Action>, k: nat) returns (i: nat)
    requires IsRun(states, actions) && k < |actions| && actions[k] == ReadOut
    requires states[k].server.cmd.kind == ListKnown && Of(states[k], states[k].server.cmd.target).timeouts == 0
    ensures i < k && Emptied(states, actions, i, states[k].server.cmd)
    ensures |states[k + 1].replies| == |states[k].replies| + 1
    ensures var cmd, r := states[k].server.cmd, states[k + 1].replies[|states[k].replies|];
            && r.Answer? && r.cmd == cmd && r.response.answers == cmd.index && r.response.code == 0
            && (r.body == Listing(cmd) <==>
                  !exists j :: i < j < k && !Spares(actions[j], Other(cmd.target)))
  {
    var cmd := states[k].server.cmd;
    RunIsSole(states, actions, k);
    RunIsTraced(states, actions, k);
    RunKeepsInv(states, actions, k);
    var began: nat, f: nat :| EndedAt(states, actions, began, f, k, cmd);
    i := began;
    OutIsItsHistory(states, actions, k, cmd);
    OwnOrForeign(states, actions, i, f, k, cmd);
  }

  lemma OwnOrForeign(states: seq<State>, actions: seq<Action>, i: nat, f: nat, k: nat, cmd: Command)
    requires k < |states| && EndedAt(states, actions, i, f, k, cmd) && OutIs(states, actions, k, cmd)
    ensures states[k].out == Listing(cmd) <==> !exists j :: i < j < k && !Spares(actions[j], Other(cmd.target))
  {
    if !exists j :: i < j < k && !Spares(actions[j], Other(cmd.target)) {
      forall j | i < j < k && j != f ensures !WritesOut(actions[j]) {
        assert Spares(actions[j], cmd.target) && Spares(actions[j], Other(cmd.target));
      }
      assert FilledSince(states, actions, i, f, k, cmd);
    } else if states[k].out == Listing(cmd) {
      var i': nat, f': nat :| FilledSince(states, actions, i', f', k, cmd);
      SameBeginning(states, actions, i, f, i', f', k, cmd);
    }
  }

  lemma SameBeginning(states: seq<State>, actions: seq<Action>, i: nat, f: nat, i': nat, f': nat, k: nat, cmd: Command)
    requires EndedAt(states, actions, i, f, k, cmd) && FilledSince(states, actions, i', f', k, cmd)
    ensures forall j :: i < j < k ==> Spares(actions[j], Other(cmd.target))
  {
    assert !Spares(actions[i'], cmd.target) && i' != f;
    assert WritesOut(actions[i]) && i != f';
    assert i' == i;
    forall j | i < j < k ensures Spares(actions[j], Other(cmd.target)) {
      assert j == f' || !WritesOut(actions[j]);
    }
  }

  // ----- a list that is sent clear

  /** While a command sent clear is served, the other worker has no listing left to write. */
  ghost predicate StaysClear(s: State) {
    !s.server.Idle? && s.server.clear ==> NoListingLeft(Of(s, Other(s.server.cmd.target)))
  }

  lemma StaysClearStep(s: State, a: Action)
    requires Enabled(s, a) && StaysClear(s)
    ensures StaysClear(Apply(s, a))
  {
    OtherPairStays(s, a, Proc);
    OtherPairStays(s, a, Fs);
  }

  lemma {:induction false} RunStaysClear(states: seq<State>, actions: seq<Action>, k: nat)
    requires IsRun(states, actions) && k < |states|
    ensures StaysClear(states[k])
  {
    if k > 0 {
      RunStaysClear(states, actions, k - 1);
      StaysClearStep(states[k - 1], actions[k - 1]);
    }
  }

  lemma {:induction false} SentGrows(states: seq<State>, actions: seq<Action>, i: nat, j: nat, t: Target)
    requires IsRun(states, actions) && i <= j < |states|
    ensures |Of(states[i], t).sent| <= |Of(states[j], t).sent|
    decreases j
  {
    if i < j {
      SentGrows(states, actions, i, j - 1, t);
      OtherPairStays(states[j - 1], actions[j - 1], t);
    }
  }

  /** From the moment its worker took it up, the command served at `k` has been served. */
  lemma {:induction false} ServedSince(states: seq<State>, actions: seq<Action>, i: nat, j: nat, k: nat, cmd: Command)
    requires IsRun(states, actions) && i <= j <= k < |states| && i < |actions| && Emptied(states, actions, i, cmd)
    requires !states[k].server.Idle? && states[k].server.cmd == cmd
    ensures !states[j].server.Idle? && states[j].server.cmd == cmd && states[j].server.clear == states[k].server.clear
    decreases k - j
  {
    if j < k {
      ServedSince(states, actions, i, j + 1, k, cmd);
      RunKeepsInv(states, actions, i);
      SentGrows(states, actions, i, j, cmd.target);
      assert InWork(Of(states[i], cmd.target))[0] == cmd;
    }
  }

  lemma ClearIsSpared(states: seq<State>, actions: seq<Action>, i: nat, k: nat, cmd: Command)
    requires IsRun(states, actions) && i < k < |actions| && Emptied(states, actions, i, cmd)
    requires !states[k].server.Idle? && states[k].server.cmd == cmd && states[k].server.clear
    ensures forall j :: i < j < k ==> Spares(actions[j], Other(cmd.target))
  {
    forall j | i < j < k ensures Spares(actions[j], Other(cmd.target)) {
      ServedSince(states, actions, i, j, k, cmd);
      RunStaysClear(states, actions, j);
    }
  }

  /** A list answered with success has the listing written for it as its body. */
  predicate OwnBody(r: Reply) {
    r.Answer? && r.cmd.kind != NoList && r.response.code == 0 ==> r.body == Listing(r.cmd)
  }

  ghost predicate OwnBodies(s: State) {
    forall n :: 0 <= n < |s.replies| ==>
      var r := s.replies[n];
      r.Answer? && r.clear && r.timeoutsBefore == 0 ==> OwnBody(r)
  }

  lemma ClearReadIsOwn(states: seq<State>, actions: seq<Action>, k: nat)
    requires IsRun(states, actions) && k < |actions| && actions[k] == ReadOut
    requires states[k].server.clear && Of(states[k], states[k].server.cmd.target).timeouts == 0
    ensures |states[k + 1].replies| == |states[k].replies| + 1 && OwnBody(states[k + 1].replies[|states[k].replies|])
  {
    RunIsSole(states, actions, k);
    if states[k].server.cmd.kind == ListKnown {
      var i := ListIsItsOwnExactly(states, actions, k);
      ClearIsSpared(states, actions, i, k, states[k].server.cmd);
    }
  }

  lemma OtherRepliesStay(s: State, a: Action)
    requires Enabled(s, a)
    ensures var more := ReplyOf(s, a); Apply(s, a).replies == s.replies + more && |more| <= 1
    ensures !a.ReadOut? ==> forall r :: r in ReplyOf(s, a) ==> !r.Answer?
  {
  }

  lemma {:induction false} RunHasOwnBodies(states: seq<State>, actions: seq<Action>, k: nat)
    requires IsRun(states, actions) && k < |states|
    ensures OwnBodies(states[k])
  {
    if k > 0 {
      var s, a := states[k - 1], actions[k - 1];
      RunHasOwnBodies(states, actions, k - 1);
      OtherRepliesStay(s, a);
      if a == ReadOut && s.server.clear && Of(s, s.server.cmd.target).timeouts == 0 {
        ClearReadIsOwn(states, actions, k - 1);
      }
    }
  }

  /** A list answered with success returns the listing its worker wrote for it, if its own
      pair had not timed out and the other worker had no listing left to write when it was
      sent. */
  lemma ListIsItsOwnWhenClear(states: seq<State>, actions: seq<Action>, k: nat, n: nat)
    requires IsRun(states, actions) && k < |states| && n < |states[k].replies| && states[k].replies[n].Answer?
    requires states[k].replies[n].timeoutsBefore == 0 && states[k].replies[n].clear
    ensures OwnBody(states[k].replies[n])
  {
    RunHasOwnBodies(states, actions, k);
  }

  // ----- runs without a timeout

  predicate NoTimeouts(s: State) { s.proc.timeouts == 0 && s.fs.timeouts == 0 }

  /** While no pair has timed out, every command is sent clear. */
  ghost predicate SentClear(s: State) {
    NoTimeouts(s) ==>
      && (s.server.Idle? || s.server.clear)
      && forall n :: 0 <= n < |s.replies| && s.replies[n].Answer? ==> s.replies[n].clear
  }

  lemma SentClearStep(s: State, a: Action)
    requires Enabled(s, a) && Inv(s) && SentClear(s)
    ensures SentClear(Apply(s, a))
  {
    TimeoutsGrow(s, a, Proc);
    TimeoutsGrow(s, a, Fs);
    OutstandingIs(s, Proc);
    OutstandingIs(s, Fs);
  }

  lemma {:induction false} RunSendsClear(states: seq<State>, actions: seq<Action>, k: nat)
    requires IsRun(states, actions) && k < |states|
    ensures SentClear(states[k])
  {
    if k > 0 {
      RunKeepsInv(states, actions, k - 1);
      RunSendsClear(states, actions, k - 1);
      SentClearStep(states[k - 1], actions[k - 1]);
    }
  }

  /** Without a timeout at most one command is outstanding in the whole system, every answer
      is to its own command, and a list answered with success returns the listing its worker
      wrote for it. */
  lemma WithoutTimeoutsListsAreTheirOwn(states: seq<State>, actions: seq<Action>, k: nat)
    requires IsRun(states, actions) && k < |states| && NoTimeouts(states[k])
    ensures Outstanding(states[k].proc) + Outstanding(states[k].fs) <= 1
    ensures forall n :: 0 <= n < |states[k].replies| && states[k].replies[n].Answer? ==>
              var r := states[k].replies[n];
              && r.response.answers == r.cmd.index
              && (r.cmd.kind != NoList && r.response.code == 0 ==> r.body == Listing(r.cmd))
  {
    OutstandingAreTheTimeouts(states, actions, k);
    RunKeepsInv(states, actions, k);
    RunSendsClear(states, actions, k);
    forall n | 0 <= n < |states[k].replies| && states[k].replies[n].Answer?
      ensures states[k].replies[n].response.answers == states[k].replies[n].cmd.index
      ensures OwnBody(states[k].replies[n])
    {
      AnswersItsOwnCommand(states, actions, k, n);
      ListIsItsOwnWhenClear(states, actions, k, n);
    }
  }

  /** Answers given from reply `from` on, for this target, come after at least `m` timeouts. */
  ghost predicate LateFrom(s: State, from: nat, t: Target, m: nat) {
    && from <= |s.replies| && m <= Of(s, t).timeouts
    && forall n :: from <= n < |s.replies| && s.replies[n].Answer? && s.replies[n].cmd.target == t ==>
                     m <= s.replies[n].timeoutsBefore
  }

  lemma LateFromStep(s: State, a: Action, from: nat, t: Target, m: nat)
    requires Enabled(s, a) && LateFrom(s, from, t, m)
    ensures LateFrom(Apply(s, a), from, t, m)
  {
    TimeoutsGrow(s, a, t);
  }

  lemma {:induction false} StaysLate(states: seq<State>, actions: seq<Action>, j: nat, k: nat, t: Target)
    requires IsRun(states, actions) && j <= k < |states|
    ensures LateFrom(states[k], |states[j].replies|, t, Of(states[j], t).timeouts)
    decreases k
  {
    if j < k {
      StaysLate(states, actions, j, k - 1, t);
      LateFromStep(states[k - 1], actions[k - 1], |states[j].replies|, t, Of(states[j], t).timeouts);
    }
  }

  /** Once a pair has timed out, no later answer of that pair is to its own command. */
  lemma PairNeverRecovers(states: seq<State>, actions: seq<Action>, j: nat, k: nat, n: nat)
    requires IsRun(states, actions) && j <= k < |states|
    requires |states[j].replies| <= n < |states[k].replies| && states[k].replies[n].Answer?
    requires Of(states[j], states[k].replies[n].cmd.target).timeouts >= 1
    ensures states[k].replies[n].response.answers < states[k].replies[n].cmd.index
  {
    StaysLate(states, actions, j, k, states[k].replies[n].cmd.target);
    AnswersItsOwnCommand(states, actions, k, n);
  }

  // ----- what a timeout can lead to

  const LATE_ANSWER := [
    Send(Fs, NoList), TimeOut, Send(Fs, NoList), Take(Fs), Respond(Fs, 0), Receive, ReadOut]

  /** The states of the run above: the second command is given the answer to the first. */
  function Late(k: nat): State
    requires k <= 7
  {
    var c0, c1, r := Command(Fs, 0, NoList), Command(Fs, 1, NoList), Response(0, 0);
    var out := [TimedOut(c0)];
    match k
    case 0 => INITIAL
    case 1 => State(NEW_PAIR, Pair([c0], Resting, [], [c0], [], 0), Waiting(c0, true), Untouched, [])
    case 2 => State(NEW_PAIR, Pair([c0], Resting, [], [c0], [], 1), Idle, Untouched, out)
    case 3 => State(NEW_PAIR, Pair([c0, c1], Resting, [], [c0, c1], [], 1), Waiting(c1, true), Untouched, out)
    case 4 => State(NEW_PAIR, Pair([c1], Taken(c0), [], [c0, c1], [], 1), Waiting(c1, true), Untouched, out)
    case 5 => State(NEW_PAIR, Pair([c1], Resting, [r], [c0, c1], [], 1), Waiting(c1, true), Untouched, out)
    case 6 => State(NEW_PAIR, Pair([c1], Resting, [], [c0, c1], [r], 1), Reading(c1, r, true), Untouched, out)
    case _ =>
      State(NEW_PAIR, Pair([c1], Resting, [], [c0, c1], [r], 1), Idle, Untouched,
            out + [Answer(c1, r, Untouched, 1, true)])
  }

  predicate LateStep(k: nat)
    requires k < 7
  {
    Enabled(Late(k), LATE_ANSWER[k]) && Late(k + 1) == Apply(Late(k), LATE_ANSWER[k])
  }

  lemma LateStepsBefore(k: nat)
    requires k < 4
    ensures LateStep(k)
  {
  }

  lemma LateStepsAfter(k: nat)
    requires 4 <= k < 7
    ensures LateStep(k)
  {
  }

  /** After a timeout a client can be given the answer to an earlier command. */
  lemma AnswersCanBeLate() returns (states: seq<State>)
    ensures IsRun(states, LATE_ANSWER) && |states[7].replies| == 2
    ensures states[7].replies[1].Answer? && states[7].replies[1].response.answers < states[7].replies[1].cmd.index
  {
    states := seq(8, k requires 0 <= k < 8 => Late(k));
    forall k | 0 <= k < 7
      ensures Enabled(states[k], LATE_ANSWER[k]) && states[k + 1] == Apply(states[k], LATE_ANSWER[k])
    {
      if k < 4 { LateStepsBefore(k); } else { LateStepsAfter(k); }
      assert LateStep(k);
    }
  }

  const FOREIGN_BODY := [
    Send(Fs, ListKnown), TimeOut, Send(Proc, ListKnown), Take(Proc), Truncate(Proc), Fill(Proc), Respond(Proc, 0),
    Take(Fs), Truncate(Fs), Receive, ReadOut]

  /** The states of the run above: the file worker, late with its own listing, empties the
      output file between the answer of the process worker and the server's reading. */
  function Foreign(k: nat): State
    requires k <= 11
  {
    var f, p, r := Command(Fs, 0, ListKnown), Command(Proc, 0, ListKnown), Response(0, 0);
    var (late, busy) := (Pair([f], Resting, [], [f], [], 1), Pair([], Writing(f), [], [f], [], 1));
    var out := [TimedOut(f)];
    match k
    case 0 => INITIAL
    case 1 => State(NEW_PAIR, Pair([f], Resting, [], [f], [], 0), Waiting(f, true), Untouched, [])
    case 2 => State(NEW_PAIR, late, Idle, Untouched, out)
    case 3 => State(Pair([p], Resting, [], [p], [], 0), late, Waiting(p, false), Untouched, out)
    case 4 => State(Pair([], Taken(p), [], [p], [], 0), late, Waiting(p, false), Untouched, out)
    case 5 => State(Pair([], Writing(p), [], [p], [], 0), late, Waiting(p, false), Partial(p), out)
    case 6 => State(Pair([], Written(p), [], [p], [], 0), late, Waiting(p, false), Listing(p), out)
    case 7 => State(Pair([], Resting, [r], [p], [], 0), late, Waiting(p, false), Listing(p), out)
    case 8 => State(Pair([], Resting, [r], [p], [], 0), busy.(work := Taken(f)), Waiting(p, false), Listing(p), out)
    case 9 => State(Pair([], Resting, [r], [p], [], 0), busy, Waiting(p, false), Partial(f), out)
    case 10 => State(Pair([], Resting, [], [p], [r], 0), busy, Reading(p, r, false), Partial(f), out)
    case _ =>
      State(Pair([], Resting, [], [p], [r], 0), busy, Idle, Partial(f), out + [Answer(p, r, Partial(f), 0, false)])
  }

  predicate ForeignStep(k: nat)
    requires k < 11
  {
    Enabled(Foreign(k), FOREIGN_BODY[k]) && Foreign(k + 1) == Apply(Foreign(k), FOREIGN_BODY[k])
  }

  lemma ForeignStepsBefore(k: nat)
    requires k < 6
    ensures ForeignStep(k)
  {
    assert Foreign(2).fs.commands[0].kind == ListKnown;
  }

  lemma ForeignStepsAfter(k: nat)
    requires 6 <= k < 11
    ensures ForeignStep(k)
  {
  }

  /** When only the other pair has timed out, a list can be answered with success by its own
      worker and yet be given the other worker's unfinished listing: that it was sent clear
      matters. */
  lemma ListCanBeForeign() returns (states: seq<State>)
    ensures IsRun(states, FOREIGN_BODY) && |states[11].replies| == 2
    ensures var r := states[11].replies[1];
            && r.Answer? && r.timeoutsBefore == 0 && !r.clear && r.response.answers == r.cmd.index
            && r.cmd.kind == ListKnown && r.response.code == 0 && !OwnBody(r)
  {
    states := seq(12, k requires 0 <= k < 12 => Foreign(k));
    forall k | 0 <= k < 11
      ensures Enabled(states[k], FOREIGN_BODY[k]) && states[k + 1] == Apply(states[k], FOREIGN_BODY[k])
    {
      if k < 6 { ForeignStepsBefore(k); } else { ForeignStepsAfter(k); }
      assert ForeignStep(k);
    }
  }
}
