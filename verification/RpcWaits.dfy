/** Waiting for a response (rpc.rs): a wait never blocks for good, and only a list is
    answered with a body. */
module RpcWaits {
  import opened RpcProtocol

  // ----- bodies

  /** A list command is answered with what the output file holds when it is read; any other
      command with no body. */
  lemma AnswerIsReadWhenDue(s: State)
    requires Enabled(s, ReadOut)
    ensures var r := Apply(s, ReadOut).replies;
            && |r| == |s.replies| + 1 && r[..|s.replies|] == s.replies && r[|s.replies|].Answer?
            && r[|s.replies|].cmd == s.server.cmd && r[|s.replies|].response == s.server.response
            && r[|s.replies|].body == (if s.server.cmd.kind != NoList then s.out else Untouched)
            && Apply(s, ReadOut).server == Idle
  {
  }

  ghost predicate NoStrayBodies(s: State) {
    forall k :: 0 <= k < |s.replies| && s.replies[k].Answer? && s.replies[k].cmd.kind == NoList ==>
      s.replies[k].body == Untouched
  }

  lemma BodiesStep(s: State, a: Action)
    requires Enabled(s, a) && NoStrayBodies(s)
    ensures NoStrayBodies(Apply(s, a))
  {
  }

  /** No answer to a start, a stop or an unknown command has a body. */
  lemma {:induction false} OnlyListsHaveBodies(states: seq<State>, actions: seq<Action>, k: nat)
    requires IsRun(states, actions) && k < |states|
    ensures NoStrayBodies(states[k])
  {
    if k > 0 {
      OnlyListsHaveBodies(states, actions, k - 1);
      BodiesStep(states[k - 1], actions[k - 1]);
    }
  }

  // ----- progress

  /** Steps of the worker and of the server's reader until everything sent is received. */
  function StepsLeft(p: Pair): nat {
    5 * |p.commands| + |p.responses| +
    match p.work case Resting => 0 case Taken(_) => 4 case Writing(_) => 3 case Written(_) => 2
  }

  /** The action of the worker of a pair, or of the server that reads its response. */
  predicate Serves(s: State, a: Action, t: Target) {
    match a
    case Take(t') => t' == t
    case Truncate(t') => t' == t
    case Fill(t') => t' == t
    case Respond(t', _) => t' == t
    case Receive => s.server.Waiting? && s.server.cmd.target == t
    case _ => false
  }

  lemma ServesStep(s: State, a: Action, t: Target)
    requires Enabled(s, a) && s.server.Waiting? && s.server.cmd.target == t
    ensures StepsLeft(Of(Apply(s, a), t)) <= StepsLeft(Of(s, t)) - if Serves(s, a, t) then 1 else 0
  {
    OtherPairStays(s, a, t);
  }

  /** The server waits on the pair all the while from `k` to `m`. */
  ghost predicate WaitsFrom(states: seq<State>, actions: seq<Action>, k: nat, m: nat, t: Target) {
    && k <= m <= |actions| < |states|
    && forall j :: k <= j < m ==> states[j].server.Waiting? && states[j].server.cmd.target == t
  }

  function ServiceSteps(states: seq<State>, actions: seq<Action>, k: nat, m: nat, t: Target): nat
    requires k <= m <= |actions| <= |states|
    decreases m - k
  {
    if m == k then 0
    else ServiceSteps(states, actions, k, m - 1, t) + if Serves(states[m - 1], actions[m - 1], t) then 1 else 0
  }

  ghost predicate LeftSteps(states: seq<State>, actions: seq<Action>, k: nat, m: nat, t: Target) {
    && k <= m <= |actions| < |states|
    && forall j :: k <= j < m ==>
         StepsLeft(Of(states[j + 1], t)) <=
         StepsLeft(Of(states[j], t)) - if Serves(states[j], actions[j], t) then 1 else 0
  }

  lemma {:induction false} CountDown(states: seq<State>, actions: seq<Action>, k: nat, m: nat, t: Target)
    requires LeftSteps(states, actions, k, m, t)
    ensures ServiceSteps(states, actions, k, m, t) + StepsLeft(Of(states[m], t)) <= StepsLeft(Of(states[k], t))
    decreases m - k
  {
    if k < m { CountDown(states, actions, k, m - 1, t); }
  }

  /** While the server waits on a pair it can receive, or else the pair's worker can act; and
      the wait takes at most 5 such steps for each command that is outstanding on the pair. */
  lemma WaitsEnd(states: seq<State>, actions: seq<Action>, k: nat, m: nat, t: Target)
    requires IsRun(states, actions) && k < m && WaitsFrom(states, actions, k, m, t)
    ensures exists a :: Serves(states[k], a, t) && Enabled(states[k], a)
    ensures ServiceSteps(states, actions, k, m, t) <= 5 * Outstanding(Of(states[k], t))
    ensures Outstanding(Of(states[k], t)) == Of(states[k], t).timeouts + 1
  {
    RunKeepsInv(states, actions, k);
    OutstandingIs(states[k], t);
    CanBeServed(states[k], t);
    forall j | k <= j < m
      ensures StepsLeft(Of(states[j + 1], t)) <=
              StepsLeft(Of(states[j], t)) - if Serves(states[j], actions[j], t) then 1 else 0
    {
      ServesStep(states[j], actions[j], t);
    }
    CountDown(states, actions, k, m, t);
  }

  lemma CanBeServed(s: State, t: Target)
    requires s.server.Waiting? && s.server.cmd.target == t && Outstanding(Of(s, t)) > 0
    ensures exists a :: Serves(s, a, t) && Enabled(s, a)
  {
    var p := Of(s, t);
    var a :=
      if p.responses != [] then Receive
      else match p.work
        case Resting => Take(t)
        case Taken(cmd) =>
          if cmd.kind == ListKnown then Truncate(t) else Respond(t, if cmd.kind == ListUnknown then -1 else 0)
        case Writing(_) => Fill(t)
        case Written(_) => Respond(t, 0);
    assert Serves(s, a, t) && Enabled(s, a);
  }

  /** A command can be sent when no other client is served, unless 10 are queued; a wait
      times out only when no response is there. */
  lemma ServerCanAct(s: State, t: Target, kind: Kind)
    ensures Enabled(s, Send(t, kind)) <==> s.server.Idle? && |Of(s, t).commands| < 10
    ensures s.server.Waiting? ==>
              (Enabled(s, TimeOut) <==> !Enabled(s, Receive)) &&
              (Enabled(s, TimeOut) <==> Of(s, s.server.cmd.target).responses == [])
  {
  }
}
