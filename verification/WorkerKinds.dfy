/** How the two workers treat the kinds of commands that the request/response protocol
    tells apart: which commands answer with what, and which write the output file. */
module WorkerKinds {
  import FsWorker
  import ProcWorker
  import opened FsStore
  import opened RpcProtocol

  /** The kind of a message to the process worker, by its tokens. */
  function ProcKind(tokens: seq<string>): Kind {
    if tokens == [] || tokens[0] != "list" then NoList
    else if |tokens| == 1 || tokens[1] == "config" || tokens[1] == "tracked" then ListKnown
    else ListUnknown
  }

  /** The kind of a message to the file worker. */
  function FsKind(parts: seq<string>): Kind {
    if parts == [] || parts[0] != "list" then NoList
    else if |parts| < 2 || parts[1] == "config" || parts[1] == "events" then ListKnown
    else ListUnknown
  }

  /** The process worker answers every message once, with a code that fits its kind, and
      writes the output file for a list of a known scope only. */
  lemma ProcAnswersByKind(st: ProcWorker.WorkerState, tokens: seq<string>, now: int, t: Target, index: nat)
    returns (code: int)
    ensures var st', kind := ProcWorker.CommandStep(st, ProcWorker.ParseCommand(tokens), now), ProcKind(tokens);
            && st'.responses == st.responses + [code]
            && CodeFits(Command(t, index, kind), code)
            && (kind == ListKnown ==>
                  if |tokens| == 1 || tokens[1] == "config" then st'.out == ProcWorker.Configs(st.configs)
                  else st'.out == ProcWorker.Tracked(ProcWorker.ActiveRows(st.slots, now)))
            && (kind != ListKnown ==> st'.out == st.out)
  {
    var st' := ProcWorker.CommandStep(st, ProcWorker.ParseCommand(tokens), now);
    return st'.responses[|st.responses|];
  }

  /** The file worker likewise. */
  lemma FsAnswersByKind(
      st: FsWorker.FsState, parts: seq<string>, env: FsWorker.Inotify, t: Target, index: nat)
    returns (code: int)
    requires FsWorker.Sized(st) && |env.wds| == MAX_CONFIGS
    ensures var st', kind := FsWorker.CommandStep(st, parts, env), FsKind(parts);
            && st'.responses == st.responses + [code]
            && CodeFits(Command(t, index, kind), code)
            && (kind == ListKnown ==>
                  if |parts| < 2 || parts[1] == "config" then st'.out == FsWorker.ConfigRows(FsWorker.Configs(st'))
                  else st'.out == FsWorker.EventRows(st.log.rows))
            && (kind != ListKnown ==> st'.out == st.out)
  {
    if parts != [] && parts[0] == "list" {
      code := FsListAnswers(FsWorker.Reload(st), parts);
    } else {
      code := FsOtherAnswers(st, parts, env);
    }
  }

  lemma FsListAnswers(st: FsWorker.FsState, parts: seq<string>) returns (code: int)
    requires FsWorker.Sized(st) && |parts| >= 1 && parts[0] == "list"
    ensures var st', kind := FsWorker.ListStep(st, parts), FsKind(parts);
            && st'.responses == st.responses + [code] && FsWorker.Sized(st')
            && (kind == ListKnown <==> code == 0)
            && (kind == ListKnown ==>
                  if |parts| < 2 || parts[1] == "config" then st'.out == FsWorker.ConfigRows(FsWorker.Configs(st'))
                  else st'.out == FsWorker.EventRows(st.log.rows))
            && (kind != ListKnown ==> st'.out == st.out)
  {
    return FsWorker.ListStep(st, parts).responses[|st.responses|];
  }

  lemma FsOtherAnswers(st: FsWorker.FsState, parts: seq<string>, env: FsWorker.Inotify) returns (code: int)
    requires FsWorker.Sized(st) && |env.wds| == MAX_CONFIGS && (parts == [] || parts[0] != "list")
    ensures var st' := FsWorker.CommandStep(st, parts, env);
            st'.responses == st.responses + [code] && st'.out == st.out
  {
    return FsWorker.CommandStep(st, parts, env).responses[|st.responses|];
  }
}
