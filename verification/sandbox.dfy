/**
 The live-preview supervisor of the session: the generated program, the
 file it is written to, the one child process the session owns, and the
 captured log lines. Processes are abstract handles; the host's process
 table is the set of handles that have not exited, and `program` records
 which file content each handle was started on.
 */
module Sandbox {
  import opened Wrappers
  import LogBuffer
  import Extraction
  import Text

  /** A `Popen` handle; each spawn yields a new one. */
  type ProcId = nat

  datatype Role = System | User | Assistant
  datatype Message = Message(role: Role, content: string)

  datatype State = State(
    messages: seq<Message>,                 // chat history sent to the model
    generatedCode: string,                  // the current generated program
    appFile: Option<string>,                // content of the sandbox's app file; None before the first write
    owned: Option<ProcId>,                  // the process the session owns, if any
    logs: seq<string>,                      // captured output lines
    alive: set<ProcId>,                     // spawned processes that have not exited
    program: map<ProcId, Option<string>>,   // the app file content each process was started on
    nextPid: ProcId                         // the handle the next spawn yields
  )

  /**
   The supervisor invariant: every process this session spawned that is
   still alive is the owned one (so at most one of the session's own
   processes holds the preview port), handles in use were issued already,
   and the log buffer is within its bound.
   */
  ghost predicate Inv(s: State) {
    && (forall p :: p in s.alive ==> s.owned == Some(p))
    && (forall p :: p in s.alive ==> p < s.nextPid)
    && (s.owned.Some? ==> s.owned.value < s.nextPid && s.owned.value in s.program)
    && |s.logs| <= LogBuffer.MaxLines
  }

  /** The status probe: a process is owned and `poll()` has not seen it exit. */
  predicate IsRunning(s: State) {
    s.owned.Some? && s.owned.value in s.alive
  }

  /** The session as first initialised: only the system message, nothing generated, written or owned. */
  function Init(systemPrompt: string): (s: State)
    ensures Inv(s) && !IsRunning(s) && s.logs == [] && s.generatedCode == ""
    ensures s.messages == [Message(System, systemPrompt)] && s.owned == None && s.alive == {}
    ensures s.appFile == None
  {
    State([Message(System, systemPrompt)], "", None, None, [], {}, map[], 0)
  }

  /**
   Stop the owned process: terminate it, wait for it, kill it if the wait
   times out. Whether the exit was graceful or forced, the process is gone
   and nothing is owned afterwards; with nothing owned this is a no-op.
   */
  function StopApp(s: State): (r: State)
    ensures r.owned == None && !IsRunning(r)
    ensures s.owned == None ==> r == s
    ensures s.owned.Some? ==> s.owned.value !in r.alive
    ensures r.alive <= s.alive
    ensures r.messages == s.messages && r.generatedCode == s.generatedCode
    ensures r.appFile == s.appFile && r.logs == s.logs && r.nextPid == s.nextPid
    ensures Inv(s) ==> Inv(r) && r.alive == {}
  {
    match s.owned
    case None => s
    case Some(p) => s.(owned := None, alive := s.alive - {p})
  }

  /** The "clear logs" button (and the reset at start-up): the buffer is emptied, nothing else changes. */
  function ClearLogs(s: State): (r: State)
    ensures r.logs == []
    ensures r.owned == s.owned && r.alive == s.alive && r.appFile == s.appFile
    ensures r.messages == s.messages && r.generatedCode == s.generatedCode
    ensures r.program == s.program && r.nextPid == s.nextPid
    ensures IsRunning(r) <==> IsRunning(s)
    ensures Inv(s) ==> Inv(r)
  {
    s.(logs := [])
  }

  /**
   What `run_app` does before it spawns: stop the old process, overwrite the
   app file with the generated program, empty the log buffer. From a state
   satisfying the invariant this leaves no live process, so the port is free.
   */
  function PrepareRun(s: State): (r: State)
    ensures r.appFile == Some(s.generatedCode) && r.logs == [] && r.owned == None
    ensures s.owned.Some? ==> s.owned.value !in r.alive
    ensures r.generatedCode == s.generatedCode && r.messages == s.messages && r.nextPid == s.nextPid
    ensures Inv(s) ==> Inv(r) && r.alive == {}
  {
    var stopped := StopApp(s);
    var written := stopped.(appFile := Some(stopped.generatedCode));
    ClearLogs(written)
  }

  /** `Popen` succeeding: a new handle, running the file as it is now, becomes owned. */
  function Spawn(s: State): (r: State)
    ensures r.owned == Some(s.nextPid) && IsRunning(r)
    ensures s.nextPid in r.program && r.program[s.nextPid] == s.appFile
    ensures r.alive == s.alive + {s.nextPid}
    ensures r.logs == s.logs && r.appFile == s.appFile && r.generatedCode == s.generatedCode
  {
    var p := s.nextPid;
    s.(owned := Some(p), alive := s.alive + {p}, program := s.program[p := s.appFile], nextPid := p + 1)
  }

  /**
   `run_app`: stop, write, clear, spawn, own. `spawned` says whether `Popen`
   succeeded; when it raises, the exception leaves the earlier effects in
   place and nothing owned.
   */
  function RunApp(s: State, spawned: bool): (r: State)
    ensures r.appFile == Some(s.generatedCode)
    ensures r.logs == []
    ensures r.generatedCode == s.generatedCode && r.messages == s.messages
    ensures Inv(s) && s.owned.Some? ==> s.owned.value !in r.alive
    ensures spawned ==> r.owned == Some(s.nextPid) && IsRunning(r)
    ensures spawned ==> s.nextPid in r.program && r.program[s.nextPid] == Some(s.generatedCode)
    ensures !spawned ==> r.owned == None && !IsRunning(r)
    ensures Inv(s) ==> Inv(r) && r.alive == (if spawned then {s.nextPid} else {})
    ensures Inv(s) && s.owned.Some? && spawned ==> r.owned.value != s.owned.value
  {
    var ready := PrepareRun(s);
    if spawned then Spawn(ready) else ready
  }

  /** The reader thread appending one captured line to the bounded buffer. */
  function ReadLine(s: State, line: string): (r: State)
    ensures r.logs == LogBuffer.Append(s.logs, line)
    ensures r.owned == s.owned && r.alive == s.alive
    ensures Inv(s) ==> Inv(r)
  {
    s.(logs := LogBuffer.Append(s.logs, line))
  }

  /** A process exiting on its own (a crash, say): it leaves the process table, the session still holds its handle. */
  function ProcessExit(s: State, p: ProcId): (r: State)
    ensures p !in r.alive && r.owned == s.owned
    ensures s.owned == Some(p) ==> !IsRunning(r)
    ensures Inv(s) ==> Inv(r)
  {
    s.(alive := s.alive - {p})
  }

  /**
   `generate_response` once the model has replied: record the exchange,
   extract the program with the source's split chain, and when a non-empty
   one was found make it the generated code and restart the preview with it.
   */
  function Generate(s: State, prompt: string, reply: string, spawned: bool): (r: State)
    ensures r.messages == s.messages + [Message(User, prompt), Message(Assistant, reply)]
    ensures Extraction.ExtractCode(reply) == "" ==>
              r == s.(messages := r.messages)
    ensures Extraction.ExtractCode(reply) != "" ==>
              && r.generatedCode == Extraction.ExtractCode(reply)
              && r.appFile == Some(Extraction.ExtractCode(reply))
              && r.logs == []
    ensures Extraction.ExtractCode(reply) != "" && spawned ==>
              && r.owned == Some(s.nextPid) && IsRunning(r)
              && s.nextPid in r.program && r.program[s.nextPid] == Some(Extraction.ExtractCode(reply))
    ensures Extraction.ExtractCode(reply) != "" && !spawned ==> r.owned == None && !IsRunning(r)
    ensures Extraction.ExtractCode(reply) != "" && Inv(s) ==>
              r.alive == (if spawned then {s.nextPid} else {})
    ensures Inv(s) ==> Inv(r)
  {
    var chatted := s.(messages := s.messages + [Message(User, prompt), Message(Assistant, reply)]);
    var code := Extraction.ExtractCode(reply);
    if code != "" then RunApp(chatted.(generatedCode := code), spawned) else chatted
  }

  /** A reply without any fence changes nothing but the chat history: the running preview is left alone. */
  lemma NoFenceNoDisruption(s: State, prompt: string, reply: string, spawned: bool)
    requires !Text.Contains(reply, Extraction.Fence)
    ensures var r := Generate(s, prompt, reply, spawned);
            && r.generatedCode == s.generatedCode && r.appFile == s.appFile
            && r.owned == s.owned && r.alive == s.alive && r.logs == s.logs
            && (IsRunning(r) <==> IsRunning(s))
  {
  }

  /** The user actions and host events the session reacts to. */
  datatype Event =
    | Prompt(prompt: string, reply: string, spawned: bool)   // a chat message and the model's reply
    | StopButton
    | ClearButton
    | LogLine(line: string)                                   // the reader thread captured a line
    | Exited(pid: ProcId)                                     // a process exited on its own

  function Step(s: State, e: Event): State {
    match e
    case Prompt(prompt, reply, spawned) => Generate(s, prompt, reply, spawned)
    case StopButton => StopApp(s)
    case ClearButton => ClearLogs(s)
    case LogLine(line) => ReadLine(s, line)
    case Exited(pid) => ProcessExit(s, pid)
  }

  function Run(s: State, events: seq<Event>): State
    decreases |events|
  {
    if |events| == 0 then s else Run(Step(s, events[0]), events[1..])
  }

  lemma StepPreservesInv(s: State, e: Event)
    requires Inv(s)
    ensures Inv(Step(s, e))
  {
  }

  /**
   Along any sequence of user actions and host events, every process this
   session spawned that is still alive is the owned one, and the log buffer
   stays within bound.
   */
  lemma {:induction false} RunPreservesInv(s: State, events: seq<Event>)
    requires Inv(s)
    ensures Inv(Run(s, events))
    ensures |Run(s, events).logs| <= LogBuffer.MaxLines
    ensures forall p :: p in Run(s, events).alive ==> Run(s, events).owned == Some(p)
    decreases |events|
  {
    if |events| > 0 {
      StepPreservesInv(s, events[0]);
      RunPreservesInv(Step(s, events[0]), events[1..]);
    }
  }

  /** Every state the session reaches from its start satisfies the invariant. */
  lemma ReachableInv(systemPrompt: string, events: seq<Event>)
    ensures Inv(Run(Init(systemPrompt), events))
  {
    RunPreservesInv(Init(systemPrompt), events);
  }

  /**
   Two generations in a row, each with a program: only the second program
   is in the app file, and only the second process is alive and owned.
   */
  lemma TwoRestarts(s: State, p1: string, r1: string, p2: string, r2: string)
    requires Inv(s)
    requires Extraction.ExtractCode(r1) != "" && Extraction.ExtractCode(r2) != ""
    ensures var first := Generate(s, p1, r1, true);
            var second := Generate(first, p2, r2, true);
            && second.appFile == Some(Extraction.ExtractCode(r2))
            && second.owned == Some(first.nextPid)
            && second.alive == {first.nextPid}
            && first.owned.value !in second.alive
  {
  }

  /**
   On the reply whose closing fence is glued to a second "```python" marker,
   the session adopts and restarts the preview on the program with the stray
   backtick.
   */
  lemma StrayReplyRestarts(s: State, prompt: string, reply: string)
    requires reply == Extraction.StrayReply
    ensures var r := Generate(s, prompt, reply, true);
            r.appFile == Some("ab`") && r.owned == Some(s.nextPid) && IsRunning(r)
  {
    Extraction.StrayAsWritten(reply);
  }

  /** The status probe does not clear a handle whose process has exited: it only reports it as stopped. */
  lemma ProbeAfterExit(s: State)
    requires IsRunning(s)
    ensures var r := ProcessExit(s, s.owned.value);
            !IsRunning(r) && r.owned == s.owned
  {
  }
}
