# builder-bot core, modelled in Dafny

builder-bot is a Streamlit assistant. It asks a chat model for a Flask
program, pulls the program out of the reply's fenced code block, writes it
to the sandbox's `app.py`, and runs it as a child process. The process's
output goes into a bounded log buffer shown in the UI. A second half of the
file publishes a project: it creates a GitHub repository and wires the
project's container into the `docker-compose.yml` of an infrastructure
repository.

This project models the sequential logic of that program and proves
properties of it:

- `wrappers.dfy`, module `Wrappers`: the `Option` datatype.
- `text.dfy`, module `Text`: Python's `in`, `str.find`, `str.split(sep)` and
  `sep.join`, on `string`. It proves the split/join round trip and that no
  piece of a split contains the separator.
- `extraction.dfy`, module `Extraction`: the fenced-code extraction of
  `generate_response`, both as written (`ExtractCode`) and as intended
  (`ExtractIntended`). Both are tied to one declarative definition of a
  block's body (`IsBodyAt`).
- `logbuffer.dfy`, module `LogBuffer`: the reader thread's append-then-evict
  step. It proves the buffer is a FIFO window of the last 100 lines.
- `sandbox.dfy`, module `Sandbox`: the session state and `run_app`,
  `stop_app`, the status probe, the log reader and the clear button, as
  transition functions. Process handles are abstract. The invariant "every
  process this session spawned that is still alive is the owned one, and the
  buffer is within bound" holds along every sequence of events.
- `compose.dfy`, module `Compose`: `update_infra_stack` on the manifest text.
  It covers the "already present" test, the service template, and the
  splice before the first `networks:`, both as written and as intended.

All line numbers refer to `app.py`. That file is an unresolved merge of two
versions. The sandbox half is lines 3-189 and the publishing half is lines
191-391.

## Model

| member | source | states |
|---|---|---|
| Text.Find | app.py:109-112 | The search behind `str.split` returns the first occurrence at or after the start index, or reports that none exists. |
| Text.ContainsIffFound | app.py:109-111 | The `in` test holds exactly when the search finds an occurrence. |
| Text.Split | app.py:110-112 | `str.split(sep)` yields at least one piece. The first piece is the text before the first separator, or all of it. There are two or more pieces exactly when the separator occurs. |
| Text.SplitJoin | app.py:361 | Joining the pieces of `content.split(sep)` with `sep` gives the content back. |
| Text.SplitPiecesFree | app.py:110-112 | No piece of a split contains the separator. |
| Text.SplitSecond | app.py:110 | `parts[1]` is the text between the first and second occurrences of the separator, or runs to the end. |
| Text.SplitAbsent | app.py:112 | Splitting a segment that holds no fence yields that segment alone, so `[0]` returns it whole. |
| Extraction.Body | app.py:110-112 | The text from an opening fence up to the next fence (or the end) is a block body: no fence starts inside it. |
| Extraction.ExtractCode | app.py:107-112 | The code taken from the reply, as written, never contains a fence. A reply without any fence yields the empty string. |
| Extraction.ExtractIntended | app.py:107-112 | The code is the body of the first "```python" block if there is one. Otherwise it is the body of the first bare "```" block. With no fence at all it is empty. |
| Extraction.FallbackIsBody | app.py:111-112 | Without "```python", the source takes exactly the text between the first and second "```" (or to the end), in agreement with the intended extractor. |
| Extraction.PythonBranchAsWritten | app.py:109-110 | In the "```python" branch the source cuts at the next fence only when that fence ends before the next "```python" marker. Otherwise it cuts at that marker. |
| Extraction.PythonBranchIsBody | app.py:109-110 | Unless the closing fence straddles a "```python" marker, the "```python" branch takes exactly the first block's body. |
| Extraction.AgreeUnlessStraddles | app.py:108-112 | The as-written and intended extractions differ only on replies whose first block's closing fence straddles another "```python" marker. |
| Extraction.StraddlesDisagree | app.py:109-110 | Whenever that closing fence straddles the next "```python" marker, the source's result runs up to that marker and differs from the first block's body, so the two extractions differ exactly on such replies. |
| Extraction.StrayAsWritten | app.py:110 | On "```pythonab````python" the source extracts "ab`", including a stray backtick. |
| Extraction.StrayIntended | app.py:110 | On the same reply the intended extraction is "ab". |
| Extraction.BodyUnique | app.py:110-112 | A block opened at a given position has at most one body. |
| LogBuffer.Append | app.py:74-79 | One reader step appends the line and drops the oldest line once there are more than 100. The buffer stays within 100 lines and holds the newest 100 of what it had plus the line. |
| LogBuffer.RecentOfRecent | app.py:78-79 | Evicting early does not change which lines are the most recent ones later. |
| LogBuffer.AppendAll | app.py:74-78 | The reader loop keeps a buffer of at most 100 lines within that bound, ends it with the last line captured, and leaves it unchanged when no line arrives. |
| LogBuffer.AppendAllIsWindow | app.py:74-79 | After any stream of appends, the buffer is exactly the last 100 lines seen, in order, oldest evicted first. |
| LogBuffer.WindowAfterClear | app.py:60 | After the reset in `run_app`, the buffer holds the last 100 lines of the new process's output. |
| Sandbox.Init | app.py:31-48 | The initial session holds only the system message. Nothing is generated, written, owned or alive, the logs are empty, and the invariant holds. |
| Sandbox.StopApp | app.py:84-93 | After `stop_app` nothing is owned and the old process is gone, whether it exited gracefully or was killed. With nothing owned, it is a no-op. Code, file and logs are unchanged. |
| Sandbox.ClearLogs | app.py:187-188 | The clear button empties the buffer and changes nothing else: chat, code, file, ownership, processes and handles are kept. |
| Sandbox.PrepareRun | app.py:54-60 | Stop, then write the generated code over the app file, then clear the logs. From a valid state this leaves no live process. |
| Sandbox.Spawn | app.py:64-71 | `Popen` yields a new handle. The handle is owned, running, and started on the current file content. |
| Sandbox.RunApp | app.py:52-82 | `run_app` overwrites the file with the generated code and empties the logs. When the spawn succeeds, exactly the new process is alive and owned. That process runs the generated code and is not the old one. The invariant is preserved. |
| Sandbox.ReadLine | app.py:74-79 | A captured line goes through the bounded append. Ownership is untouched. |
| Sandbox.ProcessExit | app.py:162 | A process that exits leaves the process table. If it was the owned one, the probe reports stopped, but the handle stays owned. |
| Sandbox.ProbeAfterExit | app.py:162 | The status probe does not clear a dead handle. It only reports it as stopped. |
| Sandbox.Generate | app.py:95-118 | The chat records the prompt and the reply. With a non-empty extraction by the source's split chain, the code is adopted and written, the logs are emptied, and on a successful spawn exactly the new process is alive and owned and runs that code; a failed spawn leaves nothing owned. With an empty extraction the state is untouched apart from the chat. |
| Sandbox.StrayReplyRestarts | app.py:110-116 | On the reply whose closing fence is glued to a second "```python" marker, the session restarts the preview on the program with the stray backtick. |
| Sandbox.NoFenceNoDisruption | app.py:108-116 | A reply without a fence leaves the generated code, the file, the owned process and the logs unchanged. |
| Sandbox.StepPreservesInv | app.py:52-93 | Every event (prompt, stop, clear, log line, exit) preserves the invariant. |
| Sandbox.RunPreservesInv | app.py:52-93 | Along any event sequence, every process the session spawned that is still alive is the owned one, and the buffer stays within 100 lines. |
| Sandbox.ReachableInv | app.py:43-93 | Every state reachable from start-up satisfies the invariant. |
| Sandbox.TwoRestarts | app.py:52-71 | After two generations with code, only the second extracted program is in the file, and only the second process is alive and owned. |
| Compose.ServiceBlock | app.py:337-356 | The service template declares the project's container line. |
| Compose.InsertionPoint | app.py:360-361 | The splice position is the first "networks:" when the manifest has one, else the end of the manifest. |
| Compose.SpliceAsWritten | app.py:360-364 | The source's splice keeps the text before the insertion point and places the block there. Without "networks:" it appends the block. |
| Compose.SpliceAsWrittenShape | app.py:360-362 | With "networks:" first at k, the written manifest is: the prefix before k, the block, a newline, then the text from k up to a second "networks:" or the end. |
| Compose.AsWrittenDropsTail | app.py:361-362 | When a second "networks:" exists, the written manifest is the intended one minus everything from that second key on. |
| Compose.SpliceIntended | app.py:360-364 | The intended splice inserts the block (plus a newline before "networks:") at the insertion point and grows the manifest by exactly that text. |
| Compose.SpliceIntendedUndo | app.py:360-364 | Removing the inserted text from the intended splice gives the manifest back unchanged. |
| Compose.JoinFixIsIntended | app.py:361-362 | Rejoining `parts[1:]` with "networks:" instead of keeping `parts[1]` gives the intended splice. |
| Compose.KeptIsRest | app.py:361-362 | `parts[0]`, then "networks:", then the rejoined rest is the whole manifest. |
| Compose.SpliceIntendedShape | app.py:360-362 | With "networks:" first at k, the intended manifest is the prefix, the block, a newline, then everything from k. |
| Compose.SpliceKeeps | app.py:360-364 | Whatever the block contains, the spliced manifest contains. |
| Compose.AddService | app.py:327-367 | Nothing is written exactly when `container_name: <name>` already occurs. An updated manifest declares the container and is the service block spliced in as the code writes it. |
| Compose.AddServiceIdempotent | app.py:357-358 | Adding the same service to the updated manifest writes nothing. |
| Compose.NamePrefixSkips | app.py:357-358 | The presence test is a substring test: a container named with the project's name as a prefix also makes the source skip. |

## Left out

- The Streamlit UI (layout, tabs, buttons, reruns, the iframe preview, lines 120-189 and 371-391). It is presentation only. The stop and clear buttons are modelled as the events `StopButton` and `ClearButton`.
- The chat-completion call (lines 99-104), `generate_project_structure` and its JSON decoding (lines 239-269). These are calls into a remote service. The model's reply is a parameter of `Sandbox.Generate`.
- The GitHub API (lines 212-233, 271-325, 332-333 and 366), repository creation and the workflow YAML template. These are network calls and f-string formatting. `Compose.AddService` takes the manifest text as input and returns the text that would be written.
- `owner_name = GITHUB_ORG_NAME.lower()` (line 225). There is no case folding on `string`, so the owner name is a parameter.
- The exception paths of `update_infra_stack` (lines 368-369). They only turn exceptions from the foreign calls into a message.
- Sandbox.Generate: covers only a chat call that returns a reply. `generate_response` has no `try` (lines 95-105): a failing call propagates after line 97 has appended the user message, so the history keeps a prompt with no reply. The model always appends both messages.
- Processes outside the session. `st.session_state` is per browser session (lines 31-48), and `alive` holds only the handles this session spawned. After a page reload `server_process` is None while an earlier child may still hold port 5000; `stop_app` then does nothing and the new `Popen` competes with it for the port. The invariant says nothing about such processes.
- Process timing. `terminate`, `wait(timeout=2)` and `kill` are modelled as the process leaving the process table at once, although `kill` is not followed by a `wait`. `poll()` becomes membership in the set of live handles.
- The reader thread's concurrency with the UI. Each captured line is one atomic `LogLine` event, and a line from an old process's thread is not distinguished from one of the current process.
- `Popen` raising. It is the `spawned = false` case of `Sandbox.RunApp`. The program writes the file and clears the logs before the failing spawn, and the exception propagates to the UI.
- Environment and configuration loading, the sandbox directory creation and the merge-conflict markers themselves.

The status probe at line 162 only reads `poll()` and never clears `server_process`. The model follows the code, so a dead owned process stays owned until the next stop or run (`Sandbox.ProbeAfterExit`). That a started program is non-empty is the caller's `if code:` at line 114, not a check inside `run_app`.

## Findings

| source | as written | input that shows it | evidently intended | confidence | as-written member | corrected member |
|---|---|---|---|---|---|---|
| app.py:110 | `bot_reply.split("```python")[1]` stops at the next "```python" marker before looking for the closing "```", so a closing fence of four or five backticks glued to a second marker (a closing "```" that starts one or two characters before the next "```python") is cut inside the fence | ``"```pythonab````python"`` gives a, b, backtick | the body up to the first closing fence: "ab" | low, not executed | Extraction.StrayAsWritten | Extraction.ExtractIntended |
| app.py:361-362 | `parts[0] + new_service + "\nnetworks:" + parts[1]` keeps only the first two split pieces | a manifest with a service-level and a top-level `networks:` loses everything from the second `networks:` on | `"networks:".join(parts[1:])`: the whole manifest kept after the block | medium, not executed | Compose.AsWrittenDropsTail | Compose.SpliceIntended |

`Sandbox.Generate` and `Compose.AddService` stay faithful to the code as written (`Sandbox.StrayReplyRestarts` shows the session adopting the program with the stray backtick). `Extraction.AgreeUnlessStraddles` and `Extraction.StraddlesDisagree` together prove that the two extractors differ exactly on such replies, and `Compose.JoinFixIsIntended` proves that the one-line repair gives the intended splice.
