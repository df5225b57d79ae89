# Susana conversation log — a Dafny model

Susana is a small Streamlit chat application in which the user talks to a
scripted peasant-girl persona. Its only durable state is an in-memory SQLite
table `history(id INTEGER PRIMARY KEY AUTOINCREMENT, role, content, timestamp)`.
This project models that conversation log and the turn protocol around it:

- `history.dfy` (module `History`): the table as a map from row id to
  `(role, content)` plus the AUTOINCREMENT sequence; `save_message` (`Save`),
  `load_history` (`Load`, the rows by ascending id) and the row deletion of
  `reset_memory` (`Reset`); arbitrary histories of saves and resets (`Apply`)
  against a reference listing (`Expected`).
- `persona.dfy` (module `Persona`): the demo reply generator
  `generate_ai_response`, with the random choice made an explicit index
  `pick < 6`.
- `session.dfy` (module `Session`): the part of `main` that touches the log —
  welcome synthesis on an empty read (`Render`), the chat turn (`RecordPrompt`,
  `ChatTurn`) and one whole run of the script (`Run`).

`Store` is a subset type: every row id lies between 1 and the sequence value,
which is what SQLite guarantees for an AUTOINCREMENT key. `Load` is specified
independently of how it is computed: `InIdOrder` says there is an ascending
list of ids naming exactly the rows, and the result holds each of those rows in
that order; `IdOrderIsUnique` shows this pins the result down.

The script calls no remote model; the comment at susana.py:188 only says
where one would go.

## Model

| member | source | states |
|---|---|---|
| History.Load | susana.py:114-118 | the result lists every row of the table exactly once, in ascending id order, as `(role, content)` pairs |
| History.IdsBetween | susana.py:117 | the ids it yields are strictly ascending and are exactly the table's ids in the range |
| History.IdOrderIsUnique | susana.py:117 | two listings that both satisfy "all rows, ascending id" are equal, so `ORDER BY id ASC` fixes the result |
| History.Save | susana.py:108-112 | the new row gets the id one past the sequence, above every existing id; it holds the given role and content; all other rows are unchanged and no row disappears |
| History.SaveAppends | susana.py:108-118 | after a save, the load returns the previous load with exactly the new message appended at the end |
| History.Reset | susana.py:120-125 | after the delete the load is empty, and the AUTOINCREMENT sequence keeps its value |
| History.ResetKeepsCounter | susana.py:120-125 | after a reset the next save's id exceeds every id the table held before, and the load is that single message |
| History.LoadAfterOps | susana.py:108-125 | after any mix of saves and resets the load equals the messages saved since the last reset, in save order, after the prior contents when no reset occurred |
| History.CounterGrows | susana.py:97-104 | the id sequence advances by exactly one per save and never moves on a reset, so it never decreases and no id is reused |
| History.FreshLogListsSaves | susana.py:108-118 | on a fresh table, the load after n saves is exactly the n saved messages in order |
| Persona.Reply | susana.py:185-208 | the reply is one of the six candidates, is never empty, exists for every input including the empty one; candidate 0 quotes the input at a fixed position, the others are fixed texts |
| Persona.ReplyIgnoresInputAfterFirst | susana.py:195-202 | candidates 1 to 5 are the same for every input |
| Persona.EchoIsInjective | susana.py:196 | different inputs give different quoting replies |
| Persona.FixedRepliesDistinct | susana.py:197-201 | the five fixed replies are pairwise different, and none ends the way the quoting reply ends |
| Persona.ReplyDeterminesPick | susana.py:195-208 | the six candidates are pairwise distinct: equal replies come from the same pick, and equal quoting replies from the same input |
| Session.Render | susana.py:241-246 | on an empty load exactly one assistant welcome row is written and the shown history is that single message; on a non-empty load nothing is written and the shown history is the load; the shown history always equals what the store now holds |
| Session.RenderIdempotent | susana.py:241-246 | rendering a second time with no write in between shows the same history and writes nothing |
| Session.RecordPrompt | susana.py:253-255 | the prompt is appended as a user row before any reply exists |
| Session.ChatTurn | susana.py:253-264 | a turn appends exactly two rows, the user prompt then the assistant reply chosen for it, and advances the id sequence by two |
| Session.PromptLoggedFirst | susana.py:255-264 | stopping after the first save leaves the prompt logged; the completed turn only adds the reply after it |
| Session.Run | susana.py:241-264 | a run shows the rendered history; with no prompt or an empty prompt it writes only what rendering wrote; otherwise the log is the shown history followed by the prompt and its reply |
| Session.FirstTurnOnEmptyLog | susana.py:241-264 | the first turn on an empty log leaves exactly welcome, prompt, reply, in that order |
| Session.ResetThenRender | susana.py:120-129 | after a reset, whose rerun renders again, the shown history is the single welcome message and a further render writes nothing |

## Left out

- Snapshot export and import (`serialize_db`, `deserialize_db`, susana.py:131-162): thin wrappers over SQLite's `serialize`, `iterdump` and `executescript`, whose behaviour is not visible here. The import drops the table before running the uploaded script, so a bad script can leave no table, and the export may produce a binary image the import cannot decode as text; no round trip or atomicity is claimed. An import can also replace rows and the id sequence wholesale, so the sequence claims above hold for runs without an import.
- The Streamlit interface: page configuration, injected CSS and vibration script, chat bubbles, expander, buttons, file uploader, toasts, spinner, `st.rerun` and `time.sleep` (susana.py:13-85, 127-129, 193, 206, 218-239, 248-250, 256-263). The only effect of `st.rerun` kept is that a reset is followed by a render (`ResetThenRender`).
- `st.session_state.messages = []` in `reset_memory` (susana.py:126): the key is never read elsewhere in the script.
- The connection cache and `check_same_thread=False` (susana.py:92-95): `@st.cache_resource` makes one log shared by every browser session, and nothing serialises their writes. In the program another session can insert rows or run `reset_memory` between a turn's user save (susana.py:255) and its assistant save (susana.py:264), which are 1.5 s apart (susana.py:193), so a turn's two rows need not be adjacent; and two sessions rendering an empty log together can each write a welcome row. The model has a single writer: `ChatTurn`, `Run`, `FirstTurnOnEmptyLog` and `RenderIdempotent` describe one session with no concurrent writer.
- The `timestamp` column (susana.py:102): written by default, never read.
- `SUSANA_SYSTEM_PROMPT` (susana.py:169-183): an unused constant.
- Randomness: `random.choice` becomes the parameter `pick`, any index below six.
- Roles: the `role` column is free text; the model uses the two values the script writes, `user` and `assistant`.
- History.Save: does not model the 64-bit rowid ceiling, at which SQLite refuses further AUTOINCREMENT inserts; ids are unbounded integers, since 2^63 saves are out of reach of this application.
