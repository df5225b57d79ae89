/**
 One run of the application's main script, as far as the conversation log
 is concerned: render the history (writing a welcome message into an empty
 log first), then, if the user submitted a prompt, record the prompt,
 generate a reply and record the reply.
 */
module Session {
  import opened History
  import Persona

  /** The greeting written into an empty log. */
  const Welcome: string := "¡Hola! ¿Tú eres el que llegó por el camino viejo? ¡Cuidado con las ortigas!"

  /** What a run displays as history, and the store it leaves behind. */
  datatype Rendered = Rendered(shown: seq<Message>, store: Store)

  /** Welcome synthesis: an empty load writes one assistant welcome row and
      displays exactly that message; a non-empty load writes nothing. */
  function Render(s: Store): (r: Rendered)
    ensures Load(r.store) == r.shown
    ensures Load(s) == [] ==> r.shown == [Message(Assistant, Welcome)] && r.store.counter == s.counter + 1
    ensures Load(s) != [] ==> r.shown == Load(s) && r.store == s
  {
    var history := Load(s);
    if history == [] then
      var s' := Save(s, Assistant, Welcome);
      SaveAppends(s, Assistant, Welcome);
      Rendered([Message(Assistant, Welcome)], s')
    else
      Rendered(history, s)
  }

  /** Rendering again with no write in between reads back the same history
      and writes nothing: the welcome message is synthesized at most once. */
  lemma RenderIdempotent(s: Store)
    ensures Render(Render(s).store) == Render(s)
  {
  }

  /** Step (a) of a chat turn: the prompt is recorded as a user row before
      any reply is generated. */
  function RecordPrompt(s: Store, prompt: string): (s': Store)
    ensures Load(s') == Load(s) + [Message(User, prompt)]
  {
    SaveAppends(s, User, prompt);
    Save(s, User, prompt)
  }

  /** A chat turn: record the prompt, pick a reply, record the reply. */
  function ChatTurn(s: Store, prompt: string, pick: nat): (s': Store)
    requires pick < Persona.CandidateCount
    ensures Load(s') == Load(s) + [Message(User, prompt), Message(Assistant, Persona.Reply(prompt, pick))]
    ensures s'.counter == s.counter + 2
  {
    var recorded := RecordPrompt(s, prompt);
    var reply := Persona.Reply(prompt, pick);
    SaveAppends(recorded, Assistant, reply);
    AppendPair(Load(s), Message(User, prompt), Message(Assistant, reply));
    Save(recorded, Assistant, reply)
  }

  /** A turn interrupted while the reply is being generated has already
      logged the prompt, and the completed turn only adds the reply after it. */
  lemma PromptLoggedFirst(s: Store, prompt: string, pick: nat)
    requires pick < Persona.CandidateCount
    ensures Load(RecordPrompt(s, prompt)) == Load(s) + [Message(User, prompt)]
    ensures Load(ChatTurn(s, prompt, pick)) == Load(RecordPrompt(s, prompt)) + [Message(Assistant, Persona.Reply(prompt, pick))]
  {
    AppendPair(Load(s), Message(User, prompt), Message(Assistant, Persona.Reply(prompt, pick)));
  }

  /** The chat box: nothing submitted, or the submitted text. */
  datatype Input = NoInput | Submitted(text: string)

  /** The `if prompt := …` test in `main` is on the string's truth value, so
      an empty submission does not start a turn. */
  predicate StartsTurn(input: Input) {
    input.Submitted? && input.text != ""
  }

  /** One run of the main script: render the history, then take a turn if a
      non-empty prompt was submitted. `shown` is the history rendered before
      the turn; the turn's own messages are read back on the next run. */
  function Run(s: Store, input: Input, pick: nat): (r: Rendered)
    requires pick < Persona.CandidateCount
    ensures r.shown == Render(s).shown
    ensures !StartsTurn(input) ==> r.store == Render(s).store
    ensures StartsTurn(input) ==>
      Load(r.store) == r.shown + [Message(User, input.text), Message(Assistant, Persona.Reply(input.text, pick))]
  {
    var rendered := Render(s);
    if StartsTurn(input) then
      Rendered(rendered.shown, ChatTurn(rendered.store, input.text, pick))
    else
      rendered
  }

  /** The first turn on an empty log leaves the welcome, the prompt and the
      reply, in that order. */
  lemma FirstTurnOnEmptyLog(s: Store, prompt: string, pick: nat)
    requires Load(s) == []
    requires prompt != ""
    requires pick < Persona.CandidateCount
    ensures Load(Run(s, Submitted(prompt), pick).store)
         == [Message(Assistant, Welcome), Message(User, prompt), Message(Assistant, Persona.Reply(prompt, pick))]
  {
    var rendered := Render(s);
    assert rendered.shown == [Message(Assistant, Welcome)];
    assert StartsTurn(Submitted(prompt));
    var r := Run(s, Submitted(prompt), pick);
    assert Load(r.store) == rendered.shown + [Message(User, prompt), Message(Assistant, Persona.Reply(prompt, pick))];
  }

  /** After `reset_memory` (which reruns the script) the history shown is the
      single welcome message, and showing it again writes nothing more. */
  lemma ResetThenRender(s: Store)
    ensures Render(Reset(s)).shown == [Message(Assistant, Welcome)]
    ensures Render(Render(Reset(s)).store) == Render(Reset(s))
  {
    RenderIdempotent(Reset(s));
  }
}
