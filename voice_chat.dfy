/** The conversation state of the voice chat tab. The chatbot history is a list
    of (user message, reply) pairs, the reply None while it is pending; the
    conversation is the message list handed to the chat model, opened by one
    system message. The transcriber and the chat model are parameters; either
    may fail (None), which the handler catches. */
module VoiceChat {
  import opened Strings

  datatype Role = System | User | Assistant

  datatype Message = Message(role: Role, content: string)

  /** One chatbot entry: what the user said and the reply, if there is one yet. */
  datatype Turn = Turn(user: string, reply: Option<string>)

  datatype Chat = Chat(history: seq<Turn>, conversation: seq<Message>)

  const DefaultSystemPrompt := "You are not an AI assistant, you are whoever the user says you are. You must stay in character. Keep your responses concise since they will be spoken out loud."

  /** The messages a run of chatbot entries stands for: each entry's user
      message, followed by its reply when it has one. */
  function TurnsToMessages(turns: seq<Turn>): seq<Message>
    decreases |turns|
  {
    if turns == [] then []
    else
      var last := turns[|turns| - 1];
      TurnsToMessages(turns[..|turns| - 1]) + [Message(User, last.user)]
        + (if last.reply.Some? then [Message(Assistant, last.reply.value)] else [])
  }

  /** History and conversation agree: a system message, then exactly the
      messages of the chatbot entries in order. */
  ghost predicate InStep(c: Chat) {
    |c.conversation| >= 1 && c.conversation[0].role == System
    && c.conversation[1..] == TurnsToMessages(c.history)
  }

  /** Sending a message (process_audio_input). With no audio and blank text
      nothing changes. A recording is replaced by its transcription; if that
      fails nothing changes. Otherwise the user message is appended to both
      lists; if the chat model then fails it stays there unanswered, and if
      it answers, the reply is appended to the conversation and fills in the
      last chatbot entry. */
  function Submit(c: Chat, audioPath: Option<string>, text: string,
                  transcribe: (string, string) -> Option<string>,
                  respond: seq<Message> -> Option<string>): (r: Chat)
    ensures r == c || (|r.history| == |c.history| + 1 && r.history[..|c.history|] == c.history)
  {
    if !Truthy(audioPath) && Strip(text) == "" then c
    else
      var said := if Truthy(audioPath) then transcribe(audioPath.value, text) else Some(text);
      match said
      case None => c
      case Some(t) =>
        var conversation := c.conversation + [Message(User, t)];
        match respond(conversation)
        case None => Chat(c.history + [Turn(t, None)], conversation)
        case Some(r) => Chat(c.history + [Turn(t, Some(r))], conversation + [Message(Assistant, r)])
  }

  /** The session state the handlers read and update. */
  class ChatSession {
    var history: seq<Turn>
    var conversation: seq<Message>

    /** The chatbot starts empty and the conversation with the default system prompt. */
    constructor ()
      ensures history == [] && conversation == [Message(System, DefaultSystemPrompt)]
      ensures InStep(Chat(history, conversation))
    {
      history := [];
      conversation := [Message(System, DefaultSystemPrompt)];
    }

    method ProcessAudioInput(audioPath: Option<string>, text: string,
                             transcribe: (string, string) -> Option<string>,
                             respond: seq<Message> -> Option<string>)
      modifies this
      ensures Chat(history, conversation)
        == Submit(Chat(old(history), old(conversation)), audioPath, text, transcribe, respond)
    {
      if !Truthy(audioPath) && Strip(text) == "" {
        return;
      }
      var said := text;
      if Truthy(audioPath) {
        var transcribed := transcribe(audioPath.value, text);
        if transcribed.None? {
          return;
        }
        said := transcribed.value;
      }
      conversation := conversation + [Message(User, said)];
      history := history + [Turn(said, None)];
      var response := respond(conversation);
      if response.None? {
        return;
      }
      conversation := conversation + [Message(Assistant, response.value)];
      history := history[|history| - 1 := Turn(said, Some(response.value))];
    }
  }

  lemma TurnsToMessagesSnoc(turns: seq<Turn>, t: Turn)
    ensures TurnsToMessages(turns + [t]) == TurnsToMessages(turns) + [Message(User, t.user)]
      + (if t.reply.Some? then [Message(Assistant, t.reply.value)] else [])
  {
    assert (turns + [t])[..|turns|] == turns;
  }

  /** Sending keeps history and conversation in step and keeps the system message. */
  lemma SubmitKeepsInStep(c: Chat, audioPath: Option<string>, text: string,
                          transcribe: (string, string) -> Option<string>,
                          respond: seq<Message> -> Option<string>)
    requires InStep(c)
    ensures InStep(Submit(c, audioPath, text, transcribe, respond))
    ensures Submit(c, audioPath, text, transcribe, respond).conversation[0] == c.conversation[0]
  {
    var r := Submit(c, audioPath, text, transcribe, respond);
    if r != c {
      var t := r.history[|r.history| - 1];
      assert r.history == c.history + [t];
      TurnsToMessagesSnoc(c.history, t);
      var added := [Message(User, t.user)] + (if t.reply.Some? then [Message(Assistant, t.reply.value)] else []);
      assert r.conversation == c.conversation + added;
      assert r.conversation[1..] == c.conversation[1..] + added;
    }
  }

  /** Both lists only grow: what was there before is a prefix of what is there after. */
  lemma SubmitAppendOnly(c: Chat, audioPath: Option<string>, text: string,
                         transcribe: (string, string) -> Option<string>,
                         respond: seq<Message> -> Option<string>)
    ensures var r := Submit(c, audioPath, text, transcribe, respond);
      c.history <= r.history && c.conversation <= r.conversation
      && |r.history| <= |c.history| + 1 && |r.conversation| <= |c.conversation| + 2
  {
  }

  /** With no recording and blank text nothing changes. */
  lemma SubmitNoInput(c: Chat, audioPath: Option<string>, text: string,
                      transcribe: (string, string) -> Option<string>,
                      respond: seq<Message> -> Option<string>)
    requires !Truthy(audioPath) && forall k :: 0 <= k < |text| ==> IsSpace(text[k])
    ensures Submit(c, audioPath, text, transcribe, respond) == c
  {
    StripBlank(text);
  }

  /** When the chat model answers r to the message t, the conversation grows by
      exactly the user message and the reply, and the last chatbot entry is (t, r). */
  lemma SubmitAnswered(c: Chat, audioPath: Option<string>, text: string,
                       transcribe: (string, string) -> Option<string>,
                       respond: seq<Message> -> Option<string>, t: string, r: string)
    requires Truthy(audioPath) ==> transcribe(audioPath.value, text) == Some(t)
    requires !Truthy(audioPath) ==> Strip(text) != "" && t == text
    requires respond(c.conversation + [Message(User, t)]) == Some(r)
    ensures Submit(c, audioPath, text, transcribe, respond)
      == Chat(c.history + [Turn(t, Some(r))], c.conversation + [Message(User, t), Message(Assistant, r)])
  {
    assert c.conversation + [Message(User, t)] + [Message(Assistant, r)]
      == c.conversation + [Message(User, t), Message(Assistant, r)];
  }

  /** Clear Conversation: no chatbot entries and only the default system prompt. */
  function ClearConversation(): (r: Chat)
    ensures r.history == [] && r.conversation == [Message(System, DefaultSystemPrompt)]
    ensures InStep(r)
    ensures r == UpdateSystemPrompt(DefaultSystemPrompt)
  {
    Chat([], [Message(System, DefaultSystemPrompt)])
  }

  /** A new system prompt resets the conversation to it alone. */
  function UpdateSystemPrompt(newPrompt: string): (r: Chat)
    ensures r.history == [] && r.conversation == [Message(System, newPrompt)]
    ensures InStep(r)
  {
    Chat([], [Message(System, newPrompt)])
  }

  /** What generate_audio_response does: nothing, or speak text with the given
      reference audio and reference text. */
  datatype Reply = NoAudio | Speak(refAudio: string, refText: string, text: string)

  /** No audio without history, without a reference audio, or when the last
      entry has no reply or an empty one; otherwise the last reply is spoken. */
  function AudioResponse(history: seq<Turn>, refAudio: Option<string>, refText: string): (r: Reply)
    ensures r.NoAudio? <==> history == [] || !Truthy(refAudio) || !Truthy(history[|history| - 1].reply)
    ensures r.Speak? ==> r == Speak(refAudio.value, refText, history[|history| - 1].reply.value)
  {
    if history == [] || !Truthy(refAudio) then NoAudio
    else
      var last := history[|history| - 1];
      if !Truthy(last.reply) then NoAudio else Speak(refAudio.value, refText, last.reply.value)
  }

  /** After a reset there is nothing to speak. */
  lemma ClearedIsSilent(newPrompt: string, refAudio: Option<string>, refText: string)
    ensures AudioResponse(ClearConversation().history, refAudio, refText) == NoAudio
    ensures AudioResponse(UpdateSystemPrompt(newPrompt).history, refAudio, refText) == NoAudio
  {
  }

  /** A non-empty answer is what the following audio step speaks, given a reference audio;
      a failed answer leaves nothing to speak. */
  lemma AnswerIsSpoken(c: Chat, audioPath: Option<string>, text: string,
                       transcribe: (string, string) -> Option<string>,
                       respond: seq<Message> -> Option<string>,
                       refAudio: Option<string>, refText: string, t: string)
    requires Truthy(audioPath) ==> transcribe(audioPath.value, text) == Some(t)
    requires !Truthy(audioPath) ==> Strip(text) != "" && t == text
    ensures var after := Submit(c, audioPath, text, transcribe, respond);
      var answer := respond(c.conversation + [Message(User, t)]);
      (Truthy(answer) && Truthy(refAudio) ==> AudioResponse(after.history, refAudio, refText) == Speak(refAudio.value, refText, answer.value))
      && (answer.None? ==> AudioResponse(after.history, refAudio, refText) == NoAudio)
  {
  }
}
