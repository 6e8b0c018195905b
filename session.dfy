/** The decisions `on_message` and the slash commands take before and after a
    completion: whether a message triggers the bot, which session mode it
    opens, which persona prompt the conversation starts with, what the
    `chat-method` command stores, which later messages continue a session,
    and what one completion round sends. Discord itself (threads, replies,
    waiting for messages) is not part of this model. */
module Session {
  import opened Values
  import opened Text
  import opened Conversation
  import opened Settings
  import opened Directive

  // ---------------------------------------------------------------------
  // Triggering (`on_message`, the `triggering` configuration)
  // ---------------------------------------------------------------------

  /** The text the triggers are matched against. `ignore_modifiers` strips
      the formatting symbols; `ignore_case` then overwrites that with the
      lower-cased RAW content. With neither flag set the variable is never
      bound. */
  function TriggerText(content: string, ignoreModifiers: bool, ignoreCase: bool): (r: Option<string>)
    ensures r.None? <==> !ignoreModifiers && !ignoreCase
    ensures ignoreCase ==> r == Some(Lower(content))
    ensures ignoreModifiers && !ignoreCase ==> r == Some(Without(content, Formatting))
  {
    if ignoreCase then Some(Lower(content))
    else if ignoreModifiers then Some(Without(content, Formatting))
    else None
  }

  function LowerAll(triggers: seq<string>): (r: seq<string>)
    ensures |r| == |triggers|
    ensures forall i :: 0 <= i < |r| ==> r[i] == Lower(triggers[i])
  {
    seq(|triggers|, i requires 0 <= i < |triggers| => Lower(triggers[i]))
  }

  /** Some trigger is a prefix of `text`. */
  predicate AnyPrefix(text: string, triggers: seq<string>) {
    exists i :: 0 <= i < |triggers| && StartsWith(text, triggers[i])
  }

  /** Whether the text starts with some trigger and the author is not a
      bot. The scan over the triggers is lazy, so an unbound text only
      raises `NameError` once there is a first trigger to compare, and it
      raises before the author is looked at. */
  function Triggered(content: string, triggers: seq<string>, ignoreModifiers: bool, ignoreCase: bool, isBot: bool)
    : (r: Result<bool, PyError>)
    ensures r.Failure? <==> !ignoreModifiers && !ignoreCase && triggers != []
    ensures r.Failure? ==> r.error == NameError("trigger_message_content")
    ensures r == Success(true) ==> !isBot && triggers != []
    ensures r.Success? ==>
      (r.value <==>
        && TriggerText(content, ignoreModifiers, ignoreCase).Some?
        && AnyPrefix(TriggerText(content, ignoreModifiers, ignoreCase).value,
                     if ignoreCase then LowerAll(triggers) else triggers)
        && !isBot)
  {
    var ts := if ignoreCase then LowerAll(triggers) else triggers;
    match TriggerText(content, ignoreModifiers, ignoreCase)
    case None =>
      if ts == [] then Success(false) else Failure(NameError("trigger_message_content"))
    case Some(text) => Success(AnyPrefix(text, ts) && !isBot)
  }

  /** With `ignore_case`, `ignore_modifiers` makes no difference: the
      lower-cased raw content is tested against the lower-cased triggers. */
  lemma IgnoreCaseDiscardsStripping(content: string, triggers: seq<string>, ignoreModifiers: bool, isBot: bool)
    ensures Triggered(content, triggers, ignoreModifiers, true, isBot)
         == Triggered(content, triggers, false, true, isBot)
    ensures Triggered(content, triggers, ignoreModifiers, true, isBot)
         == Success(AnyPrefix(Lower(content), LowerAll(triggers)) && !isBot)
  {
  }

  /** With only `ignore_modifiers`, a message triggers exactly when its
      content stripped of formatting starts with one of the triggers as
      configured, and its author is not a bot. */
  lemma ModifiersOnlyTrigger(content: string, triggers: seq<string>, isBot: bool)
    ensures Triggered(content, triggers, true, false, isBot)
         == Success(AnyPrefix(Without(content, Formatting), triggers) && !isBot)
  {
  }

  /** An italic trigger: `*hey` triggers `hey` when only modifiers are
      ignored, but not once case is ignored too, because the formatting
      comes back with the raw content. */
  lemma FormattedTriggerExample()
    ensures Triggered("*hey", ["hey"], true, false, false) == Success(true)
    ensures Triggered("*hey", ["hey"], true, true, false) == Success(false)
  {
    assert Without("*hey", Formatting) == "hey" by {
      assert "*hey"[1..] == "hey" && "hey"[1..] == "ey" && "ey"[1..] == "y" && "y"[1..] == "";
    }
    assert StartsWith("hey", "hey");
    var lowered := Lower("*hey");
    assert lowered[0] == '*';
    assert LowerAll(["hey"])[0] == "hey" by {
      assert Lower("hey") == "hey";
    }
    assert !StartsWith(lowered, "hey") by {
      assert lowered[..3][0] == '*';
    }
  }

  // ---------------------------------------------------------------------
  // Session mode (`interaction_method`)
  // ---------------------------------------------------------------------

  const InteractionMethod: string := "interaction_method"

  /** What `on_message` does with a triggering message. */
  datatype Mode = ThreadMode | ReplyMode | Ignored

  /** A stored `THREAD` outside a direct message opens a thread; a stored
      `REPLY`, or any direct message, answers by reply; any other value
      outside a direct message does nothing. */
  function ModeFor(stored: Value, inDirectMessage: bool): (r: Mode)
    ensures r == ThreadMode <==> stored == Str("THREAD") && !inDirectMessage
    ensures inDirectMessage ==> r == ReplyMode
    ensures r == Ignored <==> !inDirectMessage && stored != Str("THREAD") && stored != Str("REPLY")
  {
    if stored == Str("THREAD") && !inDirectMessage then ThreadMode
    else if stored == Str("REPLY") || inDirectMessage then ReplyMode
    else Ignored
  }

  /** The mode chosen for the user with id `uid`, or the error the lookup
      raises. */
  function SessionFor(users: seq<Record>, uid: int, inDirectMessage: bool): Result<Mode, PyError> {
    match Lookup(users, uid, InteractionMethod)
    case Failure(e) => Failure(e)
    case Success(v) => Success(ModeFor(v, inDirectMessage))
  }

  /** A user with no record yet gets the mode of the template's
      `interaction_method`. */
  lemma NewUserGetsTemplateMode(users: seq<Record>, uid: int, d: nat, inDirectMessage: bool)
    requires FindUser(users, uid) == Success(None)
    requires FindUser(users, 0) == Success(Some(d))
    ensures SessionFor(users, uid, inDirectMessage) ==
      if InteractionMethod in users[d] then Success(ModeFor(users[d][InteractionMethod], inDirectMessage))
      else Failure(KeyError(Str(InteractionMethod)))
  {
    GetAbsentUser(users, uid, InteractionMethod, d);
  }

  /** Lines 240 and 282:`get_user_value('interaction_method')` is called once
      for the thread test and, when that fails, once more for the reply
      test; the second call always sees what the first one left behind. */
  method ChooseSession(data: UserData, inDirectMessage: bool) returns (r: Result<Mode, PyError>)
    modifies data.file
    ensures r == SessionFor(old(data.file.users), data.userId, inDirectMessage)
    ensures data.file.users == AfterLookup(old(data.file.users), data.userId)
  {
    var first := data.GetUserValue(InteractionMethod);
    if first.Failure? {
      return Failure(first.error);
    }
    if first.value == Str("THREAD") && !inDirectMessage {
      return Success(ThreadMode);
    }
    GetTwice(old(data.file.users), data.userId, InteractionMethod);
    var second := data.GetUserValue(InteractionMethod);
    r := match second
      case Failure(e) => Failure(e)
      case Success(v) => Success(if v == Str("REPLY") || inDirectMessage then ReplyMode else Ignored);
  }

  // ---------------------------------------------------------------------
  // Persona (`get_user_personality`)
  // ---------------------------------------------------------------------

  const PersonalityKey: string := "personality"
  const DefaultName: string := "DEFAULT"

  /** `personalities[key]` on the configured table of prompt templates. */
  function Index(personalities: map<string, string>, key: Value): (r: Result<string, PyError>)
    ensures r.Success? <==> key.Str? && key.s in personalities
    ensures r.Success? ==> r.value == personalities[key.s]
    ensures r.Failure? ==> r.error == KeyError(key)
  {
    if key.Str? && key.s in personalities then Success(personalities[key.s]) else Failure(KeyError(key))
  }

  /** The default persona: the `DEFAULT` entry names another entry, whose
      template is the result. Either lookup may raise `KeyError`. */
  function DefaultPersona(personalities: map<string, string>): (r: Result<string, PyError>)
    ensures r.Success? <==> DefaultName in personalities && personalities[DefaultName] in personalities
    ensures r.Success? ==> r.value == personalities[personalities[DefaultName]]
    ensures r.Success? ==> r.value in personalities.Values
    ensures r.Failure? ==> r.error.KeyError?
  {
    match Index(personalities, Str(DefaultName))
    case Failure(e) => Failure(e)
    case Success(name) => Index(personalities, Str(name))
  }

  /** Lines 145-148. A falsy stored name is first replaced by the default
      template TEXT; since the next test is an `if` and not an `elif`, that
      text is then looked up as a name of its own. */
  function ResolvePersona(stored: Value, personalities: map<string, string>): (r: Result<string, PyError>)
    ensures r.Success? ==> r.value in personalities.Values
    ensures r.Failure? ==> r.error.KeyError?
    ensures Truthy(stored) && stored != Str(DefaultName) ==> r == Index(personalities, stored)
    ensures stored == Str(DefaultName) ==> r == DefaultPersona(personalities)
  {
    var name := if !Truthy(stored) then
        match DefaultPersona(personalities)
        case Failure(e) => Failure(e)
        case Success(text) => Success(Str(text))
      else Success(stored);
    match name
    case Failure(e) => Failure(e)
    case Success(n) => if n == Str(DefaultName) then DefaultPersona(personalities) else Index(personalities, n)
  }

  /** A stored name other than `DEFAULT` selects its own template, or raises
      `KeyError` with that name. */
  lemma PersonaByName(n: string, personalities: map<string, string>)
    requires n != "" && n != DefaultName
    ensures n in personalities ==> ResolvePersona(Str(n), personalities) == Success(personalities[n])
    ensures n !in personalities ==> ResolvePersona(Str(n), personalities) == Failure(KeyError(Str(n)))
  {
  }

  /** `DEFAULT` selects the template the table's `DEFAULT` entry names. */
  lemma PersonaDefault(personalities: map<string, string>)
    ensures ResolvePersona(Str(DefaultName), personalities) == DefaultPersona(personalities)
  {
  }

  /** A user with no persona set does NOT get the default: the default
      template's text is used as a name, which fails unless some entry is
      keyed by that very text. */
  lemma UnsetPersonaLooksUpText(stored: Value, personalities: map<string, string>, text: string)
    requires !Truthy(stored)
    requires DefaultPersona(personalities) == Success(text) && text != DefaultName
    ensures ResolvePersona(stored, personalities) == Index(personalities, Str(text))
    ensures text !in personalities ==> ResolvePersona(stored, personalities) == Failure(KeyError(Str(text)))
  {
  }

  /** The usual configuration: `DEFAULT` resolves, an unset persona raises. */
  lemma UnsetPersonaExample()
    ensures var table := map[DefaultName := "friendly", "friendly" := "You are friendly."];
      && ResolvePersona(Str(DefaultName), table) == Success("You are friendly.")
      && ResolvePersona(Null, table) == Failure(KeyError(Str("You are friendly.")))
      && ResolvePersona(Str(""), table) == Failure(KeyError(Str("You are friendly.")))
  {
    var table := map[DefaultName := "friendly", "friendly" := "You are friendly."];
    assert "You are friendly." !in table;
  }

  /** The `set-personality` command: stores the chosen name as given. */
  method SetPersonality(data: UserData, personality: string) returns (r: Outcome<PyError>)
    modifies data.file
    ensures r == Stored(old(data.file.users), data.userId, PersonalityKey, Str(personality)).ToOutcome()
    ensures data.file.users == Stored(old(data.file.users), data.userId, PersonalityKey, Str(personality)).GetOr(old(data.file.users))
  {
    r := data.SetUserValue(PersonalityKey, Str(personality));
  }

  /** The persona for the user with id `uid`, or the error raised on the way. */
  function PersonaFor(users: seq<Record>, uid: int, personalities: map<string, string>): Result<string, PyError> {
    match Lookup(users, uid, PersonalityKey)
    case Failure(e) => Failure(e)
    case Success(v) => ResolvePersona(v, personalities)
  }

  /** `get_user_personality(user)`. */
  method UserPersonality(data: UserData, personalities: map<string, string>) returns (r: Result<string, PyError>)
    modifies data.file
    ensures r == PersonaFor(old(data.file.users), data.userId, personalities)
    ensures data.file.users == AfterLookup(old(data.file.users), data.userId)
  {
    var stored := data.GetUserValue(PersonalityKey);
    r := match stored
      case Failure(e) => Failure(e)
      case Success(v) => ResolvePersona(v, personalities);
  }

  // ---------------------------------------------------------------------
  // The `chat-method` command
  // ---------------------------------------------------------------------

  /** What the command stores: the user's choice, or the configured value
      when the method is locked. */
  function ChatMethodWritten(chosen: string, forcedEnabled: Value, forcedValue: Value): (r: Value)
    ensures Truthy(forcedEnabled) ==> r == forcedValue
    ensures !Truthy(forcedEnabled) ==> r == Str(chosen)
  {
    if Truthy(forcedEnabled) then forcedValue else Str(chosen)
  }

  /** Lines 126-130: when locked, the user is told so and the forced value
      is written all the same. */
  method SetChatMethod(data: UserData, chosen: string, forcedEnabled: Value, forcedValue: Value)
    returns (r: Outcome<PyError>)
    modifies data.file
    ensures var written := ChatMethodWritten(chosen, forcedEnabled, forcedValue);
      && r == Stored(old(data.file.users), data.userId, InteractionMethod, written).ToOutcome()
      && data.file.users == Stored(old(data.file.users), data.userId, InteractionMethod, written).GetOr(old(data.file.users))
  {
    var chatMethod := Str(chosen);
    if Truthy(forcedEnabled) {
      chatMethod := forcedValue;
    }
    r := data.SetUserValue(InteractionMethod, chatMethod);
  }

  /** For a user already on file, a locked chat method is what gets stored,
      whatever the user picked. */
  lemma LockedMethodStored(users: seq<Record>, uid: int, chosen: string, forcedValue: Value)
    requires FindUser(users, uid).Success? && FindUser(users, uid).value.Some?
    requires FindUser(users, 0).Success? && FindUser(users, 0).value.Some?
    requires forcedValue != Null
    ensures var written := ChatMethodWritten(chosen, Bool(true), forcedValue);
      && Stored(users, uid, InteractionMethod, written).Success?
      && Lookup(Stored(users, uid, InteractionMethod, written).value, uid, InteractionMethod) == Success(forcedValue)
  {
    SetThenGet(users, uid, InteractionMethod, forcedValue);
  }

  // ---------------------------------------------------------------------
  // Continuing a session
  // ---------------------------------------------------------------------

  /** The parts of an incoming Discord message the session loops look at:
      its text, channel, author, and the id of the message it replies to. */
  datatype Message = Message(content: Option<string>, channelId: int, authorId: int, replyTo: Option<int>)

  /** Line 263: the thread session waits for any message with content in
      its thread. */
  predicate ThreadWaitAccepts(m: Message, threadId: int) {
    m.content.Some? && m.channelId == threadId
  }

  /** Line 298: the reply session waits for any message with content that
      replies to the bot's last message, in whatever channel. */
  predicate ReplyWaitAccepts(m: Message, lastMessageId: int) {
    m.content.Some? && m.replyTo.Some? && m.replyTo.value == lastMessageId
  }

  /** Lines 270 and 304: only the author who started the session adds a
      turn. */
  predicate AdmitsTurn(m: Message, authorId: int) {
    m.authorId == authorId
  }

  /** A message from someone else in the thread ends the wait but adds no
      turn; a reply to the bot's last message is accepted whatever channel
      it was sent in. */
  lemma WaitIsNotAdmission(threadId: int, lastMessageId: int, authorId: int, other: int, channel: int)
    requires other != authorId
    ensures var m := Message(Some("hi"), threadId, other, None);
      ThreadWaitAccepts(m, threadId) && !AdmitsTurn(m, authorId)
    ensures ReplyWaitAccepts(Message(Some("hi"), channel, authorId, Some(lastMessageId)), lastMessageId)
  {
  }

  // ---------------------------------------------------------------------
  // One completion round
  // ---------------------------------------------------------------------

  /** Discord's limit on one message: replies are sent in slices of this
      many characters. */
  const MessageLimit: nat := 2000

  /** What a round leaves: the conversation, the messages sent, and whether
      the guarded second completion (`if convo[-1]["role"] == "system"`)
      runs. */
  datatype Round = Round(convo: seq<Turn>, sent: seq<string>, followUp: bool)

  /** One round after `generate` answered `response`: the answer joins the
      conversation (and, so, the transcript) as it came, directives and
      all; the directive-stripped text is sent in 2000-character slices. */
  function CompletionRound(convo: seq<Turn>, response: string): (r: Round)
    ensures r.convo == convo + [Turn(response, Assistant)]
  {
    var withAnswer := convo + [Turn(response, Assistant)];
    var (delivered, after) := ExecuteEncoded(response, withAnswer);
    Round(after, Chunks(delivered, MessageLimit), after[|after| - 1].role == System)
  }

  /** The second completion at lines 257, 277, 291 and 311 never runs: the
      conversation comes back from the directive hook ending in the
      assistant's answer. */
  lemma NoFollowUpRound(convo: seq<Turn>, response: string)
    ensures !CompletionRound(convo, response).followUp
  {
  }

  /** The slices sent rebuild the delivered text; each holds at most 2000
      characters, all but the last exactly 2000; there are
      `ceil(len / 2000)` of them, so an empty answer sends nothing. */
  lemma SentSlices(convo: seq<Turn>, response: string)
    ensures var delivered := ExecuteEncoded(response, convo + [Turn(response, Assistant)]).0;
      var sent := CompletionRound(convo, response).sent;
      && Concat(sent) == delivered
      && |sent| == (|delivered| + MessageLimit - 1) / MessageLimit
      && (forall i :: 0 <= i < |sent| ==> 0 < |sent[i]| <= MessageLimit)
      && (forall i :: 0 <= i < |sent| - 1 ==> |sent[i]| == MessageLimit)
      && (delivered == "" <==> sent == [])
  {
    var delivered := ExecuteEncoded(response, convo + [Turn(response, Assistant)]).0;
    ChunksConcat(delivered, MessageLimit);
    ChunkCount(delivered, MessageLimit);
  }
}
