/** `save_to_transcript` (src/main.py): the transcript document is a list of
    entries keyed by the id of the message that started a conversation. A
    repeated save for the same id adds to the entry's token and message
    counters and replaces its message list with the conversation passed in.
    The wall-clock date and time of a new entry are parameters, and so is
    the tokenizer (`count`). */
module Transcript {
  import opened Values
  import opened Conversation
  import opened Completion

  /** `"conversation": {"message_count": ..., "messages": ...}`. */
  datatype Log = Log(messageCount: int, messages: seq<Turn>)

  datatype Entry = Entry(
    transcriptId: int,
    authorId: int,
    date: string,
    time: string,
    tokens: int,
    conversation: Log)

  /** The token count of a conversation: the token counts of the turns'
      contents, added up. */
  function ConversationTokens(convo: seq<Turn>, count: string -> nat): nat {
    if convo == [] then 0 else Tokens(convo[0].content, count) + ConversationTokens(convo[1..], count)
  }

  /** The tokens of a longer conversation are those of its prefix plus those
      of the turns added to it. */
  lemma {:induction false} ConversationTokensAppend(a: seq<Turn>, b: seq<Turn>, count: string -> nat)
    ensures ConversationTokens(a + b, count) == ConversationTokens(a, count) + ConversationTokens(b, count)
  {
    if a == [] {
      assert a + b == b;
    } else {
      assert (a + b)[1..] == a[1..] + b;
      ConversationTokensAppend(a[1..], b, count);
    }
  }

  /** The position of the first entry whose conversation id is `id`, or
      None when no entry has it. */
  function FindEntry(entries: seq<Entry>, id: int): (r: Option<nat>)
    ensures r.Some? ==> r.value < |entries| && entries[r.value].transcriptId == id
    ensures r.Some? ==> forall j :: 0 <= j < r.value ==> entries[j].transcriptId != id
    ensures r.None? ==> forall j :: 0 <= j < |entries| ==> entries[j].transcriptId != id
  {
    if entries == [] then None
    else if entries[0].transcriptId == id then Some(0)
    else match FindEntry(entries[1..], id)
      case Some(i) => Some(i + 1)
      case None => None
  }

  /** No two entries share a transcript id. */
  ghost predicate UniqueIds(entries: seq<Entry>) {
    forall i, j :: 0 <= i < j < |entries| ==> entries[i].transcriptId != entries[j].transcriptId
  }

  /** The transcript after `save_to_transcript` with `tokens` already summed.
      An entry with the id gets the tokens and the length of `convo` added to
      its counters and `convo` as its messages, keeping its author, date and
      time; otherwise a new entry is appended at the end. */
  function Upsert(entries: seq<Entry>, id: int, authorId: int, convo: seq<Turn>,
                  date: string, time: string, tokens: nat): (r: seq<Entry>)
    ensures FindEntry(entries, id).Some? ==>
      var i := FindEntry(entries, id).value;
      && |r| == |entries|
      && (forall j :: 0 <= j < |entries| && j != i ==> r[j] == entries[j])
      && r[i] == entries[i].(tokens := entries[i].tokens + tokens,
                             conversation := Log(entries[i].conversation.messageCount + |convo|, convo))
    ensures FindEntry(entries, id).None? ==>
      r == entries + [Entry(id, authorId, date, time, tokens, Log(|convo|, convo))]
  {
    match FindEntry(entries, id)
    case Some(i) =>
      var e := entries[i];
      entries[i := e.(tokens := e.tokens + tokens,
                      conversation := e.conversation.(messageCount := e.conversation.messageCount + |convo|,
                                                      messages := convo))]
    case None =>
      entries + [Entry(id, authorId, date, time, tokens, Log(|convo|, convo))]
  }

  /** After a save, the entry for the id exists and holds exactly the
      conversation just saved. */
  lemma UpsertHoldsLatest(entries: seq<Entry>, id: int, authorId: int, convo: seq<Turn>,
                          date: string, time: string, tokens: nat)
    ensures var after := Upsert(entries, id, authorId, convo, date, time, tokens);
      FindEntry(after, id).Some? && after[FindEntry(after, id).value].conversation.messages == convo
  {
    var after := Upsert(entries, id, authorId, convo, date, time, tokens);
    if FindEntry(entries, id).None? {
      assert after[|entries|].transcriptId == id;
    }
  }

  /** Saving keeps transcript ids unique, never lowers a token counter, and
      never reorders or drops an entry. */
  lemma UpsertPreserves(entries: seq<Entry>, id: int, authorId: int, convo: seq<Turn>,
                        date: string, time: string, tokens: nat)
    requires UniqueIds(entries)
    ensures var after := Upsert(entries, id, authorId, convo, date, time, tokens);
      && UniqueIds(after)
      && |after| >= |entries|
      && forall j :: 0 <= j < |entries| ==>
           after[j].transcriptId == entries[j].transcriptId && after[j].tokens >= entries[j].tokens
  {
  }

  /** Saving the same conversation id twice, first
      with `first` and then with `second`, counts the messages and tokens of
      both saves but keeps only the messages of the second. */
  lemma SaveTwice(entries: seq<Entry>, id: int, authorId: int, first: seq<Turn>, second: seq<Turn>,
                  date1: string, time1: string, date2: string, time2: string, count: string -> nat)
    requires FindEntry(entries, id).None?
    ensures var once := Upsert(entries, id, authorId, first, date1, time1, ConversationTokens(first, count));
      var twice := Upsert(once, id, authorId, second, date2, time2, ConversationTokens(second, count));
      && |twice| == |entries| + 1
      && twice[|entries|] == Entry(id, authorId, date1, time1,
                                   ConversationTokens(first, count) + ConversationTokens(second, count),
                                   Log(|first| + |second|, second))
  {
    var e := Entry(id, authorId, date1, time1, ConversationTokens(first, count), Log(|first|, first));
    FindAppended(entries, e);
  }

  /** A new entry appended after entries that lack its id is found at the
      end. */
  lemma FindAppended(entries: seq<Entry>, e: Entry)
    requires FindEntry(entries, e.transcriptId).None?
    ensures FindEntry(entries + [e], e.transcriptId) == Some(|entries|)
  {
    var after := entries + [e];
    assert after[|entries|] == e;
    assert forall j :: 0 <= j < |entries| ==> after[j] == entries[j];
  }

  /** A session saves its growing conversation after every reply: saving
      `convo` and then `convo + more` counts the turns of `convo`, and their
      tokens, twice. */
  lemma SessionDoubleCounts(entries: seq<Entry>, id: int, authorId: int, convo: seq<Turn>, more: seq<Turn>,
                            date1: string, time1: string, date2: string, time2: string, count: string -> nat)
    requires FindEntry(entries, id).None?
    ensures var once := Upsert(entries, id, authorId, convo, date1, time1, ConversationTokens(convo, count));
      var twice := Upsert(once, id, authorId, convo + more, date2, time2, ConversationTokens(convo + more, count));
      && twice[|entries|].conversation.messageCount == 2 * |convo| + |more|
      && twice[|entries|].tokens == 2 * ConversationTokens(convo, count) + ConversationTokens(more, count)
  {
    SaveTwice(entries, id, authorId, convo, convo + more, date1, time1, date2, time2, count);
    ConversationTokensAppend(convo, more, count);
  }

  /** The transcript JSON file. */
  class TranscriptFile {
    var entries: seq<Entry>

    constructor (entries: seq<Entry>)
      ensures this.entries == entries
    {
      this.entries := entries;
    }
  }

  /** `save_to_transcript(first_message, convo)`: `transcriptId` and
      `authorId` are the first message's id and its author's id. */
  method SaveToTranscript(file: TranscriptFile, transcriptId: int, authorId: int, convo: seq<Turn>,
                          date: string, time: string, count: string -> nat)
    modifies file
    ensures file.entries ==
      Upsert(old(file.entries), transcriptId, authorId, convo, date, time, ConversationTokens(convo, count))
  {
    var transcript := file.entries;
    var totalTokens := ConversationTokens(convo, count);
    var existing := FindEntry(transcript, transcriptId);
    if existing.Some? {
      var i := existing.value;
      var entry := transcript[i];
      entry := entry.(tokens := entry.tokens + totalTokens);
      entry := entry.(conversation := entry.conversation.(messageCount := entry.conversation.messageCount + |convo|));
      entry := entry.(conversation := entry.conversation.(messages := convo));
      transcript := transcript[i := entry];
    } else {
      var newEntry := Entry(transcriptId, authorId, date, time, totalTokens, Log(|convo|, convo));
      transcript := transcript + [newEntry];
    }
    file.entries := transcript;
  }
}
