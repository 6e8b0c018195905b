# DiscordGPT core, modelled in Dafny

DiscordGPT is a Discord bot. It relays chat messages to an OpenAI chat-completion model and sends the answers back. Each session is either a thread or a reply chain. This project models the deterministic core of its one script, `src/main.py`:

- **Per-user settings.** A JSON document holds a list of user records. The record with `id == 0` is the template that fills in missing keys. `UserData` implements it with `create_user`, `get_user_value`, `set_user_value`, `delete_user_value` and `delete_user`.
- **Transcript log.** `save_to_transcript` upserts one entry per conversation and keeps running counters.
- **Text helpers:**
  - `remove_formatting`;
  - the literal replacements `generate` applies to a completion;
  - the 1024-character slicing inside `getTokens`;
  - the 2000-character slicing of outgoing replies.
- **The embedded-directive hook.** `extract_command_and_parameters` runs the regular expression `START:(.*):END`, and `execute_encoded_message` strips what it finds.
- **The decisions in `on_message` and the slash commands:**
  - whether a message triggers the bot;
  - thread or reply mode;
  - persona resolution (`get_user_personality`);
  - the locked chat method;
  - which later messages continue a session;
  - the extra completion round guarded by a trailing `system` turn.

Modules, one file each:

| module | file | what |
|---|---|---|
| `Values` | `values.dfy` | JSON scalars, Python truthiness, Python exceptions, `Option`/`Result` |
| `Text` | `text.dfy` | `str.replace`, `str.lower`, `startswith`, `remove_formatting`, slicing into chunks |
| `Completion` | `completion.dfy` | the replacement loop of `generate`; `getTokens` with the tokenizer as a parameter |
| `Settings` | `settings.dfy` | `UserData` as a class over a `SettingsFile` |
| `Conversation` | `conversation.dfy` | role-tagged turns |
| `Transcript` | `transcript.dfy` | `save_to_transcript` over a `TranscriptFile` |
| `Directive` | `directive.dfy` | the directive regex and `execute_encoded_message` |
| `Session` | `session.dfy` | triggering, mode, persona, chat method, continuation, one completion round |

## How the settings document is modelled

The JSON file is the object `SettingsFile`, and its field `users` is the list of records.

- `load_data` takes a snapshot of the field (a value).
- `save_data` assigns a snapshot back.
- A dict that the Python code mutates in place is updated in the snapshot it belongs to.
- The detached `default_user.copy()` is updated on its own.

Each `UserData` method is proved equal to a specification function of the document before the call:

| method | specification function |
|---|---|
| `CreateUser` | `Created` |
| `GetUserValue` | `Lookup` / `AfterLookup` |
| `SetUserValue` | `Stored` |
| `DeleteUserValue` | `KeyRemoved` |
| `DeleteUser` | `UserRemoved` |

The lemmas then state what the source promises about those functions.

User lookup follows Python literally:

- It scans for the first record whose `user["id"] == uid`.
- A record without an `id` that comes before any match raises `KeyError('id')`.
- A boolean id compares equal to 0 or 1 (`True == 1`).

## Where the code and its intended design differ (the model follows the code)

- **Directive matching.** It is meant to find the minimal (non-greedy) `START:...:END` and strip exactly that substring. The code's `(.*)` is greedy and cannot cross a newline. On a line with two directives, the capture runs from the first `START:` to the last `:END` (`Directive.GreedyCapture`). Every occurrence of the rebuilt `START:<capture>:END` is removed, not only the matched one.
- **`set_user_value` for a user without a record.** It is meant to create the record and persist the value. The method loads a snapshot, and `create_user` saves the new record. The method then saves the older snapshot over it: the new record and the value are both lost (`Settings.SetAbsentUserKeepsDocument`, `Settings.SetAbsentUserIsLost`).
- **Template backfill on read.** It is meant to be written back to storage on `get`. `get_user_value` backfills only its in-memory copy. Only the `create_user` it may call saves anything (`Settings.GetExistingUser`, `Settings.GetAbsentUser`).
- **Unset persona.** It is meant to fall through to the default persona. Line 146 replaces a falsy name with the default template's text. Line 147 is an `if`, not an `elif`, so line 148 then looks that text up as a persona name. That lookup raises `KeyError` unless some persona is keyed by that exact text (`Session.UnsetPersonaLooksUpText`, `Session.UnsetPersonaExample`).
- **Extra completion round.** It is meant to run when the directive hook appends a `system` turn. The hook never changes the conversation, so the round never runs (`Session.NoFollowUpRound`).

## Model

| member | source | states |
|---|---|---|
| `Text.RemoveFormatting` | src/main.py:139-142 | the per-symbol `replace` loop returns the message with every `*`, `_`, `~`, `#` and backquote removed and all other characters kept in order (`Without(message, Formatting)`); the loop invariant is removal of the symbols seen so far |
| `Text.Without` | src/main.py:139-142 | the stripped text is no longer than the input and contains none of the removed characters |
| `Text.WithoutCounts` | src/main.py:139-142 | stripping keeps every other character with its multiplicity and leaves none of the removed ones |
| `Text.WithoutConcat` | src/main.py:139-142 | stripping a concatenation strips each part, so the relative order of kept characters is preserved |
| `Text.WithoutNothingToDrop` | src/main.py:139-142 | text without formatting symbols comes back unchanged |
| `Text.WithoutIdempotent` | src/main.py:139-142 | `remove_formatting` is idempotent |
| `Text.WithoutTwice` | src/main.py:139-142 | removing one set of symbols and then another equals removing their union, which is why one pass per symbol strips all of them |
| `Text.ReplaceDeletesChar` | src/main.py:141 | `s.replace(c, '')` for one character is exactly deletion of that character |
| `Text.Replace` | src/main.py:44 | Python's `str.replace`: every non-overlapping occurrence of a non-empty pattern, scanned left to right, is replaced; an empty pattern inserts the replacement before every character and at the end (definition; its properties are the `Replace…` lemmas) |
| `Text.ReplaceAbsent` | src/main.py:44 | `str.replace` with a non-empty pattern that does not occur returns the text unchanged |
| `Text.ReplaceBySelf` | src/main.py:44 | replacing a pattern by itself, the empty pattern included, changes nothing |
| `Text.ReplaceEmptyPatternLength` | src/main.py:44 | `s.replace('', r)` inserts `r` before every character and at the end: length `len(s) + (len(s)+1)*len(r)` |
| `Text.Chunks` | src/main.py:256 | the slices `s[i:i+n]` for `i` in `range(0, len(s), n)` are non-empty, at most `n` long, and all but the last exactly `n` long |
| `Text.ChunksConcat` | src/main.py:256 | the slices concatenate back to the text |
| `Text.ChunkCount` | src/main.py:256 | there are `ceil(len(s)/n)` slices, none for empty text |
| `Text.ChunkAt` | src/main.py:256 | slice `k` is `s[k*n : min(k*n+n, len(s))]`, exactly the source's comprehension |
| `Completion.ApplyReplacements` | src/main.py:43-44 | the loop yields the completion with every replacement pair applied in list order, the first pair first (`ReplaceAll`) |
| `Completion.ReplaceAll` | src/main.py:43-44 | the pairs applied one after another, each to the output of the previous one (definition; specifies `ApplyReplacements`) |
| `Completion.ReplaceAllAppend` | src/main.py:43-44 | applying two lists of pairs in turn equals applying their concatenation: each pair sees the output of all earlier ones |
| `Completion.ReplaceAllIdentity` | src/main.py:43-44 | pairs that map a pattern to itself leave the completion unchanged |
| `Completion.ReplacementOrderMatters` | src/main.py:43-44 | with `a→b, b→c` the text `a` becomes `c`; in the reverse order it becomes `b` |
| `Completion.Tokens` | src/main.py:48 | `getTokens`: the tokenizer's counts of the 1024-character slices, added up (definition; the tokenizer is the parameter `count`) |
| `Completion.TokensShortText` | src/main.py:48 | text of at most 1024 characters is tokenized whole, and empty text counts 0 tokens |
| `Completion.TokensSplitAtWindow` | src/main.py:48 | the count of text cut at a multiple of 1024 is the sum of the counts of the two parts |
| `Completion.ChunksAppendAligned` | src/main.py:48 | slicing a concatenation whose first part is a whole number of windows slices each part separately |
| `Settings.FindUser` | src/main.py:78 | `next(user for user in users if user["id"] == uid)`: the first record whose id equals `uid`; `None` only if every record has an id and none matches; `KeyError('id')` exactly when an id-less record comes before any match |
| `Settings.UserData.constructor` | src/main.py:51-54 | a settings handle for one user id on one file |
| `Settings.UserData.LoadData` | src/main.py:56-58 | returns a snapshot of the document |
| `Settings.UserData.SaveData` | src/main.py:60-62 | the document becomes the snapshot passed in |
| `Settings.UserData.CreateUser` | src/main.py:64-74 | result and new document are `Created` of the old document |
| `Settings.UserData.SetUserValue` | src/main.py:76-90 | result and new document are `Stored` of the old document, including the stale-snapshot save after `create_user` |
| `Settings.UserData.DeleteUserValue` | src/main.py:92-100 | result and new document are `KeyRemoved` of the old document |
| `Settings.UserData.GetUserValue` | src/main.py:102-114 | returns `Lookup` of the old document; the document becomes `AfterLookup` (only `create_user`'s save) |
| `Settings.UserData.DeleteUser` | src/main.py:116-122 | result and new document are `UserRemoved` of the old document; `list.remove` drops the first equal record, which is the found one |
| `Settings.RemoveFirst` | src/main.py:121 | `list.remove` shortens the list by one |
| `Settings.RemoveFirstAt` | src/main.py:121 | when the first element equal to `x` is at `i`, `list.remove(x)` removes exactly index `i` |
| `Settings.TemplateRequired` | src/main.py:66-68 | without a record with id 0, `create_user`, `get_user_value` and `set_user_value` raise, and `get_user_value` saves nothing |
| `Settings.CreateAppendsTemplateCopy` | src/main.py:71-74 | for a new user, exactly one record is appended at the end: the template with only `id` replaced; existing records are untouched |
| `Settings.CreateIdempotent` | src/main.py:69-70 | a second `create_user` for the same user is a no-op |
| `Settings.GetExistingUser` | src/main.py:104-114 | for a stored user: the stored value, else the template's, else `KeyError(key)`; the document is unchanged |
| `Settings.GetAbsentUser` | src/main.py:108-114 | for a new user: the template copy is saved at the end and the template's value (or the user's own id) is returned |
| `Settings.GetTwice` | src/main.py:102-114 | a second read returns the same result as the first and saves nothing new |
| `Settings.SetExistingUser` | src/main.py:86-90 | for a stored user: the key is backfilled from the template when missing, then overwritten unless the value is `None`; no other key or record changes |
| `Settings.Backfilled` | src/main.py:87-88 | the user gains the template's value for the key exactly when it lacks the key and the template has it; every key the user had keeps its value |
| `Settings.Assigned` | src/main.py:89-90 | a non-`None` value is stored under the key; `None` leaves the user unchanged; every other key keeps its value |
| `Settings.SetThenGet` | src/main.py:76-114 | setting a non-`None` value under a key other than `id` for a stored user and reading it back returns that value |
| `Settings.SetAbsentUserKeepsDocument` | src/main.py:82-90 | for a new user, whatever the key and value, the document ends exactly as it began: the stale snapshot overwrites the record `create_user` saved |
| `Settings.SetAbsentUserIsLost` | src/main.py:82-90 | for a new user, reading the key back does not return the value set, unless the key is `id`, the value is `None`, or the template already held that value |
| `Settings.DeleteKeyOfUser` | src/main.py:97-100 | deleting a present key removes that key only, with no backfill and no template required |
| `Settings.DeleteKeyErrors` | src/main.py:95-98 | raises "User not found" for a missing user, then "Key not found in user data" for a missing key |
| `Settings.DeleteKeyThenGet` | src/main.py:99-114 | after a deletion, a read of that key falls back to the template again |
| `Settings.DeleteUserRemovesFirst` | src/main.py:118-121 | `delete_user` on a stored user removes the first record with the id and keeps the rest in order; when no later record shares the id, the user is absent afterwards |
| `Settings.DeleteAbsentUser` | src/main.py:116-120 | for a user without a record, `delete_user` and `delete_user_value` raise "User not found" and change nothing |
| `Transcript.FindEntry` | src/main.py:204 | the index of the first entry with the transcript id, or none when no entry has it |
| `Transcript.ConversationTokens` | src/main.py:201 | the tokens of a conversation: the token counts of its turns' contents, added up (definition) |
| `Transcript.ConversationTokensAppend` | src/main.py:201 | the token sum over a longer conversation is the sum over its prefix plus the sum over the added turns |
| `Transcript.Upsert` | src/main.py:204-221 | an existing entry gets the token sum and `len(convo)` added to its counters and `convo` as its messages, with every other field and entry unchanged; otherwise one entry is appended at the end with `tokens = sum` and `message_count = len(convo)` |
| `Transcript.SaveToTranscript` | src/main.py:198-222 | the transcript becomes `Upsert` of the old one, with the tokens summed over the conversation |
| `Transcript.UpsertHoldsLatest` | src/main.py:205-221 | after a save, the entry for the id exists and its messages are exactly the conversation saved |
| `Transcript.UpsertPreserves` | src/main.py:204-221 | ids stay unique, no entry is dropped or reordered, and no token counter decreases |
| `Transcript.SaveTwice` | src/main.py:205-208 | two saves under one id count the messages and tokens of both but keep only the second message list, with the first save's author, date and time |
| `Transcript.SessionDoubleCounts` | src/main.py:205-208 | saving `convo` and then `convo + more` counts the turns and tokens of `convo` twice |
| `Directive.LineEnd` | src/main.py:154 | the first newline at or after a position, or the end of text: where `.` stops matching |
| `Directive.LastClose` | src/main.py:154 | the last `:END` inside a range, or none |
| `Directive.MatchesOnLine` | src/main.py:154 | from a `START:`, the regex can end exactly at the `:END`s that lie before the end of that line |
| `Directive.SearchFrom` | src/main.py:154 | the leftmost match at or after a position, closed at its last possible `:END`, or proof that none exists |
| `Directive.IsMatchAt` | src/main.py:154 | `START:(.*):END` matches from `p` to `q`: `START:` at `p`, `:END` at `q`, no newline between (definition) |
| `Directive.IsSearchResult` | src/main.py:154 | the match `re.search` reports: no match starts earlier, and the greedy `.*` takes the last possible `:END` (definition) |
| `Directive.Extract` | src/main.py:153-156 | `None` exactly when no `START:…:END` lies on one line; otherwise the group of the leftmost, longest match |
| `Directive.ExtractFindsSearchResult` | src/main.py:154-155 | any leftmost-longest match is the one whose group is returned |
| `Directive.GreedyCapture` | src/main.py:154 | `START:a:END START:b:END` captures `a:END START:b` |
| `Directive.NoCaptureAcrossLines` | src/main.py:154 | a `START:` and an `:END` on different lines do not match |
| `Directive.ExecuteEncoded` | src/main.py:158-196 | the conversation comes back unchanged on every path, and the message never grows |
| `Directive.ExecuteWithoutDirective` | src/main.py:159-160 | with no match, or an empty capture (`START::END`), the message comes back unchanged |
| `Directive.ExecuteStripsDirective` | src/main.py:196 | otherwise every `START:<capture>:END` is deleted, and the text shrinks by at least one such copy |
| `Directive.ReplaceRemovesOccurrence` | src/main.py:196 | deleting a pattern that occurs shortens the text by at least the pattern's length |
| `Directive.LeadingDirectiveStripped` | src/main.py:153-196 | a reply that opens with a directive and has no colon after it is delivered with exactly that directive removed |
| `Directive.DirectiveStripped` | src/main.py:178-196 | `START:membercount:END Here you go` is delivered as ` Here you go` |
| `Session.TriggerText` | src/main.py:235-237 | `ignore_case` gives the lower-cased raw content, overriding `ignore_modifiers`; `ignore_modifiers` alone gives the stripped content; with neither flag there is no text |
| `Session.LowerAll` | src/main.py:238 | the triggers lower-cased one by one, in order |
| `Session.AnyPrefix` | src/main.py:239 | some trigger is a prefix of the text (definition) |
| `Session.Triggered` | src/main.py:231-239 | raises `NameError` exactly when neither flag is set and the trigger list is non-empty; otherwise the result is true exactly when the chosen text starts with one of the (lower-cased, with `ignore_case`) triggers and the author is not a bot |
| `Session.IgnoreCaseDiscardsStripping` | src/main.py:235-239 | with `ignore_case`, `ignore_modifiers` makes no difference: lower-cased raw content against lower-cased triggers |
| `Session.ModifiersOnlyTrigger` | src/main.py:235-239 | with only `ignore_modifiers`, a message triggers exactly when its formatting-stripped content starts with a trigger as configured and the author is not a bot |
| `Session.FormattedTriggerExample` | src/main.py:235-239 | `*hey` triggers `hey` with only `ignore_modifiers`, but not when `ignore_case` is also set |
| `Session.ModeFor` | src/main.py:240-282 | thread mode exactly for a stored `THREAD` outside a DM; any DM gives reply mode; anything other than `THREAD`/`REPLY` outside a DM does nothing |
| `Session.NewUserGetsTemplateMode` | src/main.py:240 | a user without a record gets the mode of the template's `interaction_method` |
| `Session.ChooseSession` | src/main.py:240-282 | the two `get_user_value` calls yield the mode of the one stored value, and leave the document as one read does |
| `Session.Index` | src/main.py:148 | `personalities[key]` succeeds exactly for a string key present in the table, else raises `KeyError(key)` |
| `Session.DefaultPersona` | src/main.py:146-147 | `personalities[personalities['DEFAULT']]` succeeds exactly when both lookups hit; the result is one of the configured templates, the failure a `KeyError` |
| `Session.ResolvePersona` | src/main.py:146-148 | the persona is always one of the configured templates or a `KeyError`; a truthy name other than `DEFAULT` is looked up itself, `DEFAULT` gives the default persona |
| `Session.PersonaByName` | src/main.py:148 | a name other than `DEFAULT` selects its own template, or raises `KeyError` with the name |
| `Session.PersonaDefault` | src/main.py:147 | `DEFAULT` selects `personalities[personalities['DEFAULT']]` |
| `Session.UnsetPersonaLooksUpText` | src/main.py:146-148 | a falsy stored persona looks up the default template's text as a name, raising `KeyError(text)` unless that text is itself a key |
| `Session.UnsetPersonaExample` | src/main.py:146-148 | with `DEFAULT: friendly`, `DEFAULT` resolves, while `None` and `""` raise `KeyError` |
| `Session.UserPersonality` | src/main.py:144-151 | the persona of the stored value (errors included); the document changes as one read does |
| `Session.SetPersonality` | src/main.py:135-136 | stores the chosen name through `set_user_value` |
| `Session.ChatMethodWritten` | src/main.py:127-128 | a truthy `enabled` flag replaces the user's choice with the forced value; otherwise the choice is kept |
| `Session.SetChatMethod` | src/main.py:126-130 | the value written through `set_user_value` is the forced value when locked, the choice otherwise |
| `Session.LockedMethodStored` | src/main.py:127-130 | when locked, a stored user's `interaction_method` reads back as the forced value whatever was chosen |
| `Session.ThreadWaitAccepts` | src/main.py:263 | the thread session waits for a message with content in its thread (definition) |
| `Session.ReplyWaitAccepts` | src/main.py:297-298 | the reply session waits for a message with content that replies to the bot's last message (definition) |
| `Session.AdmitsTurn` | src/main.py:270 | only the author who opened the session adds a turn (definition) |
| `Session.WaitIsNotAdmission` | src/main.py:263-271 | a message from another user in the thread ends the wait but adds no turn; a reply to the bot's last message qualifies from any channel |
| `Session.CompletionRound` | src/main.py:253-255 | the answer joins the conversation as generated, directive included, before stripping |
| `Session.NoFollowUpRound` | src/main.py:255-258 | the extra completion round guarded by a trailing `system` turn never runs |
| `Session.SentSlices` | src/main.py:289-290 | the messages sent concatenate to the stripped answer; each is at most 2000 characters, all but the last exactly 2000; there are `ceil(len/2000)`, and none for an empty answer |

## Left out

- Discord is not modelled. This covers slash-command registration, events, thread creation and deletion, `send`/`reply`, the ephemeral notices of the slash commands, and the `wait_for` loops with their 1200-second timeout. After a timeout those loops reuse a stale or unbound `userMessage`. Only the loops' acceptance tests (lines 263, 298, 270, 304) are modelled.
- The OpenAI call in `generate` is not modelled, nor its executor or the `continuous_typing` heartbeat. They are a network call and concurrency, so a completion's text is a parameter. Only the replacement loop is modelled.
- The GPT-2 tokenizer is a foreign library. It is the parameter `count: string -> nat`.
- YAML and dotenv loading are not modelled. Configuration values are parameters: triggers and flags, replacements, personalities, and the forced chat method.
- JSON file reads and writes become snapshot and assign on a field. Concurrent sessions are not modelled: the model is sequential, so lost updates between two sessions writing the same file are out of scope.
- The settings file's top-level `{"users": [...]}` object is the list itself. A document without `users`, which would raise `KeyError`, is not modelled.
- Record values are JSON scalars only. Floats, lists and nested objects are not modelled; in Python a float id `0.0` would also equal `0`.
- Transcript entries are assumed well-formed. An entry missing a key, which raises `KeyError` in the source, is not modelled.
- `datetime.now()` is a clock. Transcript date and time strings are parameters. The thread title is left out with thread creation.
- The directive dispatch (lines 161-163 and 182-194) is left out. Its `split('>')` and `lower()` compute values nothing uses, and the ban handler is an inert string literal.
- Session.ResolvePersona: `str.format()` with no arguments is not applied, so templates come back unformatted. A template with `{…}` placeholders would raise in the source, and the model does not raise.
- Text.Lower: `str.lower` is modelled for ASCII letters only. Other cased characters are not lowered.
