# luquito-bot: the message-processing core

This project models the sequential text processing of the luquito chat bot
(`main.go`): the parts that do not depend on the chat service or on audio
libraries. There are three parts.

- **Audio keyword table** (`readAudioConfig`). The configuration file holds
  whitespace-separated words `key value key value ...`. They are paired up
  into the process-wide `audioMap`: later pairs overwrite earlier ones, a
  trailing odd word is dropped, and entries already in the table stay. The
  model is the class `AudioConfig.AudioTable` with a `map` field and a loop
  method. It is proved against the function `Loaded`, and `Loaded` is
  characterised key by key: a key maps to the value after its last
  occurrence at an even position.
- **Clear filter** (`clearMessages`). From the channel's messages, select the
  ids of those the bot wrote, or whose text starts with a word of the
  `commands` list. The model keeps the source's nested loop with `break` as a
  method, proved equal to the filter `SelectedIds`. The result is proved to
  be the ids of exactly the selected messages, in input order, each at most
  once.
- **Command dispatch** (`messageHandler`). The text is split on single spaces
  and the first piece is compared with each command word in turn. `Handle`
  returns the actions started (play audio, stop, clear, send a sentence, send
  a sentence by text-to-speech, change the game) or `IndexOutOfRange`. That
  last outcome is the Go runtime panic of reading `split[1]` when "!audio"
  has no argument. `Split` is given `Join` as its inverse, and both round
  trips are proved.

Modules: `Wrappers` (Option), `Strings` (Go's `strings.Split` with " " and
`strings.HasPrefix`), `AudioConfig`, `ClearMessages`, `MessageHandler`.

Inputs that come from the outside world become parameters:
- the bot's own user id (`s.State.User.ID`);
- the word sequence produced by the file scanner, or `None` when the file
  cannot be opened;
- the fetched messages, or `None` when fetching them failed.

## Model

| member | source | states |
|---|---|---|
| `AudioConfig.AudioTable.constructor` | main.go:29 | The keyword table starts empty. |
| `AudioConfig.AudioTable.ReadAudioConfig` | main.go:31-51 | If the file cannot be opened, the table is unchanged. Otherwise the new table is `Loaded(old table, words)`. With zero or one word the table is unchanged. |
| `AudioConfig.LoadedLookup` | main.go:49-51 | After loading, a key is present iff it was present before or stands at an even index `j` with `j+1 < |words|`. At its last such index `j` it maps to `words[j+1]`, so later pairs overwrite earlier ones. A key at no such index keeps its old value. |
| `AudioConfig.LoadedAddsAtMostHalf` | main.go:49-51 | Loading never removes a key, and it adds at most `|words| / 2` new keys. |
| `AudioConfig.TrailingWordIgnored` | main.go:49 | With an odd number of words, the last word is a key afterwards only if it was one before, or it also stands at an earlier even index. |
| `AudioConfig.EvenExample` | main.go:43-51 | The words `alpha file1.dca beta file2.dca` load into an empty table as exactly `{alpha: file1.dca, beta: file2.dca}`. |
| `AudioConfig.OddExample` | main.go:49-51 | The words `alpha file1.dca beta` load as exactly `{alpha: file1.dca}`. The unmatched `beta` gets no entry. |
| `Strings.Split` | main.go:129-132 | Splitting on " " always gives at least one piece, and no piece contains a space. So the `len(split) == 0` guard can never fire. |
| `Strings.JoinSplit` | main.go:129 | Joining the pieces of a split with single spaces gives back the original text. |
| `Strings.SplitJoin` | main.go:129 | Splitting the join of one or more space-free pieces gives back those pieces. |
| `Strings.SplitFirst` | main.go:129 | The first piece is a prefix of the text and holds no space. Either it is the whole text, or a space follows it. There is exactly one piece iff the text holds no space. |
| `ClearMessages.SelectedIds` | main.go:196-207 | The filter returns no more ids than there are messages. |
| `ClearMessages.SelectedIdsSubsequence` | main.go:196-207 | The selected ids are the ids at a strictly increasing list of positions. Those positions are exactly the ones whose message is selected, i.e. written by the bot or starting with a command word. |
| `ClearMessages.OwnMessagesSelected` | main.go:197-198 | The id of a message the bot wrote is always selected, whatever its text. |
| `ClearMessages.FraseTtsSelected` | main.go:200-204 | A message starting with "!frasetts", which is not in the list, is selected through the "!frase" prefix. |
| `ClearMessages.SelectIds` | main.go:186-207 | The nested loop with `break` returns exactly `SelectedIds(botId, messages)`. |
| `ClearMessages.ClearMessages` | main.go:185-215 | The delete is skipped iff fetching the messages failed. Otherwise it receives exactly the filter's result, which may be empty. |
| `MessageHandler.Handle` | main.go:124-162 | A message from the bot starts nothing. Any outcome other than a panic starts at most one action. |
| `MessageHandler.Dispatch` | main.go:129-161 | The six independent `if` statements start at most one action. The panic happens iff the pieces are exactly `["!audio"]`. |
| `MessageHandler.HandlePanics` | main.go:134-137 | The handler panics iff someone other than the bot sends exactly the text "!audio". |
| `MessageHandler.AudioCommand` | main.go:134-138 | For "!audio key ...", the handler plays `audioMap[key]` when `key` is in the table, and otherwise starts nothing. Further words do not matter. |
| `MessageHandler.SingleWordCommands` | main.go:140-161 | The words "!stop", "!clear", "!frase", "!frasetts" and "!jogo" each start their own action. Any other space-free word except "!audio" starts nothing. |
| `MessageHandler.FirstWordDecides` | main.go:129-161 | For a first word other than "!audio", text after the following space does not change the outcome. |
| `MessageHandler.DispatchActsOnHandledWord` | main.go:134-161 | An action or a panic happens only when the first piece is one of the six handled words. |
| `MessageHandler.HandledWordStartsWithCommand` | main.go:19-25 | Each handled word starts with a word of the `commands` list. |
| `MessageHandler.HandledMessagesAreCleared` | main.go:196-205 | Every message that makes the handler act or panic is selected by the clear filter. |
| `MessageHandler.ClearedButIgnored` | main.go:140-142 | The converse fails: "!stopped" is selected by the clear filter, yet the handler ignores it. |

## Left out

- `playSound` (main.go:54-96) is not modelled. It joins a voice channel, encodes the file, streams it and waits on a ticker and the `done` channel. This is goroutine and channel coordination over foreign audio and chat libraries, and its progress line uses floating-point rates.
- `joinVoice` (main.go:98-122) is not modelled: it looks up the channel, the guild and the author's voice state in the chat service's state. `PlayAudio(path)` stands for the call to it.
- The `!stop` send on the shared `done` channel (main.go:141) blocks until a playback reads it, which is concurrency. It is modelled only as the `Stop` action.
- Opening and scanning the configuration file (main.go:32-47) is outside the model. The model takes the scanner's word sequence, or `None` when the open fails. Go's `bufio.ScanWords` gives non-empty tokens without whitespace; the model does not impose this on its input.
- `changeGame`, `sendMessage`, `sendMessageTTS`, fetching the messages (main.go:188), the bulk delete (main.go:211) and `main` (main.go:217-251) are network and OS I/O. They are represented by action values or by parameters.
- `GeraFrase` and `GeraJogo` are not part of this model. They are called for "!frase", "!frasetts" and "!jogo", and are presumably random generators.
- Go strings are byte sequences and the model's are `seq<char>`. `HasPrefix` and `Split` on " " agree on valid UTF-8 text.
- The keyword table is the program's global mutable map: loading adds to it and keeps existing entries (main.go:29, 49-51).
