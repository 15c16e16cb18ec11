/**
 * `messageHandler`: the decision part of the bot's reaction to one chat
 * message. The content is split on single spaces and the first piece is
 * compared with each command word in turn; what the handler then does (join
 * a voice channel, signal stop, clear, send a sentence, change the game) is
 * represented by an `Action` value.
 */
module MessageHandler {
  import opened Strings
  import ClearMessages

  /** The side effects `messageHandler` may start. */
  datatype Action =
    | PlayAudio(path: string)  // joinVoice with the file the keyword maps to
    | Stop                     // the send on the shared `done` channel
    | Clear                    // clearMessages
    | Frase                    // sendMessage with a generated sentence
    | FraseTts                 // sendMessageTTS with a generated sentence
    | Jogo                     // changeGame with a generated game name

  /**
   * The handler's outcome: the actions its `if` statements started, in the
   * order of those statements, or the runtime panic raised by reading
   * `split[1]` when "!audio" has no argument.
   */
  datatype Handled = IndexOutOfRange | Actions(actions: seq<Action>)

  /**
   * `messageHandler` with the bot's own id, the author's id, the text, and
   * the keyword table: a bot message is ignored, anything else is split on
   * single spaces and dispatched. At most one action is ever started.
   */
  function Handle(botId: string, authorId: string, content: string, audioMap: map<string, string>): (r: Handled)
    ensures authorId == botId ==> r == Actions([])
    ensures r.Actions? ==> |r.actions| <= 1
  {
    if authorId == botId then Actions([]) else Dispatch(Split(content), audioMap)
  }

  /**
   * The body of `messageHandler` after the split. The source runs six
   * independent `if` statements on the first piece, each contributing its
   * action when its test holds; since their tests exclude one another, at
   * most one action results. An empty split (which `Split` never returns)
   * does nothing.
   */
  function Dispatch(split: seq<string>, audioMap: map<string, string>): (r: Handled)
    ensures r.Actions? ==> |r.actions| <= 1
    ensures r.IndexOutOfRange? <==> split == ["!audio"]
  {
    if |split| == 0 then Actions([])
    else if split[0] == "!audio" && |split| < 2 then IndexOutOfRange
    else
      Actions(
        (if split[0] == "!audio" && split[1] in audioMap then [PlayAudio(audioMap[split[1]])] else [])
        + (if split[0] == "!stop" then [Stop] else [])
        + (if split[0] == "!clear" then [Clear] else [])
        + (if split[0] == "!frase" then [Frase] else [])
        + (if split[0] == "!frasetts" then [FraseTts] else [])
        + (if split[0] == "!jogo" then [Jogo] else []))
  }

  /** The panic happens exactly when someone other than the bot sends the bare text "!audio". */
  lemma HandlePanics(botId: string, authorId: string, content: string, audioMap: map<string, string>)
    ensures Handle(botId, authorId, content, audioMap).IndexOutOfRange?
            <==> authorId != botId && content == "!audio"
  {
    JoinSplit(content);
    SplitJoin(["!audio"]);
  }

  /**
   * "!audio key ..." plays the file the table gives for `key` when `key` is
   * in the table, and does nothing otherwise; further words are ignored.
   * The message is given by its space-free words.
   */
  lemma AudioCommand(botId: string, authorId: string, words: seq<string>, audioMap: map<string, string>)
    requires authorId != botId
    requires |words| >= 2 && words[0] == "!audio"
    requires forall k :: 0 <= k < |words| ==> Space !in words[k]
    ensures Handle(botId, authorId, Join(words), audioMap)
            == if words[1] in audioMap then Actions([PlayAudio(audioMap[words[1]])]) else Actions([])
  {
    SplitJoin(words);
  }

  /**
   * A message that is a single word: each command word starts its own
   * action, and every other word (except "!audio", which panics) starts none.
   */
  lemma SingleWordCommands(botId: string, authorId: string, w: string, audioMap: map<string, string>)
    requires authorId != botId
    requires Space !in w
    ensures w == "!stop" ==> Handle(botId, authorId, w, audioMap) == Actions([Stop])
    ensures w == "!clear" ==> Handle(botId, authorId, w, audioMap) == Actions([Clear])
    ensures w == "!frase" ==> Handle(botId, authorId, w, audioMap) == Actions([Frase])
    ensures w == "!frasetts" ==> Handle(botId, authorId, w, audioMap) == Actions([FraseTts])
    ensures w == "!jogo" ==> Handle(botId, authorId, w, audioMap) == Actions([Jogo])
    ensures w !in {"!audio", "!stop", "!clear", "!frase", "!frasetts", "!jogo"} ==>
              Handle(botId, authorId, w, audioMap) == Actions([])
  {
    SplitJoin([w]);
  }

  /**
   * Only the first word decides, apart from "!audio": text after a space that
   * follows any other first word changes nothing.
   */
  lemma FirstWordDecides(botId: string, authorId: string, w: string, rest: string, audioMap: map<string, string>)
    requires Space !in w && w != "!audio"
    requires |rest| > 0 && rest[0] == Space
    ensures Handle(botId, authorId, w + rest, audioMap) == Handle(botId, authorId, w, audioMap)
  {
    SplitPrepend(w, rest);
    SplitPrepend(w, "");
    assert w + "" == w;
    assert rest == [Space] + rest[1..];
    assert Split(rest)[0] == "";
    assert w + Split(rest)[0] == w;
  }

  /** The words the handler reacts to. */
  const HandledWords: set<string> := {"!audio", "!stop", "!clear", "!frase", "!frasetts", "!jogo"}

  /** Dispatch acts (or panics) only on a first piece that is one of the handled words. */
  lemma DispatchActsOnHandledWord(split: seq<string>, audioMap: map<string, string>)
    requires Dispatch(split, audioMap) != Actions([])
    ensures |split| >= 1 && split[0] in HandledWords
  {
  }

  /** Each handled word starts with a word of the `commands` list ("!frasetts" with "!frase"). */
  lemma HandledWordStartsWithCommand(w: string)
    requires w in HandledWords
    ensures ClearMessages.StartsWithCommand(w)
  {
    var d := if w == "!audio" then 0 else if w == "!stop" then 1 else if w == "!clear" then 2
             else if w == "!jogo" then 4 else 3;
    assert w[..|ClearMessages.Commands[d]|] == ClearMessages.Commands[d];
  }

  /**
   * Every message that makes the handler act (or panic) starts with one of
   * the words in the `commands` list, so a later clear deletes it too.
   */
  lemma HandledMessagesAreCleared(botId: string, authorId: string, id: string, content: string, audioMap: map<string, string>)
    requires Handle(botId, authorId, content, audioMap) != Actions([])
    ensures ClearMessages.Selected(botId, ClearMessages.Message(authorId, id, content))
  {
    if authorId != botId {
      var first := Split(content)[0];
      SplitFirst(content);
      DispatchActsOnHandledWord(Split(content), audioMap);
      HandledWordStartsWithCommand(first);
      var d :| 0 <= d < |ClearMessages.Commands| && HasPrefix(first, ClearMessages.Commands[d]);
      var cmd := ClearMessages.Commands[d];
      assert content[..|cmd|] == content[..|first|][..|cmd|];
    }
  }

  /** The converse fails: "!stopped" is cleared, yet the handler ignores it. */
  lemma ClearedButIgnored(botId: string, authorId: string, id: string, audioMap: map<string, string>)
    requires authorId != botId
    ensures ClearMessages.Selected(botId, ClearMessages.Message(authorId, id, "!stopped"))
    ensures Handle(botId, authorId, "!stopped", audioMap) == Actions([])
  {
    SingleWordCommands(botId, authorId, "!stopped", audioMap);
    assert "!stopped"[..|ClearMessages.Commands[1]|] == ClearMessages.Commands[1];
  }
}
