/**
 * `clearMessages`: from the channel's recent messages, pick the ids of those
 * the bot wrote itself or whose text starts with one of the bot's command
 * words; those ids are then bulk-deleted.
 */
module ClearMessages {
  import opened Wrappers
  import opened Strings

  /** A chat message as `clearMessages` sees it. */
  datatype Message = Message(authorId: string, id: string, content: string)

  /** The package-level `commands` list, in its declared order. */
  const Commands: seq<string> := ["!audio", "!stop", "!clear", "!frase", "!jogo"]

  /** Some command word is a prefix of `content`. */
  predicate StartsWithCommand(content: string)
  {
    exists d :: 0 <= d < |Commands| && HasPrefix(content, Commands[d])
  }

  /** `message` is to be deleted: the bot wrote it, or it starts with a command word. */
  predicate Selected(botId: string, message: Message)
  {
    message.authorId == botId || StartsWithCommand(message.content)
  }

  /** The ids of the selected messages, in the order the messages come. */
  function SelectedIds(botId: string, messages: seq<Message>): (ids: seq<string>)
    ensures |ids| <= |messages|
    decreases |messages|
  {
    if |messages| == 0 then []
    else
      var last := messages[|messages| - 1];
      SelectedIds(botId, messages[..|messages| - 1]) + (if Selected(botId, last) then [last.id] else [])
  }

  /** The positions of the selected messages, in increasing order. */
  ghost function SelectedIndices(botId: string, messages: seq<Message>): seq<nat>
    decreases |messages|
  {
    if |messages| == 0 then []
    else
      var n := |messages| - 1;
      SelectedIndices(botId, messages[..n]) + (if Selected(botId, messages[n]) then [n] else [])
  }

  /**
   * The selected ids form a subsequence of the messages' ids: there is a
   * strictly increasing list of positions, exactly the positions of the
   * selected messages, whose ids are the result in order. So each message
   * contributes at most once, and a message contributes iff it is selected.
   */
  lemma {:induction false} SelectedIdsSubsequence(botId: string, messages: seq<Message>)
    ensures var idx := SelectedIndices(botId, messages);
            var ids := SelectedIds(botId, messages);
            && |idx| == |ids|
            && (forall k :: 0 <= k < |idx| ==> idx[k] < |messages| && ids[k] == messages[idx[k]].id)
            && (forall k, l :: 0 <= k < l < |idx| ==> idx[k] < idx[l])
            && (forall i :: 0 <= i < |messages| ==> (i in idx <==> Selected(botId, messages[i])))
    decreases |messages|
  {
    if |messages| > 0 {
      var n := |messages| - 1;
      var p := messages[..n];
      SelectedIdsSubsequence(botId, p);
      assert forall i :: 0 <= i < n ==> p[i] == messages[i];
    }
  }

  /** A message the bot wrote is always selected, whatever its text. */
  lemma OwnMessagesSelected(botId: string, messages: seq<Message>, i: int)
    requires 0 <= i < |messages| && messages[i].authorId == botId
    ensures messages[i].id in SelectedIds(botId, messages)
  {
  }

  /** "!frasetts" is not in the list, but it is selected through the "!frase" prefix. */
  lemma FraseTtsSelected(botId: string, authorId: string, id: string, rest: string)
    ensures Selected(botId, Message(authorId, id, "!frasetts" + rest))
  {
    var s := "!frasetts" + rest;
    assert s[..|Commands[3]|] == Commands[3];
  }

  /**
   * The selection loop of `clearMessages`: messages by the bot are taken at
   * once; otherwise the command words are tried in order and the first
   * prefix match takes the message and stops the search.
   */
  method SelectIds(botId: string, messages: seq<Message>) returns (ids: seq<string>)
    ensures ids == SelectedIds(botId, messages)
  {
    ids := [];
    var i := 0;
    while i < |messages|
      invariant 0 <= i <= |messages|
      invariant ids == SelectedIds(botId, messages[..i])
    {
      assert messages[..i + 1][..i] == messages[..i];
      var message := messages[i];
      if message.authorId == botId {
        ids := ids + [message.id];
      } else {
        var c := 0;
        while c < |Commands|
          invariant 0 <= c <= |Commands|
          invariant forall d :: 0 <= d < c ==> !HasPrefix(message.content, Commands[d])
          invariant ids == SelectedIds(botId, messages[..i])
        {
          if HasPrefix(message.content, Commands[c]) {
            ids := ids + [message.id];
            break;
          }
          c := c + 1;
        }
      }
      i := i + 1;
    }
    assert messages[..i] == messages;
  }

  /**
   * `clearMessages` up to the bulk delete: `None` when fetching the channel's
   * messages failed (the delete is skipped), else the ids handed to the
   * delete, which may be empty.
   */
  method ClearMessages(botId: string, fetched: Option<seq<Message>>) returns (toDelete: Option<seq<string>>)
    ensures fetched.None? <==> toDelete.None?
    ensures fetched.Some? ==> toDelete.value == SelectedIds(botId, fetched.value)
  {
    if fetched.None? {
      return None;
    }
    var ids := SelectIds(botId, fetched.value);
    return Some(ids);
  }
}
