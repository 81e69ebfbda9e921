/**
 * The conversation store of app.js: the module-level `conversations` and
 * `activeConversationId`, and the `localStorage` entry `conversations` they are written
 * through to, as one object. Each method is one handler of the page; each states its
 * whole new state in terms of the value-level operations of the Conversations module.
 */
module Store {
  import opened Wrappers
  import opened Conversations
  import Text

  /** The bot turn stored when the fetch is rejected. */
  const Apology := "Sorry, something went wrong."

  /** The JSON body of the POST to the webhook: `{chatInput, sessionId}`. */
  datatype Request = Request(chatInput: string, sessionId: string)

  /**
   * How the exchange ended: the response parsed as JSON (its `output` field, when it is a
   * string), or the promise rejected (network error, or a body that is not JSON).
   */
  datatype Reply = Received(output: Option<string>) | Failed

  /** The bot message a reply produces: a non-empty `output`, the apology, or nothing. */
  function ReplyBody(reply: Reply): (b: Option<string>)
    ensures reply.Failed? ==> b == Some(Apology)
    ensures reply.Received? ==> (b.Some? <==> reply.output.Some? && reply.output.value != "")
    ensures reply.Received? && b.Some? ==> b == reply.output
  {
    match reply
    case Received(output) => if output.Some? && output.value != "" then output else None
    case Failed => Some(Apology)
  }

  /** `!activeConversationId`: `null` or the empty string. */
  predicate IsFalsy(active: Option<string>) {
    active.None? || active.value == ""
  }

  class ConversationStore {
    /** `let conversations`, in insertion order. */
    var conversations: seq<Conversation>
    /** `let activeConversationId`; `None` is `null`. */
    var activeId: Option<string>
    /** `localStorage.getItem('conversations')`, parsed; `None` when the key is absent. */
    var stored: Option<seq<Conversation>>

    /** The storage entry mirrors the list. */
    ghost predicate Persisted()
      reads this
    {
      WrittenThrough(conversations, stored)
    }

    /** The storage entry mirrors the list and the active pointer never dangles. */
    ghost predicate Valid()
      reads this
    {
      Persisted() && ActiveResolves(conversations, activeId)
    }

    /**
     * `loadConversations`, the start-up hydrate: the stored list, if any, becomes the list,
     * and its last conversation becomes active.
     */
    constructor LoadConversations(saved: Option<seq<Conversation>>)
      ensures Valid()
      ensures stored == saved
      ensures conversations == (if saved.Some? then saved.value else [])
      ensures activeId == (if conversations == [] then None else Some(conversations[|conversations| - 1].id))
    {
      stored := saved;
      var convs: seq<Conversation> := [];
      var active: Option<string> := None;
      if saved.Some? {
        convs := saved.value;
        if |convs| > 0 {
          active := Some(convs[|convs| - 1].id);
          assert Ids(convs)[|convs| - 1] == convs[|convs| - 1].id;
        }
      }
      conversations := convs;
      activeId := active;
    }

    /**
     * `createNewChat`: push an empty conversation with id `'chat-' + now`, make it active,
     * write through.
     */
    method CreateNewChat(now: nat)
      modifies this
      ensures Valid()
      ensures conversations == old(conversations) + [NewChat(now)]
      ensures activeId == Some(ChatId(now))
      ensures stored == Some(conversations)
      ensures old(UniqueIds(conversations)) && !old(HasId(conversations, ChatId(now))) ==> UniqueIds(conversations)
    {
      var id := ChatId(now);
      conversations := conversations + [Conversation(id, None, [])];
      activeId := Some(id);
      stored := Some(conversations);
      assert Ids(conversations)[|conversations| - 1] == id;
      if old(UniqueIds(conversations)) && !old(HasId(conversations, id)) {
        var before := old(conversations);
        assert forall j :: 0 <= j < |before| ==> Ids(before)[j] == conversations[j].id;
      }
    }

    /**
     * `saveMessageToHistory`: append `{message, sender, timestamp}` to the active
     * conversation and write through; a no-op when no conversation has the active id.
     */
    method SaveMessageToHistory(body: string, sender: Sender, now: int)
      requires Valid()
      modifies this
      ensures Valid()
      ensures conversations == AppendTo(old(conversations), old(activeId), Message(body, sender, now))
      ensures activeId == old(activeId)
      ensures stored == (if Locate(old(conversations), old(activeId)).Some? then Some(conversations) else old(stored))
      ensures old(UniqueIds(conversations)) ==> UniqueIds(conversations)
    {
      if activeId.Some? {
        var k := FindConversation(conversations, activeId.value);
        if k.Some? {
          var c := conversations[k.value];
          conversations := conversations[k.value := c.(messages := c.messages + [Message(body, sender, now)])];
          stored := Some(conversations);
        }
      }
      SameIdsPreserve(old(conversations), conversations, activeId);
    }

    /**
     * `loadConversation`: make an existing conversation active (and re-render it); an
     * unknown id leaves the pointer where it was.
     */
    method LoadConversation(id: string)
      requires Persisted()
      modifies this
      ensures conversations == old(conversations) && stored == old(stored)
      ensures activeId == (if HasId(conversations, id) then Some(id) else old(activeId))
      ensures Persisted()
      ensures HasId(conversations, id) || old(ActiveResolves(conversations, activeId)) ==> Valid()
    {
      var k := FindConversation(conversations, id);
      if k.Some? {
        activeId := Some(id);
      }
    }

    /** `clearCurrentChat`: empty the active conversation's messages and write through. */
    method ClearCurrentChat()
      requires Valid()
      modifies this
      ensures Valid()
      ensures conversations == ClearActive(old(conversations), old(activeId))
      ensures activeId == old(activeId)
      ensures stored == (if Locate(old(conversations), old(activeId)).Some? then Some(conversations) else old(stored))
      ensures old(UniqueIds(conversations)) ==> UniqueIds(conversations)
    {
      if activeId.Some? {
        var k := FindConversation(conversations, activeId.value);
        if k.Some? {
          conversations := conversations[k.value := conversations[k.value].(messages := [])];
          stored := Some(conversations);
        }
      }
      SameIdsPreserve(old(conversations), conversations, activeId);
    }

    /**
     * `deleteAllChatHistory`: when confirmed, no conversations, no active one, and the
     * storage entry removed; otherwise nothing changes.
     */
    method DeleteAllChatHistory(confirmed: bool)
      requires Valid()
      modifies this
      ensures Valid()
      ensures !confirmed ==> conversations == old(conversations) && activeId == old(activeId) && stored == old(stored)
      ensures confirmed ==> conversations == [] && activeId == None && stored == None
    {
      if confirmed {
        conversations := [];
        activeId := None;
        stored := None;
      }
    }

    /**
     * `deleteConversation`: when confirmed, drop every conversation with this id and write
     * through; if it was the active one, the last remaining conversation becomes active,
     * or a new chat is created when none remain.
     */
    method DeleteConversation(id: string, confirmed: bool, now: nat)
      requires Valid()
      modifies this
      ensures Valid()
      ensures !confirmed ==> conversations == old(conversations) && activeId == old(activeId) && stored == old(stored)
      ensures confirmed ==>
        var rest := Without(old(conversations), id);
        var wasActive := old(activeId) == Some(id);
        && conversations == (if wasActive && rest == [] then [NewChat(now)] else rest)
        && activeId == (if !wasActive then old(activeId)
                        else if rest != [] then Some(rest[|rest| - 1].id)
                        else Some(ChatId(now)))
        && stored == Some(conversations)
      ensures old(UniqueIds(conversations)) ==> UniqueIds(conversations)
    {
      if !confirmed {
        return;
      }
      var wasActive := activeId == Some(id);
      var rest := FilterOut(conversations, id);
      WithoutIds(conversations, id);
      if old(UniqueIds(conversations)) {
        WithoutKeepsUnique(conversations, id);
      }
      conversations := rest;
      stored := Some(conversations);
      if wasActive {
        if |conversations| > 0 {
          var last := conversations[|conversations| - 1].id;
          assert Ids(conversations)[|conversations| - 1] == last;
          LoadConversation(last);
        } else {
          CreateNewChat(now);
        }
      }
    }

    /**
     * `updateMessage`: in the active conversation, give the first message with timestamp
     * `ts` the new body and write through; no active conversation or no match changes nothing.
     */
    method UpdateMessage(ts: int, newBody: string)
      requires Valid()
      modifies this
      ensures Valid()
      ensures conversations == EditActive(old(conversations), old(activeId), ts, newBody)
      ensures activeId == old(activeId)
      ensures stored == (if HasEditTarget(old(conversations), old(activeId), ts) then Some(conversations) else old(stored))
      ensures old(UniqueIds(conversations)) ==> UniqueIds(conversations)
    {
      if activeId.Some? {
        var k := FindConversation(conversations, activeId.value);
        if k.Some? {
          var c := conversations[k.value];
          var m := FindMessage(c.messages, ts);
          if m.Some? {
            var msgs := c.messages[m.value := c.messages[m.value].(body := newBody)];
            conversations := conversations[k.value := c.(messages := msgs)];
            stored := Some(conversations);
            SameIdsPreserve(old(conversations), conversations, activeId);
            LoadConversation(activeId.value);
          }
        }
      }
      SameIdsPreserve(old(conversations), conversations, activeId);
    }

    /** `renameConversation`: set the title of the conversation with this id and write through. */
    method RenameConversation(id: string, newTitle: string)
      requires Valid()
      modifies this
      ensures Valid()
      ensures conversations == Retitle(old(conversations), id, newTitle)
      ensures activeId == old(activeId)
      ensures stored == (if old(HasId(conversations, id)) then Some(conversations) else old(stored))
      ensures old(UniqueIds(conversations)) ==> UniqueIds(conversations)
    {
      var k := FindConversation(conversations, id);
      if k.Some? {
        conversations := conversations[k.value := conversations[k.value].(title := Some(newTitle))];
        stored := Some(conversations);
      }
      SameIdsPreserve(old(conversations), conversations, activeId);
    }

    /**
     * The rename prompt's handler: a cancelled prompt (`null`) or a title that trims to
     * the empty string is ignored; any other answer renames.
     */
    method RenameFromPrompt(id: string, answer: Option<string>)
      requires Valid()
      modifies this
      ensures Valid()
      ensures answer.None? || Text.IsBlank(answer.value) ==>
        conversations == old(conversations) && activeId == old(activeId) && stored == old(stored)
      ensures answer.Some? && !Text.IsBlank(answer.value) ==>
        && conversations == Retitle(old(conversations), id, answer.value)
        && activeId == old(activeId)
        && stored == (if old(HasId(conversations, id)) then Some(conversations) else old(stored))
      ensures old(UniqueIds(conversations)) ==> UniqueIds(conversations)
    {
      if answer.Some? && Text.Trim(answer.value) != "" {
        RenameConversation(id, answer.value);
      }
    }

    /** The edit prompt's handler: a cancelled prompt is ignored; any answer, even empty, edits. */
    method EditFromPrompt(ts: int, answer: Option<string>)
      requires Valid()
      modifies this
      ensures Valid()
      ensures answer.None? ==> conversations == old(conversations) && activeId == old(activeId) && stored == old(stored)
      ensures answer.Some? ==>
        && conversations == EditActive(old(conversations), old(activeId), ts, answer.value)
        && stored == (if HasEditTarget(old(conversations), old(activeId), ts) then Some(conversations) else old(stored))
      ensures activeId == old(activeId)
      ensures old(UniqueIds(conversations)) ==> UniqueIds(conversations)
    {
      if answer.Some? {
        UpdateMessage(ts, answer.value);
      }
    }

    /**
     * The synchronous part of `sendMessage`: ignore input that trims to empty; otherwise
     * create a chat when none is active, store the user turn in the active conversation
     * and return the request the fetch sends.
     */
    method SendMessage(input: string, idTime: nat, sentAt: int) returns (request: Option<Request>)
      requires Valid()
      modifies this
      ensures Valid()
      ensures Text.IsBlank(input) ==>
        request.None? && conversations == old(conversations) && activeId == old(activeId) && stored == old(stored)
      ensures !Text.IsBlank(input) ==>
        var created := IsFalsy(old(activeId));
        var base := if created then old(conversations) + [NewChat(idTime)] else old(conversations);
        && activeId == (if created then Some(ChatId(idTime)) else old(activeId))
        && conversations == AppendTo(base, activeId, Message(input, User, sentAt))
        && stored == Some(conversations)
        && request == Some(Request(input, activeId.value))
      ensures old(UniqueIds(conversations)) && (IsFalsy(old(activeId)) ==> !old(HasId(conversations, ChatId(idTime)))) ==>
        UniqueIds(conversations)
    {
      if Text.Trim(input) == "" {
        return None;
      }
      ghost var before, wasActive := conversations, activeId;
      if IsFalsy(activeId) {
        CreateNewChat(idTime);
      }
      ghost var base := conversations;
      assert base == (if IsFalsy(wasActive) then before + [NewChat(idTime)] else before);
      SaveMessageToHistory(input, User, sentAt);
      request := Some(Request(input, activeId.value));
    }

    /**
     * The continuation of `sendMessage` once the fetch settles: the reply's bot turn, if
     * any, goes to whichever conversation is active at that moment.
     */
    method ReceiveReply(reply: Reply, now: int)
      requires Valid()
      modifies this
      ensures Valid()
      ensures activeId == old(activeId)
      ensures ReplyBody(reply).None? ==> conversations == old(conversations) && stored == old(stored)
      ensures ReplyBody(reply).Some? ==>
        && conversations == AppendTo(old(conversations), old(activeId), Message(ReplyBody(reply).value, Bot, now))
        && stored == (if Locate(old(conversations), old(activeId)).Some? then Some(conversations) else old(stored))
      ensures old(UniqueIds(conversations)) ==> UniqueIds(conversations)
    {
      var body := ReplyBody(reply);
      if body.Some? {
        SaveMessageToHistory(body.value, Bot, now);
      }
    }
  }

  /**
   * A page reload: hydrating a fresh store from what the old one left in storage gives back
   * the same list, with its last conversation active.
   */
  method Reload(s: ConversationStore) returns (t: ConversationStore)
    requires s.Valid()
    ensures t.Valid() && t.stored == s.stored
    ensures t.conversations == s.conversations
    ensures t.activeId == (if s.conversations == [] then None else Some(s.conversations[|s.conversations| - 1].id))
  {
    t := new ConversationStore.LoadConversations(s.stored);
  }
}
