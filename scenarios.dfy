/**
 * Whole sessions of the chat page, checked against the store's contracts alone: what a
 * user sees after a short sequence of clicks.
 */
module Scenarios {
  import opened Wrappers
  import opened Conversations
  import opened Store
  import opened History

  /** Appending to the conversation `c` of `pre + [c] + post`, when no conversation before it has its id. */
  lemma Appended(pre: seq<Conversation>, c: Conversation, post: seq<Conversation>, m: Message)
    requires forall j :: 0 <= j < |pre| ==> pre[j].id != c.id
    ensures AppendTo(pre + [c] + post, Some(c.id), m) == pre + [c.(messages := c.messages + [m])] + post
  {
    var convs := pre + [c] + post;
    assert convs[|pre|] == c;
    assert forall j :: 0 <= j < |pre| ==> convs[j] == pre[j];
    assert Ids(convs)[|pre|] == c.id;
    assert IndexOfId(convs, c.id) == Some(|pre|);
    assert convs[|pre| := c.(messages := c.messages + [m])] == pre + [c.(messages := c.messages + [m])] + post;
  }

  /**
   * A first visit up to the fetch: with nothing stored, sending "hello" creates chat
   * `chat-1000`, stores the user turn in it and asks the webhook about that chat.
   */
  method FirstMessage() returns (store: ConversationStore, request: Option<Request>)
    ensures fresh(store) && store.Valid()
    ensures store.conversations == [Conversation(ChatId(1000), None, [Message("hello", User, 1001)])]
    ensures store.activeId == Some(ChatId(1000))
    ensures request == Some(Request("hello", ChatId(1000)))
  {
    store := new ConversationStore.LoadConversations(None);
    assert !Text.IsJsWhitespace("hello"[0]);
    request := store.SendMessage("hello", 1000, 1001);
    var asked := Conversation(ChatId(1000), None, [Message("hello", User, 1001)]);
    Appended([], NewChat(1000), [], Message("hello", User, 1001));
    assert [] + [NewChat(1000)] + [] == [] + [NewChat(1000)];
    assert NewChat(1000).(messages := [] + [Message("hello", User, 1001)]) == asked;
  }

  /**
   * A first visit: send "hello", the webhook answers "hi there". The one chat holds the
   * two turns in order and the history shows it as "hello".
   */
  method HelloScenario() returns (convs: seq<Conversation>, rows: seq<HistoryEntry>)
    ensures convs == [Conversation(ChatId(1000), None, [Message("hello", User, 1001), Message("hi there", Bot, 1002)])]
    ensures rows == [HistoryEntry(ChatId(1000), "hello", true)]
  {
    var store, request := FirstMessage();
    var asked := Conversation(ChatId(1000), None, [Message("hello", User, 1001)]);
    store.ReceiveReply(Received(Some("hi there")), 1002);
    assert ReplyBody(Received(Some("hi there"))) == Some("hi there");
    Appended([], asked, [], Message("hi there", Bot, 1002));
    assert [] + [asked] + [] == [asked];
    assert asked.messages + [Message("hi there", Bot, 1002)] == [Message("hello", User, 1001), Message("hi there", Bot, 1002)];
    convs := store.conversations;
    rows := Project(convs, store.activeId);
    assert rows[0].text == DisplayText(convs[0]) == "hello";
  }

  /**
   * Deleting the only chat while it is active leaves one new, empty, active chat shown
   * as "New Chat".
   */
  method DeleteOnlyChatScenario() returns (convs: seq<Conversation>, rows: seq<HistoryEntry>)
    ensures convs == [NewChat(2000)]
    ensures rows == [HistoryEntry(ChatId(2000), Placeholder, true)]
  {
    var store := new ConversationStore.LoadConversations(None);
    store.CreateNewChat(1000);
    store.DeleteConversation(ChatId(1000), true, 2000);
    convs := store.conversations;
    rows := Project(convs, store.activeId);
    assert rows[0].text == DisplayText(convs[0]) == Placeholder;
  }

  /** Renaming a chat to blanks leaves it untitled. */
  method BlankRenameScenario() returns (title: Option<string>)
    ensures title == None
  {
    var store := new ConversationStore.LoadConversations(None);
    store.CreateNewChat(1000);
    store.RenameFromPrompt(ChatId(1000), Some("   "));
    title := store.conversations[0].title;
  }

  /** After "delete all" and a reload, there is no chat and none is active. */
  method DeleteAllThenReloadScenario() returns (convs: seq<Conversation>, active: Option<string>)
    ensures convs == [] && active == None
  {
    var store := new ConversationStore.LoadConversations(None);
    store.CreateNewChat(1000);
    store.DeleteAllChatHistory(true);
    var reloaded := Reload(store);
    convs, active := reloaded.conversations, reloaded.activeId;
  }

  /**
   * A reply that settles after the user has started another chat lands in the chat that
   * is active then, not in the one the question was asked in: the user sends "hello",
   * starts a new chat while the fetch is pending, then the answer arrives.
   */
  method LateReplyScenario() returns (convs: seq<Conversation>)
    ensures convs == [
      Conversation(ChatId(1000), None, [Message("hello", User, 1001)]),
      Conversation(ChatId(3000), None, [Message("hi there", Bot, 4000)])]
  {
    var store, request := FirstMessage();
    var asked := Conversation(ChatId(1000), None, [Message("hello", User, 1001)]);
    store.CreateNewChat(3000);
    assert ChatId(1000) != ChatId(3000) by {
      if ChatId(1000) == ChatId(3000) {
        ChatIdInjective(1000, 3000);
      }
    }
    assert store.conversations == [asked] + [NewChat(3000)] + [];
    Appended([asked], NewChat(3000), [], Message("hi there", Bot, 4000));
    assert ReplyBody(Received(Some("hi there"))) == Some("hi there");
    store.ReceiveReply(Received(Some("hi there")), 4000);
    assert NewChat(3000).(messages := [] + [Message("hi there", Bot, 4000)]) == Conversation(ChatId(3000), None, [Message("hi there", Bot, 4000)]);
    convs := store.conversations;
  }
}
