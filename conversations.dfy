/**
 * The conversation records of app.js as values, and each store operation stated as a
 * function from the old list of conversations to the new one. Every function says in
 * its contract which conversation and which message it may change; the class in the
 * Store module updates its fields to exactly these values.
 */
module Conversations {
  import opened Wrappers
  import Text

  datatype Sender = User | Bot

  /** One turn of a conversation: `{message, sender, timestamp}`, the time in milliseconds. */
  datatype Message = Message(body: string, sender: Sender, timestamp: int)

  /** `{id, title, messages}`; `title` is absent until the user renames the chat. */
  datatype Conversation = Conversation(id: string, title: Option<string>, messages: seq<Message>)

  /** The id `createNewChat` gives a chat created at clock reading `now`: `'chat-' + Date.now()`. */
  function ChatId(now: nat): (id: string)
    ensures |id| > 5 && id[..5] == "chat-" && id[5..] == Text.Decimal(now)
  {
    "chat-" + Text.Decimal(now)
  }

  /** Chats created at different clock readings get different ids. */
  lemma ChatIdInjective(a: nat, b: nat)
    requires ChatId(a) == ChatId(b)
    ensures a == b
  {
    assert Text.Decimal(a) == ChatId(a)[5..] == ChatId(b)[5..] == Text.Decimal(b);
    Text.DecimalInjective(a, b);
  }

  /** The fresh, empty conversation `createNewChat` pushes. */
  function NewChat(now: nat): Conversation {
    Conversation(ChatId(now), None, [])
  }

  /** The ids of a list of conversations, in order. */
  function Ids(convs: seq<Conversation>): (r: seq<string>)
    ensures |r| == |convs|
    ensures forall i {:trigger r[i]} :: 0 <= i < |convs| ==> r[i] == convs[i].id
  {
    if convs == [] then [] else [convs[0].id] + Ids(convs[1..])
  }

  /** Some conversation of the list has this id. */
  predicate HasId(convs: seq<Conversation>, id: string) {
    id in Ids(convs)
  }

  /** No id occurs twice. */
  predicate UniqueIds(convs: seq<Conversation>) {
    forall i, j :: 0 <= i < j < |convs| ==> convs[i].id != convs[j].id
  }

  /** The active pointer does not dangle: when set, some conversation carries it. */
  predicate ActiveResolves(convs: seq<Conversation>, active: Option<string>) {
    active.Some? ==> HasId(convs, active.value)
  }

  /**
   * The `localStorage` entry `conversations` mirrors the list: it holds the list, or it is
   * absent and the list is empty (before the first write, and after "delete all").
   */
  predicate WrittenThrough(convs: seq<Conversation>, stored: Option<seq<Conversation>>) {
    stored == Some(convs) || (stored.None? && convs == [])
  }

  /** The position `conversations.find(c => c.id === id)` stops at: the first match. */
  function IndexOfId(convs: seq<Conversation>, id: string): (r: Option<nat>)
    ensures r.Some? ==> r.value < |convs| && convs[r.value].id == id
    ensures r.Some? ==> forall j :: 0 <= j < r.value ==> convs[j].id != id
    ensures r.None? <==> !HasId(convs, id)
  {
    if convs == [] then None
    else if convs[0].id == id then Some(0)
    else match IndexOfId(convs[1..], id)
      case None => None
      case Some(k) => Some(k + 1)
  }

  /** The conversation `find(c => c.id === activeConversationId)` finds; `null` matches none. */
  function Locate(convs: seq<Conversation>, active: Option<string>): (r: Option<nat>)
    ensures r.Some? ==> active.Some? && r == IndexOfId(convs, active.value)
    ensures r.None? <==> !ActiveResolves(convs, active) || active.None?
  {
    if active.None? then None else IndexOfId(convs, active.value)
  }

  /** `conversations.find(c => c.id === id)`, as the loop it performs, giving the position. */
  method FindConversation(convs: seq<Conversation>, id: string) returns (r: Option<nat>)
    ensures r.Some? ==> r.value < |convs| && convs[r.value].id == id
    ensures r.Some? ==> forall j :: 0 <= j < r.value ==> convs[j].id != id
    ensures r.None? ==> forall j :: 0 <= j < |convs| ==> convs[j].id != id
    ensures r == IndexOfId(convs, id)
  {
    var i := 0;
    while i < |convs|
      invariant 0 <= i <= |convs|
      invariant forall j :: 0 <= j < i ==> convs[j].id != id
    {
      if convs[i].id == id {
        assert Ids(convs)[i] == id;
        return Some(i);
      }
      i := i + 1;
    }
    return None;
  }

  /** The position `messages.find(m => m.timestamp equals ts)` stops at: the first match. */
  function IndexOfTimestamp(msgs: seq<Message>, ts: int): (r: Option<nat>)
    ensures r.Some? ==> r.value < |msgs| && msgs[r.value].timestamp == ts
    ensures r.Some? ==> forall j :: 0 <= j < r.value ==> msgs[j].timestamp != ts
    ensures r.None? <==> forall j :: 0 <= j < |msgs| ==> msgs[j].timestamp != ts
  {
    if msgs == [] then None
    else if msgs[0].timestamp == ts then Some(0)
    else match IndexOfTimestamp(msgs[1..], ts)
      case None => None
      case Some(k) => Some(k + 1)
  }

  /** The message search of `updateMessage`, as the loop it performs. */
  method FindMessage(msgs: seq<Message>, ts: int) returns (r: Option<nat>)
    ensures r.Some? ==> r.value < |msgs| && msgs[r.value].timestamp == ts
    ensures r.Some? ==> forall j :: 0 <= j < r.value ==> msgs[j].timestamp != ts
    ensures r.None? ==> forall j :: 0 <= j < |msgs| ==> msgs[j].timestamp != ts
    ensures r == IndexOfTimestamp(msgs, ts)
  {
    var i := 0;
    while i < |msgs|
      invariant 0 <= i <= |msgs|
      invariant forall j :: 0 <= j < i ==> msgs[j].timestamp != ts
    {
      if msgs[i].timestamp == ts {
        return Some(i);
      }
      i := i + 1;
    }
    return None;
  }

  /** `conversations.filter(c => c.id !== id)`. */
  function Without(convs: seq<Conversation>, id: string): (r: seq<Conversation>)
    ensures |r| <= |convs|
  {
    if convs == [] then []
    else
      var rest := Without(convs[1..], id);
      if convs[0].id == id then rest else [convs[0]] + rest
  }

  /** Filtering keeps exactly the conversations with another id. */
  lemma {:induction false} WithoutMembers(convs: seq<Conversation>, id: string)
    ensures forall c :: c in Without(convs, id) <==> c in convs && c.id != id
  {
    if convs != [] {
      WithoutMembers(convs[1..], id);
      assert convs == [convs[0]] + convs[1..];
    }
  }

  /** After filtering, an id is present exactly when it was present and is not the one removed. */
  lemma {:induction false} WithoutIds(convs: seq<Conversation>, id: string)
    ensures forall x :: HasId(Without(convs, id), x) <==> HasId(convs, x) && x != id
  {
    if convs != [] {
      WithoutIds(convs[1..], id);
      var rest := Without(convs[1..], id);
      var ids := Ids(convs);
      assert ids == [convs[0].id] + Ids(convs[1..]);
      if convs[0].id != id {
        var kept := [convs[0]] + rest;
        assert kept[1..] == rest;
        assert Ids(kept) == [convs[0].id] + Ids(rest);
        assert Without(convs, id) == kept;
        forall x ensures HasId(kept, x) <==> HasId(convs, x) && x != id {
          assert HasId(kept, x) <==> x == convs[0].id || HasId(rest, x);
          assert HasId(convs, x) <==> x == convs[0].id || HasId(convs[1..], x);
        }
      } else {
        assert Without(convs, id) == rest;
        forall x ensures HasId(rest, x) <==> HasId(convs, x) && x != id {
          assert HasId(convs, x) <==> x == convs[0].id || HasId(convs[1..], x);
        }
      }
    }
  }

  /** Filtering out an id that no element carries changes nothing. */
  lemma {:induction false} WithoutAbsent(convs: seq<Conversation>, id: string)
    requires forall j :: 0 <= j < |convs| ==> convs[j].id != id
    ensures Without(convs, id) == convs
  {
    if convs != [] {
      WithoutAbsent(convs[1..], id);
      assert convs == [convs[0]] + convs[1..];
    }
  }

  /** Filtering keeps the relative order: it works piece by piece over a concatenation. */
  lemma {:induction false} WithoutAppend(a: seq<Conversation>, b: seq<Conversation>, id: string)
    ensures Without(a + b, id) == Without(a, id) + Without(b, id)
    decreases |a|
  {
    if a == [] {
      assert a + b == b;
    } else {
      assert (a + b)[1..] == a[1..] + b;
      WithoutAppend(a[1..], b, id);
    }
  }

  /** Filtering around one element that carries the id drops just that element. */
  lemma WithoutAroundMatch(pre: seq<Conversation>, c: Conversation, post: seq<Conversation>)
    ensures Without(pre + [c] + post, c.id) == Without(pre, c.id) + Without(post, c.id)
  {
    WithoutAppend(pre + [c], post, c.id);
    WithoutAppend(pre, [c], c.id);
    assert Without([c], c.id) == [];
  }

  /** Removing the one element with the id from a list whose other elements lack it. */
  lemma WithoutSplit(pre: seq<Conversation>, c: Conversation, post: seq<Conversation>)
    requires forall j :: 0 <= j < |pre| ==> pre[j].id != c.id
    requires forall j :: 0 <= j < |post| ==> post[j].id != c.id
    ensures Without(pre + [c] + post, c.id) == pre + post
  {
    WithoutAroundMatch(pre, c, post);
    WithoutAbsent(pre, c.id);
    WithoutAbsent(post, c.id);
  }

  /** With unique ids, deleting the conversation at `k` removes exactly that element. */
  lemma WithoutUnique(convs: seq<Conversation>, k: nat)
    requires UniqueIds(convs) && k < |convs|
    ensures Without(convs, convs[k].id) == convs[..k] + convs[k + 1..]
  {
    var pre, post := convs[..k], convs[k + 1..];
    assert convs == pre + [convs[k]] + post;
    assert forall j :: 0 <= j < |pre| ==> pre[j] == convs[j];
    assert forall j :: 0 <= j < |post| ==> post[j] == convs[k + 1 + j];
    WithoutSplit(pre, convs[k], post);
  }

  /** Filtering keeps ids unique. */
  lemma {:induction false} WithoutKeepsUnique(convs: seq<Conversation>, id: string)
    requires UniqueIds(convs)
    ensures UniqueIds(Without(convs, id))
  {
    if convs != [] {
      var tail := convs[1..];
      assert UniqueIds(tail) by {
        forall i, j | 0 <= i < j < |tail| ensures tail[i].id != tail[j].id {
          assert tail[i] == convs[i + 1] && tail[j] == convs[j + 1];
        }
      }
      WithoutKeepsUnique(tail, id);
      if convs[0].id != id {
        var rest := Without(tail, id);
        WithoutIds(tail, id);
        assert !HasId(tail, convs[0].id) by {
          var ids := Ids(tail);
          assert forall j :: 0 <= j < |ids| ==> ids[j] == convs[j + 1].id;
        }
        assert forall j :: 0 <= j < |rest| ==> rest[j].id != convs[0].id by {
          var ids := Ids(rest);
          assert forall j :: 0 <= j < |rest| ==> ids[j] == rest[j].id;
        }
        var kept := [convs[0]] + rest;
        forall i, j | 0 <= i < j < |kept| ensures kept[i].id != kept[j].id {
          assert kept[j] == rest[j - 1];
          if i > 0 {
            assert kept[i] == rest[i - 1];
          }
        }
      }
    }
  }

  /** `conversations.filter(c => c.id !== id)`, as the loop it performs. */
  method FilterOut(convs: seq<Conversation>, id: string) returns (r: seq<Conversation>)
    ensures r == Without(convs, id)
  {
    r := [];
    var i := 0;
    while i < |convs|
      invariant 0 <= i <= |convs|
      invariant r == Without(convs[..i], id)
    {
      assert convs[..i + 1] == convs[..i] + [convs[i]];
      WithoutAppend(convs[..i], [convs[i]], id);
      if convs[i].id != id {
        r := r + [convs[i]];
      }
      i := i + 1;
    }
    assert convs[..i] == convs;
  }

  /**
   * `saveMessageToHistory` on values: `m` goes at the end of the active conversation's
   * messages; without an active conversation nothing changes.
   */
  function AppendTo(convs: seq<Conversation>, active: Option<string>, m: Message): (r: seq<Conversation>)
    ensures |r| == |convs| && Ids(r) == Ids(convs)
    ensures Locate(convs, active).None? ==> r == convs
    ensures forall k :: Locate(convs, active) == Some(k) ==>
      r[k].title == convs[k].title && r[k].messages == convs[k].messages + [m]
    ensures forall j :: 0 <= j < |convs| && Locate(convs, active) != Some(j) ==> r[j] == convs[j]
  {
    match Locate(convs, active)
    case None => convs
    case Some(k) => convs[k := convs[k].(messages := convs[k].messages + [m])]
  }

  /** `clearCurrentChat` on values: only the active conversation loses its messages. */
  function ClearActive(convs: seq<Conversation>, active: Option<string>): (r: seq<Conversation>)
    ensures |r| == |convs| && Ids(r) == Ids(convs)
    ensures Locate(convs, active).None? ==> r == convs
    ensures forall k :: Locate(convs, active) == Some(k) ==>
      r[k].title == convs[k].title && r[k].messages == []
    ensures forall j :: 0 <= j < |convs| && Locate(convs, active) != Some(j) ==> r[j] == convs[j]
  {
    match Locate(convs, active)
    case None => convs
    case Some(k) => convs[k := convs[k].(messages := [])]
  }

  /** `renameConversation` on values: only the first conversation with this id is retitled. */
  function Retitle(convs: seq<Conversation>, id: string, title: string): (r: seq<Conversation>)
    ensures |r| == |convs| && Ids(r) == Ids(convs)
    ensures !HasId(convs, id) ==> r == convs
    ensures forall k :: IndexOfId(convs, id) == Some(k) ==>
      r[k].title == Some(title) && r[k].messages == convs[k].messages
    ensures forall j :: 0 <= j < |convs| && IndexOfId(convs, id) != Some(j) ==> r[j] == convs[j]
  {
    match IndexOfId(convs, id)
    case None => convs
    case Some(k) => convs[k := convs[k].(title := Some(title))]
  }

  /**
   * The edit of `updateMessage` on one message list: the first message with timestamp `ts`
   * gets the new body; senders, timestamps, order and every other message stay.
   */
  function EditBody(msgs: seq<Message>, ts: int, body: string): (r: seq<Message>)
    ensures |r| == |msgs|
    ensures forall j :: 0 <= j < |msgs| ==> r[j].timestamp == msgs[j].timestamp && r[j].sender == msgs[j].sender
    ensures forall j :: 0 <= j < |msgs| && IndexOfTimestamp(msgs, ts) != Some(j) ==> r[j] == msgs[j]
    ensures forall k :: IndexOfTimestamp(msgs, ts) == Some(k) ==> r[k].body == body
  {
    match IndexOfTimestamp(msgs, ts)
    case None => msgs
    case Some(k) => msgs[k := msgs[k].(body := body)]
  }

  /** A second edit of the same timestamp overrides the first: the last edit wins. */
  lemma EditBodyLastWins(msgs: seq<Message>, ts: int, first: string, second: string)
    ensures EditBody(EditBody(msgs, ts, first), ts, second) == EditBody(msgs, ts, second)
  {
    var once := EditBody(msgs, ts, first);
    assert IndexOfTimestamp(once, ts) == IndexOfTimestamp(msgs, ts) by {
      assert forall j :: 0 <= j < |msgs| ==> once[j].timestamp == msgs[j].timestamp;
      var a, b := IndexOfTimestamp(once, ts), IndexOfTimestamp(msgs, ts);
      if a.Some? && b.Some? {
        assert !(a.value < b.value) && !(b.value < a.value);
      }
    }
  }

  /**
   * `updateMessage` on values: in the active conversation only, the first message with
   * timestamp `ts` gets the new body; no active conversation or no match changes nothing.
   */
  function EditActive(convs: seq<Conversation>, active: Option<string>, ts: int, body: string): (r: seq<Conversation>)
    ensures |r| == |convs| && Ids(r) == Ids(convs)
    ensures Locate(convs, active).None? ==> r == convs
    ensures forall k :: Locate(convs, active) == Some(k) ==>
      r[k].title == convs[k].title && r[k].messages == EditBody(convs[k].messages, ts, body)
    ensures forall k :: Locate(convs, active) == Some(k) && IndexOfTimestamp(convs[k].messages, ts).None? ==>
      r == convs
    ensures forall j :: 0 <= j < |convs| && Locate(convs, active) != Some(j) ==> r[j] == convs[j]
  {
    match Locate(convs, active)
    case None => convs
    case Some(k) => convs[k := convs[k].(messages := EditBody(convs[k].messages, ts, body))]
  }

  /** The first position of an id depends on the ids alone. */
  lemma SameIdsSameIndex(a: seq<Conversation>, b: seq<Conversation>, id: string)
    requires Ids(a) == Ids(b)
    ensures IndexOfId(a, id) == IndexOfId(b, id)
  {
    var ia, ib := IndexOfId(a, id), IndexOfId(b, id);
    assert forall j :: 0 <= j < |a| ==> a[j].id == Ids(a)[j] == Ids(b)[j] == b[j].id;
    assert HasId(a, id) == HasId(b, id);
    if ia.Some? && ib.Some? {
      assert !(ia.value < ib.value) && !(ib.value < ia.value);
    }
  }

  /** When the active pointer resolves, appending puts `m` last in the active conversation. */
  lemma AppendToLands(convs: seq<Conversation>, active: Option<string>, m: Message)
    requires active.Some? && ActiveResolves(convs, active)
    ensures var r := AppendTo(convs, active, m);
      var k := Locate(r, active);
      k.Some? && k == Locate(convs, active) && r[k.value].messages == convs[k.value].messages + [m]
  {
    SameIdsSameIndex(AppendTo(convs, active, m), convs, active.value);
  }

  /** `updateMessage` finds both an active conversation and a message with timestamp `ts` in it. */
  predicate HasEditTarget(convs: seq<Conversation>, active: Option<string>, ts: int) {
    var k := Locate(convs, active);
    k.Some? && IndexOfTimestamp(convs[k.value].messages, ts).Some?
  }

  /** Operations that keep the ids keep the unique-ids property and every resolving pointer. */
  lemma SameIdsPreserve(before: seq<Conversation>, after: seq<Conversation>, active: Option<string>)
    requires Ids(after) == Ids(before)
    ensures UniqueIds(before) ==> UniqueIds(after)
    ensures ActiveResolves(before, active) ==> ActiveResolves(after, active)
  {
    if UniqueIds(before) {
      forall i, j | 0 <= i < j < |after| ensures after[i].id != after[j].id {
        assert Ids(after)[i] == before[i].id && Ids(after)[j] == before[j].id;
      }
    }
  }
}
