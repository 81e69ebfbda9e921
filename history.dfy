/**
 * The history list of app.js: the label each conversation shows in the sidebar, the
 * highlight of the active one, and the search box that hides rows. All of it is computed
 * from the store's state; nothing here changes it.
 */
module History {
  import opened Wrappers
  import opened Conversations
  import Text

  /** The label of a conversation with no title and no messages. */
  const Placeholder := "New Chat"
  /** How many characters of a label are shown before the ellipsis. */
  const MaxShown := 20
  const Ellipsis := "..."
  /** The text of the delete button's icon, a ligature in the Material Icons font. */
  const DeleteIconText := "delete"

  /** `conversation.title || (messages.length > 0 ? messages[0].message : 'New Chat')`. */
  function Label(c: Conversation): (l: string)
    ensures c.title.Some? && c.title.value != "" ==> l == c.title.value
    ensures l == "" ==> (c.title.None? || c.title.value == "") && c.messages != [] && c.messages[0].body == ""
  {
    if c.title.Some? && c.title.value != "" then c.title.value
    else if c.messages != [] then c.messages[0].body
    else Placeholder
  }

  /** `label.substring(0, 20) + (label.length > 20 ? '...' : '')`, for a label `raw`. */
  function Truncate(raw: string): (shown: string)
    ensures |shown| <= MaxShown + |Ellipsis|
    ensures |raw| <= MaxShown ==> shown == raw
    ensures |raw| > MaxShown ==>
      |shown| == MaxShown + |Ellipsis| && shown[..MaxShown] == raw[..MaxShown] && shown[MaxShown..] == Ellipsis
  {
    if |raw| > MaxShown then raw[..MaxShown] + Ellipsis else raw
  }

  /** The text a conversation shows in the history list. */
  function DisplayText(c: Conversation): (t: string)
    ensures |t| <= MaxShown + |Ellipsis|
    ensures |Label(c)| <= MaxShown ==> t == Label(c)
    ensures |Label(c)| > MaxShown ==> t == Label(c)[..MaxShown] + Ellipsis
  {
    Truncate(Label(c))
  }

  /** Which label a conversation shows, case by case, and its length bound. */
  lemma DisplayTextCases(c: Conversation)
    ensures |DisplayText(c)| <= 23
    ensures c.title.Some? && c.title.value != "" ==> DisplayText(c) == Truncate(c.title.value)
    ensures (c.title.None? || c.title.value == "") && c.messages != [] ==> DisplayText(c) == Truncate(c.messages[0].body)
    ensures (c.title.None? || c.title.value == "") && c.messages == [] ==> DisplayText(c) == Placeholder
  {
  }

  /** One row of the history list. */
  datatype HistoryEntry = HistoryEntry(id: string, text: string, isActive: bool)

  /** `updateChatHistoryUI`: one row per conversation, in list order. */
  function Project(convs: seq<Conversation>, active: Option<string>): (rows: seq<HistoryEntry>)
    ensures |rows| == |convs|
    ensures forall i :: 0 <= i < |convs| ==> rows[i].id == convs[i].id && rows[i].text == DisplayText(convs[i])
    ensures forall i :: 0 <= i < |convs| ==> (rows[i].isActive <==> active == Some(convs[i].id))
  {
    seq(|convs|, i requires 0 <= i < |convs| => HistoryEntry(convs[i].id, DisplayText(convs[i]), active == Some(convs[i].id)))
  }

  /**
   * With unique ids and a resolving active pointer, exactly one row is highlighted;
   * with no active conversation, none is.
   */
  lemma OneHighlighted(convs: seq<Conversation>, active: Option<string>)
    requires UniqueIds(convs) && ActiveResolves(convs, active)
    ensures var rows := Project(convs, active);
      (active.Some? ==> exists i :: 0 <= i < |rows| && rows[i].isActive)
      && (forall i, j :: 0 <= i < |rows| && 0 <= j < |rows| && rows[i].isActive && rows[j].isActive ==> i == j)
      && (active.None? ==> forall i :: 0 <= i < |rows| ==> !rows[i].isActive)
  {
    var rows := Project(convs, active);
    if active.Some? {
      var k := IndexOfId(convs, active.value);
      assert rows[k.value].isActive;
    }
  }

  /**
   * The text the search box is matched against, as written: the row's `textContent`,
   * which includes the delete icon's text after the label.
   */
  function ItemText(row: HistoryEntry): string {
    row.text + DeleteIconText
  }

  /** `filterChatHistory` as written: the row stays visible when its whole text contains the term. */
  predicate ShownAsWritten(row: HistoryEntry, term: string) {
    Text.Includes(Text.Lower(ItemText(row)), Text.Lower(term))
  }

  /** The search as intended: the row stays visible when its label contains the term, ignoring case. */
  predicate Shown(row: HistoryEntry, term: string) {
    Text.Includes(Text.Lower(row.text), Text.Lower(term))
  }

  /** The visibility of every row for a search term. */
  function Filter(rows: seq<HistoryEntry>, term: string): (visible: seq<bool>)
    ensures |visible| == |rows|
    ensures forall i :: 0 <= i < |rows| ==> (visible[i] <==> Shown(rows[i], term))
    ensures term == "" ==> forall i :: 0 <= i < |rows| ==> visible[i]
  {
    seq(|rows|, i requires 0 <= i < |rows| => Shown(rows[i], term))
  }

  /** A row is shown exactly when the lowered term occurs somewhere in the lowered label. */
  lemma ShownIffOccurs(row: HistoryEntry, term: string)
    ensures Shown(row, term) <==>
      exists k :: 0 <= k <= |row.text| && Text.OccursAt(Text.Lower(row.text), Text.Lower(term), k)
  {
    Text.IncludesIffOccurs(Text.Lower(row.text), Text.Lower(term));
  }

  /** Every row the intended rule shows, the written rule shows too: the correction only hides rows. */
  lemma ShownImpliesShownAsWritten(row: HistoryEntry, term: string)
    requires Shown(row, term)
    ensures ShownAsWritten(row, term)
  {
    Text.LowerAppend(row.text, DeleteIconText);
    Text.IncludesBeforeSuffix(Text.Lower(row.text), Text.Lower(DeleteIconText), Text.Lower(term));
  }

  /** As written, any term that is part of "delete" keeps every row visible, whatever its label. */
  lemma AsWrittenDeleteMatchesAll(row: HistoryEntry, term: string)
    requires Text.Includes(DeleteIconText, Text.Lower(term))
    ensures ShownAsWritten(row, term)
  {
    Text.LowerAppend(row.text, DeleteIconText);
    assert Text.Lower(DeleteIconText) == DeleteIconText;
    Text.IncludesAfterPrefix(Text.Lower(row.text), DeleteIconText, Text.Lower(term));
  }

  /** A concrete row: searching "delete" keeps the chat labelled "Hi" visible, though "Hi" does not contain it. */
  lemma AsWrittenCounterexample()
    ensures var row := HistoryEntry("chat-1", "Hi", false);
      ShownAsWritten(row, "delete") && !Shown(row, "delete")
  {
    var row := HistoryEntry("chat-1", "Hi", false);
    assert Text.Lower("delete") == "delete";
    assert Text.Includes(DeleteIconText, "delete");
    AsWrittenDeleteMatchesAll(row, "delete");
  }
}
