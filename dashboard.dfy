/** The page's own state: the search box text and the selected chat id,
    each overwritten by one event handler, with the chat list fixed. */
module Dashboard {
  import opened Options
  import opened Records
  import opened Search
  import opened Selection

  class Home {
    const chats: seq<Chat>
    /** `useState("")`, written by the search input's `onChange`. */
    var query: string
    /** `useState(chats[0]?.id)`, written by a chat button's `onClick`. */
    var selectedChatId: Option<string>

    constructor (chats: seq<Chat>)
      ensures this.chats == chats
      ensures query == [] && selectedChatId == InitialSelection(chats)
      ensures FilteredChats() == chats
      ensures SelectedChat() == if chats == [] then None else Some(chats[0])
    {
      this.chats := chats;
      query := [];
      selectedChatId := InitialSelection(chats);
      new;
      InitialSelectionResolves(chats);
    }

    /** The conversation list shown for the current query. */
    function FilteredChats(): (r: seq<Chat>)
      reads this
      ensures IsSubsequence(r, chats)
      ensures forall c :: c in r <==> c in chats && Matches(c, Normalize(query))
    {
      FilterIsSubsequence(chats, query);
      FilterChats(chats, query)
    }

    /** The conversation the thread view shows. */
    function SelectedChat(): (r: Option<Chat>)
      reads this
      ensures r.None? <==> chats == []
      ensures r.Some? ==> r.value in chats
    {
      ResolveSelected(chats, selectedChatId)
    }

    /** `setQuery(event.target.value)`: the selection is untouched, so the
        shown chat may be one the new query filters out. */
    method SetQuery(q: string)
      modifies this
      ensures query == q && selectedChatId == old(selectedChatId)
      ensures FilteredChats() == FilterChats(chats, q)
      ensures SelectedChat() == old(SelectedChat())
    {
      query := q;
    }

    /** `setSelectedChatId(chat.id)`: any id is accepted; one that names no
        chat shows the first chat. Selecting the current id again changes
        nothing. */
    method SelectChat(id: string)
      modifies this
      ensures selectedChatId == Some(id) && query == old(query)
      ensures FilteredChats() == old(FilteredChats())
      ensures old(selectedChatId) == Some(id) ==> SelectedChat() == old(SelectedChat())
      ensures (exists j :: 0 <= j < |chats| && chats[j].id == id) ==> SelectedChat().Some? && SelectedChat().value.id == id
      ensures chats != [] && (forall j :: 0 <= j < |chats| ==> chats[j].id != id) ==> SelectedChat() == Some(chats[0])
    {
      selectedChatId := Some(id);
      if exists j :: 0 <= j < |chats| && chats[j].id == id {
        ResolveKnownId(chats, id);
      }
    }
  }
}
