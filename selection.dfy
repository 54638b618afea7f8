/** Which conversation the thread view shows. The selected id is looked up
    in the FULL chat list (not the filtered one); when it names no chat the
    first chat is shown, and nothing when there are no chats. */
module Selection {
  import opened Options
  import opened Records

  /** `chats.find(chat => chat.id === id)`, as the index of the first match. */
  function FindById(chats: seq<Chat>, id: string): (r: Option<nat>)
    ensures r.Some? ==> r.value < |chats| && chats[r.value].id == id
    ensures r.Some? ==> forall j :: 0 <= j < r.value ==> chats[j].id != id
    ensures r.None? ==> forall j :: 0 <= j < |chats| ==> chats[j].id != id
  {
    if chats == [] then None
    else if chats[0].id == id then Some(0)
    else match FindById(chats[1..], id)
      case None => None
      case Some(k) => Some(k + 1)
  }

  /** `chats[0]?.id`: the id selected when the page first renders. */
  function InitialSelection(chats: seq<Chat>): (r: Option<string>)
    ensures r.None? <==> chats == []
    ensures r.Some? ==> r.value == chats[0].id
  {
    if chats == [] then None else Some(chats[0].id)
  }

  /** `chats.find((chat) => chat.id === selectedChatId) ?? chats[0]`; an
      undefined selected id matches no chat. */
  function ResolveSelected(chats: seq<Chat>, selectedId: Option<string>): (r: Option<Chat>)
    ensures r.None? <==> chats == []
    ensures r.Some? ==> r.value in chats
    ensures forall j :: 0 <= j < |chats| && selectedId == Some(chats[j].id)
                        && (forall i :: 0 <= i < j ==> chats[i].id != chats[j].id)
                        ==> r == Some(chats[j])
    ensures chats != [] && (selectedId.None? || forall j :: 0 <= j < |chats| ==> Some(chats[j].id) != selectedId)
            ==> r == Some(chats[0])
  {
    var found := if selectedId.Some? then FindById(chats, selectedId.value) else None;
    if found.Some? then Some(chats[found.value])
    else if chats != [] then Some(chats[0])
    else None
  }

  /** The selection the page starts with resolves to the first chat. */
  lemma InitialSelectionResolves(chats: seq<Chat>)
    ensures ResolveSelected(chats, InitialSelection(chats)) == if chats == [] then None else Some(chats[0])
  {
  }

  /** An id that names a chat resolves to a chat with that id. */
  lemma ResolveKnownId(chats: seq<Chat>, id: string)
    requires exists j :: 0 <= j < |chats| && chats[j].id == id
    ensures ResolveSelected(chats, Some(id)).Some?
    ensures ResolveSelected(chats, Some(id)).value.id == id
  {
    var k := FindById(chats, id).value;
  }
}
