/** Two small conversations on which the search and the selection are
    worked through:
    Ann, tagged "VIP" and without messages, and Ben, tagged "Refund". */
module Scenarios {
  import opened Options
  import opened Text
  import opened Records
  import opened Search
  import opened Selection

  function Ann(): Chat {
    Chat("chat-a", "Ann", "1", ["VIP"], "2m ago", 0, Positive, High, [], WhatsApp)
  }

  function Ben(): Chat {
    Chat("chat-b", "Ben", "2", ["Refund"], "1h ago", 1, Negative, High,
         [Message("msg-1", Agent, "ok", "08:50", Some(Delivered), None)], WhatsApp)
  }

  /** A letter no piece of the chat lowers to is not in its haystack. */
  lemma HaystackLacks(chat: Chat, c: char)
    requires c != ' '
    requires forall p, j :: Some(p) in HaystackParts(chat) && 0 <= j < |p| ==> LowerChar(p[j]) != c
    ensures c !in Haystack(chat)
  {
    if c in Haystack(chat) {
      HaystackChar(chat, c);
    }
  }

  /** Ann's haystack, "ann 1 vip", has no letter r; her missing last
      message contributes nothing. */
  lemma AnnLacksR(ann: Chat)
    requires ann == Ann()
    ensures 'r' !in Haystack(ann)
  {
    assert HaystackParts(ann) == [Some("Ann"), Some("1"), Some("VIP"), None];
    HaystackLacks(ann, 'r');
  }

  /** Nor has it a letter z. */
  lemma AnnLacksZ(ann: Chat)
    requires ann == Ann()
    ensures 'z' !in Haystack(ann)
  {
    assert HaystackParts(ann) == [Some("Ann"), Some("1"), Some("VIP"), None];
    HaystackLacks(ann, 'z');
  }

  /** Ben's haystack, "ben 2 refund ok", has no letter z. */
  lemma BenLacksZ(ben: Chat)
    requires ben == Ben()
    ensures 'z' !in Haystack(ben)
  {
    assert HaystackParts(ben) == [Some("Ben"), Some("2"), Some("Refund"), Some("ok")];
    HaystackLacks(ben, 'z');
  }

  lemma NormalizeRefund(query: string)
    requires query == "Refund"
    ensures Normalize(query) == Lower(query)
    ensures Normalize(query) != [] && Normalize(query)[0] == 'r'
  {
    assert query[0] == 'R' && !IsSpace(query[0]);
    assert query[5] == 'd' && !IsSpace(query[5]);
    assert TrimStart(query) == query;
  }

  lemma NormalizeNoMatch(query: string)
    requires query == "zzz-no-match"
    ensures Normalize(query) != [] && Normalize(query)[0] == 'z'
  {
    assert query[0] == 'z' && !IsSpace(query[0]);
    assert query[11] == 'h' && !IsSpace(query[11]);
    assert TrimStart(query) == query;
  }

  lemma BenMatchesRefund(ben: Chat, query: string)
    requires ben == Ben() && query == "Refund"
    ensures Matches(ben, Normalize(query))
  {
    NormalizeRefund(query);
    assert HaystackParts(ben)[2] == Some(query);
    PieceInHaystack(ben, query);
  }

  lemma FilterMatchingPair(a: Chat, b: Chat, needle: string)
    ensures FilterMatching([a, b], needle)
            == (if Matches(a, needle) then [a] else []) + (if Matches(b, needle) then [b] else [])
  {
    assert [b][1..] == [];
    assert FilterMatching([], needle) == [];
    assert FilterMatching([b], needle) == if Matches(b, needle) then [b] else [];
    assert [a, b][1..] == [b];
  }

  /** The filter over a pair of chats with a non-empty query. */
  lemma FilterPair(a: Chat, b: Chat, query: string)
    requires Normalize(query) != []
    ensures FilterChats([a, b], query)
            == (if Matches(a, Normalize(query)) then [a] else [])
               + (if Matches(b, Normalize(query)) then [b] else [])
  {
    FilterMatchingPair(a, b, Normalize(query));
  }

  /** The query "Refund" keeps only the chat tagged "Refund". */
  lemma RefundQuery(ann: Chat, ben: Chat, query: string)
    requires ann == Ann() && ben == Ben() && query == "Refund"
    ensures FilterChats([ann, ben], query) == [ben]
  {
    var needle := Normalize(query);
    NormalizeRefund(query);
    AnnLacksR(ann);
    AbsentChar(Haystack(ann), needle, 0);
    BenMatchesRefund(ben, query);
    FilterPair(ann, ben, query);
  }

  /** A query no haystack contains keeps nothing. */
  lemma NoMatchQuery(ann: Chat, ben: Chat, query: string)
    requires ann == Ann() && ben == Ben() && query == "zzz-no-match"
    ensures FilterChats([ann, ben], query) == []
  {
    var needle := Normalize(query);
    NormalizeNoMatch(query);
    AnnLacksZ(ann);
    BenLacksZ(ben);
    AbsentChar(Haystack(ann), needle, 0);
    AbsentChar(Haystack(ben), needle, 0);
    FilterPair(ann, ben, query);
  }

  /** After selecting Ann and searching "Refund", the list shows only Ben
      while the thread view still shows Ann: the selection is looked up in
      the full list and does not fall back to the first filtered chat. */
  lemma SelectionSurvivesSearch(ann: Chat, ben: Chat, query: string)
    requires ann == Ann() && ben == Ben() && query == "Refund"
    ensures ResolveSelected([ann, ben], Some(ann.id)) == Some(ann)
    ensures ann !in FilterChats([ann, ben], query)
  {
    RefundQuery(ann, ben, query);
    assert ann != ben;
  }

  /** An unknown id shows the first chat; a known one shows its chat. */
  lemma SelectionFallback(ann: Chat, ben: Chat, unknown: string)
    requires ann == Ann() && ben == Ben() && unknown == "chat-z"
    ensures ResolveSelected([ann, ben], Some(unknown)) == Some(ann)
    ensures ResolveSelected([ann, ben], Some(ben.id)) == Some(ben)
  {
    assert ann.id[5] == 'a' && ben.id[5] == 'b' && unknown[5] == 'z';
    assert [ann, ben][1..] == [ben];
    assert FindById([ben], unknown) == None;
    assert FindById([ann, ben], unknown) == None;
  }
}
