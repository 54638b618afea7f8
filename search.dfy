/** The conversation search behind the `filteredChats` memo: the query is
    trimmed and lower-cased, an empty query keeps every chat, and otherwise
    a chat stays when its lower-cased haystack contains the query. */
module Search {
  import opened Options
  import opened Text
  import opened Records

  /** Content of the chat's last message, or nothing when it has none. */
  function LastContent(chat: Chat): (r: Option<string>)
    ensures r.None? <==> chat.messages == []
    ensures r.Some? ==> r.value == chat.messages[|chat.messages| - 1].content
  {
    if chat.messages == [] then None else Some(chat.messages[|chat.messages| - 1].content)
  }

  /** The pieces of the haystack before falsy ones are dropped: name,
      phone, every tag in order, then the last message's content. */
  function HaystackParts(chat: Chat): (r: seq<Option<string>>)
    ensures |r| == |chat.tags| + 3
    ensures r[0] == Some(chat.contactName) && r[1] == Some(chat.phone)
    ensures forall k :: 0 <= k < |chat.tags| ==> r[k + 2] == Some(chat.tags[k])
    ensures r[|r| - 1] == LastContent(chat)
  {
    [Some(chat.contactName), Some(chat.phone)]
    + seq(|chat.tags|, k requires 0 <= k < |chat.tags| => Some(chat.tags[k]))
    + [LastContent(chat)]
  }

  /** JavaScript truthiness of a haystack piece: present and not empty. */
  predicate Truthy(p: Option<string>) {
    p.Some? && p.value != []
  }

  /** The kept pieces as the defined values they were among the parts. */
  function Defined(r: seq<string>): (d: seq<Option<string>>)
    ensures |d| == |r| && forall k :: 0 <= k < |r| ==> d[k] == Some(r[k])
  {
    seq(|r|, k requires 0 <= k < |r| => Some(r[k]))
  }

  /** `parts.filter(Boolean)`: the defined, non-empty parts (their order
      and multiplicity are proved in `KeepTruthyInOrder` and
      `KeepTruthyCounts`). */
  function KeepTruthy(parts: seq<Option<string>>): (r: seq<string>)
    ensures |r| <= |parts|
    ensures forall k :: 0 <= k < |r| ==> r[k] != []
    ensures forall s :: s in r <==> Some(s) in parts && s != []
  {
    if parts == [] then []
    else if Truthy(parts[0]) then [parts[0].value] + KeepTruthy(parts[1..])
    else KeepTruthy(parts[1..])
  }

  /** The lower-cased, space-joined text a chat is searched by: no
      upper-case letter is left in it. */
  function Haystack(chat: Chat): (r: string)
    ensures forall i :: 0 <= i < |r| ==> !('A' <= r[i] <= 'Z')
  {
    Lower(Join(KeepTruthy(HaystackParts(chat))))
  }

  /** `query.trim().toLowerCase()`: empty exactly for an all-blank query;
      otherwise it neither starts nor ends with white space and holds no
      upper-case letter. */
  function Normalize(query: string): (r: string)
    ensures |r| <= |query|
    ensures r == [] <==> AllSpace(query)
    ensures r == [] || (!IsSpace(r[0]) && !IsSpace(r[|r| - 1]))
    ensures forall i :: 0 <= i < |r| ==> !('A' <= r[i] <= 'Z')
  {
    Lower(Trim(query))
  }

  /** `haystack.includes(normalized)`: the needle occurs at some index of
      the chat's haystack. */
  predicate Matches(chat: Chat, needle: string)
    ensures Matches(chat, needle) <==> exists i :: OccursAt(Haystack(chat), needle, i)
  {
    ContainsOccurs(Haystack(chat), needle);
    Contains(Haystack(chat), needle)
  }

  /** `chats.filter(...)` with a non-empty normalised needle. */
  function FilterMatching(chats: seq<Chat>, needle: string): (r: seq<Chat>)
    ensures forall c :: c in r <==> c in chats && Matches(c, needle)
  {
    if chats == [] then []
    else if Matches(chats[0], needle) then [chats[0]] + FilterMatching(chats[1..], needle)
    else FilterMatching(chats[1..], needle)
  }

  /** The `filteredChats` value for the current query. */
  function FilterChats(chats: seq<Chat>, query: string): (r: seq<Chat>)
    ensures Normalize(query) == [] ==> r == chats
    ensures forall c :: c in r <==> c in chats && Matches(c, Normalize(query))
  {
    var needle := Normalize(query);
    if needle == [] then
      assert forall c | c in chats :: Matches(c, needle) by {
        forall c | c in chats ensures Matches(c, needle) { ContainsEmpty(Haystack(c)); }
      }
      chats
    else
      FilterMatching(chats, needle)
  }

  /** r is s with some elements left out, the rest in their order. */
  predicate IsSubsequence<T(==)>(r: seq<T>, s: seq<T>)
    decreases |s|
  {
    if r == [] then true
    else if s == [] then false
    else (r[0] == s[0] && IsSubsequence(r[1..], s[1..])) || IsSubsequence(r, s[1..])
  }

  // ---------------------------------------------------------------------
  // Subsequences

  lemma {:induction false} SubsequenceReflexive<T>(s: seq<T>)
    ensures IsSubsequence(s, s)
  {
    if s != [] {
      SubsequenceReflexive(s[1..]);
    }
  }

  /** A subsequence takes each element at most as often as the original. */
  lemma {:induction false} SubsequenceMultiset<T>(r: seq<T>, s: seq<T>)
    requires IsSubsequence(r, s)
    ensures multiset(r) <= multiset(s)
    decreases |s|
  {
    if r != [] {
      assert s == [s[0]] + s[1..];
      if r[0] == s[0] && IsSubsequence(r[1..], s[1..]) {
        SubsequenceMultiset(r[1..], s[1..]);
        assert r == [r[0]] + r[1..];
      } else {
        SubsequenceMultiset(r, s[1..]);
      }
    }
  }

  // ---------------------------------------------------------------------
  // Order and multiplicity of `filter`

  /** `filter(Boolean)` keeps the surviving parts in their order. */
  lemma {:induction false} KeepTruthyInOrder(parts: seq<Option<string>>)
    ensures IsSubsequence(Defined(KeepTruthy(parts)), parts)
  {
    if parts != [] {
      KeepTruthyInOrder(parts[1..]);
      var rest := KeepTruthy(parts[1..]);
      if Truthy(parts[0]) {
        assert Defined([parts[0].value] + rest)[1..] == Defined(rest);
      }
    }
  }

  /** `filter(Boolean)` keeps every non-empty string exactly as often as it
      occurs among the parts. */
  lemma {:induction false} KeepTruthyCounts(parts: seq<Option<string>>, s: string)
    requires s != []
    ensures multiset(KeepTruthy(parts))[s] == multiset(parts)[Some(s)]
  {
    if parts != [] {
      KeepTruthyCounts(parts[1..], s);
      assert parts == [parts[0]] + parts[1..];
    }
  }

  /** The chat filter keeps every matching chat as often as it is listed,
      and no other. */
  lemma {:induction false} FilterMatchingCounts(chats: seq<Chat>, needle: string, c: Chat)
    ensures multiset(FilterMatching(chats, needle))[c] == if Matches(c, needle) then multiset(chats)[c] else 0
  {
    if chats != [] {
      var rest := FilterMatching(chats[1..], needle);
      FilterMatchingCounts(chats[1..], needle, c);
      assert chats == [chats[0]] + chats[1..];
      assert multiset(chats) == multiset{chats[0]} + multiset(chats[1..]);
      if Matches(chats[0], needle) {
        assert FilterMatching(chats, needle) == [chats[0]] + rest;
        assert multiset(FilterMatching(chats, needle)) == multiset{chats[0]} + multiset(rest);
      } else {
        assert FilterMatching(chats, needle) == rest;
      }
    }
  }

  /** `filteredChats` holds each matching chat as often as the chat list
      does, and no other chat. */
  lemma FilterChatsCounts(chats: seq<Chat>, query: string, c: Chat)
    ensures multiset(FilterChats(chats, query))[c]
            == if Matches(c, Normalize(query)) then multiset(chats)[c] else 0
  {
    if Normalize(query) != [] {
      FilterMatchingCounts(chats, Normalize(query), c);
    }
  }

  // ---------------------------------------------------------------------
  // Properties of the filter

  lemma {:induction false} FilterMatchingSubsequence(chats: seq<Chat>, needle: string)
    ensures IsSubsequence(FilterMatching(chats, needle), chats)
  {
    if chats != [] {
      FilterMatchingSubsequence(chats[1..], needle);
      var rest := FilterMatching(chats[1..], needle);
      if Matches(chats[0], needle) {
        assert ([chats[0]] + rest)[1..] == rest;
      }
    }
  }

  /** The filter keeps chats in their original order and adds or repeats
      none: its result is a subsequence of the input. */
  lemma FilterIsSubsequence(chats: seq<Chat>, query: string)
    ensures IsSubsequence(FilterChats(chats, query), chats)
    ensures multiset(FilterChats(chats, query)) <= multiset(chats)
  {
    if Normalize(query) == [] {
      SubsequenceReflexive(chats);
    } else {
      FilterMatchingSubsequence(chats, Normalize(query));
    }
    SubsequenceMultiset(FilterChats(chats, query), chats);
  }

  /** Surrounding white space and letter case do not change the query. */
  lemma NormalizeIgnoresPaddingAndCase(query: string, other: string, pre: string, post: string)
    requires AllSpace(pre) && AllSpace(post)
    requires Lower(other) == Lower(query)
    ensures Normalize(pre + query + post) == Normalize(query)
    ensures Normalize(other) == Normalize(query)
  {
    TrimPadded(pre, query, post);
    TrimLower(other);
    TrimLower(query);
  }

  /** The result depends only on the normalised query. */
  lemma FilterIgnoresPaddingAndCase(chats: seq<Chat>, query: string, other: string, pre: string, post: string)
    requires AllSpace(pre) && AllSpace(post)
    requires Lower(other) == Lower(query)
    ensures FilterChats(chats, pre + query + post) == FilterChats(chats, query)
    ensures FilterChats(chats, other) == FilterChats(chats, query)
  {
    NormalizeIgnoresPaddingAndCase(query, other, pre, post);
  }

  lemma {:induction false} FilterMatchingNarrows(chats: seq<Chat>, wide: string, narrow: string)
    requires Contains(narrow, wide)
    ensures IsSubsequence(FilterMatching(chats, narrow), FilterMatching(chats, wide))
  {
    if chats != [] {
      var c := chats[0];
      var rn := FilterMatching(chats[1..], narrow);
      var rw := FilterMatching(chats[1..], wide);
      FilterMatchingNarrows(chats[1..], wide, narrow);
      if Matches(c, narrow) {
        ContainsTransitive(Haystack(c), narrow, wide);
        assert ([c] + rn)[1..] == rn;
        assert ([c] + rw)[1..] == rw;
      } else if Matches(c, wide) {
        if rn != [] {
          assert ([c] + rw)[1..] == rw;
        }
      }
    }
  }

  /** A query whose normalised form contains another's keeps only chats
      the other keeps, in the same order. */
  lemma FilterNarrows(chats: seq<Chat>, wide: string, narrow: string)
    requires Contains(Normalize(narrow), Normalize(wide))
    ensures IsSubsequence(FilterChats(chats, narrow), FilterChats(chats, wide))
  {
    if Normalize(wide) == [] {
      FilterIsSubsequence(chats, narrow);
    } else if Normalize(narrow) == [] {
      ContainsNothingIn(Normalize(wide));
    } else {
      FilterMatchingNarrows(chats, Normalize(wide), Normalize(narrow));
    }
  }

  lemma {:induction false} TrimEndPrefix(s: string, ext: string)
    ensures TrimEnd(s) <= TrimEnd(s + ext)
    decreases |ext|
  {
    if ext == [] {
      assert s + ext == s;
    } else if IsSpace(ext[|ext| - 1]) {
      var ext' := ext[..|ext| - 1];
      assert (s + ext)[..|s + ext| - 1] == s + ext';
      TrimEndPrefix(s, ext');
    } else {
      assert TrimEnd(s + ext) == s + ext;
    }
  }

  /** The normalised form of a query is a prefix of the normalised form
      of any extension of it, so it occurs there. */
  lemma NormalizeExtends(query: string, ext: string)
    ensures Normalize(query) <= Normalize(query + ext)
    ensures Contains(Normalize(query + ext), Normalize(query))
  {
    var t := TrimStart(query);
    if t == [] {
      assert Normalize(query) == [];
    } else {
      TrimStartConcat(query, ext);
      TrimEndPrefix(t, ext);
      var whole, part := Trim(query + ext), Trim(query);
      assert whole == TrimEnd(t + ext);
      assert whole[..|part|] == part;
      LowerSlice(whole, 0, |part|);
    }
    var n, m := Normalize(query), Normalize(query + ext);
    assert m[0..|n|] == n;
    ContainsAt(m, n, 0);
  }

  /** Typing more characters after a query can only shrink the result. */
  lemma FilterNarrowsOnTyping(chats: seq<Chat>, query: string, ext: string)
    ensures IsSubsequence(FilterChats(chats, query + ext), FilterChats(chats, query))
  {
    NormalizeExtends(query, ext);
    FilterNarrows(chats, query, query + ext);
  }

  /** A non-empty haystack piece, lower-cased, is found in the haystack. */
  lemma PieceInHaystack(chat: Chat, piece: string)
    requires Some(piece) in HaystackParts(chat) && piece != []
    ensures Contains(Haystack(chat), Lower(piece))
  {
    var kept := KeepTruthy(HaystackParts(chat));
    var k :| 0 <= k < |kept| && kept[k] == piece;
    JoinContains(kept, k);
    ContainsLower(Join(kept), piece);
  }

  /** A query found inside a chat's name, phone, a tag or the last
      message's content, ignoring case, keeps that chat. */
  lemma FilterFindsPiece(chats: seq<Chat>, chat: Chat, piece: string, query: string)
    requires chat in chats
    requires Some(piece) in HaystackParts(chat)
    requires Contains(Lower(piece), Normalize(query))
    ensures chat in FilterChats(chats, query)
  {
    if Normalize(query) != [] {
      if piece == [] {
        ContainsNothingIn(Normalize(query));
      }
      PieceInHaystack(chat, piece);
      ContainsTransitive(Haystack(chat), Lower(piece), Normalize(query));
    }
  }

  /** The haystack holds only spaces and lower-cased characters of the
      chat's pieces. */
  lemma HaystackChar(chat: Chat, c: char)
    requires c in Haystack(chat) && c != ' '
    ensures exists p, j :: Some(p) in HaystackParts(chat) && 0 <= j < |p| && LowerChar(p[j]) == c
  {
    var kept := KeepTruthy(HaystackParts(chat));
    var joined := Join(kept);
    var i :| 0 <= i < |Haystack(chat)| && Haystack(chat)[i] == c;
    assert LowerChar(joined[i]) == c;
    JoinChar(kept, i);
    var k, j :| 0 <= k < |kept| && 0 <= j < |kept[k]| && kept[k][j] == joined[i];
    assert kept[k] in kept;
  }
}
