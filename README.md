# Conversation dashboard core, in Dafny

This project models the logic behind the messaging dashboard's home page
(`src/app/page.tsx`). That logic covers:

- **Conversation search.** The search box text is trimmed and lower-cased.
  A chat is kept when the text occurs in its haystack. The haystack joins
  these pieces with spaces and lower-cases the result:
  - the contact name;
  - the phone number;
  - the tags;
  - the content of the last message.

  Missing and empty pieces are dropped before the join.
- **Selected conversation.** The page state holds a selected chat id. The
  thread view shows the first chat with that id, looked up in the full chat
  list. When the id names no chat, the view shows the first chat.
- **Page state.** The `Home` class holds the search text and the selected id,
  each overwritten by its own event handler.
- **Automation cards.** The read and reply percentages of a sequence are
  rounded to the nearest whole percent. A sequence with nothing delivered
  divides by 1.
- **Status labels.** A message status maps to its capitalised label.

Modules:

- `Options`: JavaScript's `undefined` as `Option`.
- `Text`: `trim`, `toLowerCase`, `includes` and `join(" ")`.
- `Records`: the Chat, Message and Sequence types.
- `Search`: the conversation filter.
- `Selection`: the selected chat.
- `Dashboard`: the page state, as a class.
- `Automation`: the card percentages.
- `Status`: the status labels.
- `Scenarios`: small concrete chats on which the filter and the selection
  are worked through.

The selected id is looked up in the full chat list
(`src/app/page.tsx:251`), not the filtered one, and changing the query never
resets it. So `Dashboard.Home.SetQuery` leaves the shown chat
unchanged, and `Scenarios.SelectionSurvivesSearch` exhibits a shown chat
that the current filter hides.

## Model

| member | source | states |
|---|---|---|
| Text.TrimStart | src/app/page.tsx:256 | the leading white space is removed: the result is a suffix, everything cut is white space, and it does not start with white space |
| Text.TrimEnd | src/app/page.tsx:256 | the trailing white space is removed: the result is a prefix, everything cut is white space, and it does not end with white space |
| Text.Trim | src/app/page.tsx:256 | `trim()` is empty exactly when the string is all white space, and otherwise neither starts nor ends with white space |
| Text.LowerChar | src/app/page.tsx:256 | `toLowerCase()` on one character maps each upper-case ASCII letter to its own lower-case letter and leaves every other character unchanged, so no upper-case letter is left and white space stays white space |
| Text.Lower | src/app/page.tsx:256 | `toLowerCase()` keeps the length and lower-cases each character in place |
| Text.Contains | src/app/page.tsx:270 | the empty needle occurs in every haystack, and an occurring needle is no longer than the haystack |
| Text.Join | src/app/page.tsx:267 | `join(" ")` is the first piece, a space, then the join of the rest; its length is the pieces' total plus one separator between each neighbouring pair |
| Text.TrimPadded | src/app/page.tsx:256 | surrounding white space does not change `trim()` |
| Text.TrimLower | src/app/page.tsx:256 | `trim()` and `toLowerCase()` commute, so the order in the query normalisation does not matter |
| Text.ContainsOccurs | src/app/page.tsx:270 | `includes` holds exactly when the needle occurs at some index |
| Text.ContainsTransitive | src/app/page.tsx:270 | an occurrence inside an occurring part is an occurrence in the whole |
| Text.ContainsLower | src/app/page.tsx:268-270 | lower-casing both sides keeps an occurrence |
| Text.AbsentChar | src/app/page.tsx:270 | a needle holding a character the haystack lacks does not occur |
| Text.JoinContains | src/app/page.tsx:267 | every joined piece occurs in `join(" ")` |
| Text.JoinChar | src/app/page.tsx:267 | every character of `join(" ")` is the separator or a character of some piece |
| Search.LastContent | src/app/page.tsx:264 | the last message's content is undefined exactly when the chat has no messages |
| Search.HaystackParts | src/app/page.tsx:260-265 | the parts are name, phone, each tag in order, then the last message's content, so there are three more parts than tags |
| Search.KeepTruthy | src/app/page.tsx:266 | `filter(Boolean)` keeps exactly the defined, non-empty parts and no more than there were |
| Search.KeepTruthyInOrder | src/app/page.tsx:266 | the kept parts appear in the order of the parts |
| Search.KeepTruthyCounts | src/app/page.tsx:266 | each non-empty string is kept exactly as often as it occurs among the parts |
| Search.Haystack | src/app/page.tsx:260-268 | the joined, lower-cased haystack holds no upper-case letter |
| Search.Normalize | src/app/page.tsx:256 | the normalised query is empty exactly when the query is all white space; otherwise it neither starts nor ends with white space and holds no upper-case letter |
| Search.Matches | src/app/page.tsx:270 | a chat matches exactly when the needle occurs at some index of its haystack |
| Search.FilterMatching | src/app/page.tsx:259-271 | a chat is in the result exactly when it is in the list and its haystack contains the needle |
| Search.FilterChats | src/app/page.tsx:255-272 | an empty normalised query returns the list unchanged; otherwise a chat is kept exactly when its haystack contains the trimmed, lower-cased query |
| Search.FilterMatchingCounts | src/app/page.tsx:259-271 | every matching chat is kept as often as it is listed, and no other chat is kept |
| Search.FilterChatsCounts | src/app/page.tsx:255-272 | `filteredChats` holds each matching chat as often as the list does, and no other chat |
| Search.FilterIsSubsequence | src/app/page.tsx:259 | the filter result is a subsequence of the chat list, in list order, and no chat appears more often than in the list |
| Search.FilterIgnoresPaddingAndCase | src/app/page.tsx:256 | queries that differ only in surrounding white space and letter case give the same result |
| Search.FilterNarrows | src/app/page.tsx:259-271 | a query whose normalised form contains another's keeps a subsequence of that other query's result |
| Search.NormalizeExtends | src/app/page.tsx:256 | the normalised query is a prefix of the normalised form of any extension of it, and so occurs in it |
| Search.FilterNarrowsOnTyping | src/app/page.tsx:255-272 | appending text to the query never brings back a chat the shorter query hid |
| Search.PieceInHaystack | src/app/page.tsx:260-268 | every non-empty name, phone, tag or last content, lower-cased, occurs in the haystack |
| Search.FilterFindsPiece | src/app/page.tsx:255-272 | a listed chat is kept by any query whose normalised form occurs in the lower-cased name, phone, a tag or the last content of that chat |
| Search.HaystackChar | src/app/page.tsx:260-268 | every non-space haystack character is the lower-case form of a character of some part |
| Selection.FindById | src/app/page.tsx:251 | `find` gives the first index whose chat has the id, or none when no chat has it |
| Selection.InitialSelection | src/app/page.tsx:249 | `chats[0]?.id` is undefined exactly for an empty list, and otherwise is the first chat's id |
| Selection.ResolveSelected | src/app/page.tsx:250-253 | the shown chat is absent only for an empty list and is always a listed chat; it is the first chat with the selected id, or `chats[0]` when no chat has it |
| Selection.InitialSelectionResolves | src/app/page.tsx:249-253 | on first render the shown chat is the first chat |
| Selection.ResolveKnownId | src/app/page.tsx:251 | an id that names some chat resolves to a chat with that id |
| Dashboard.Home.constructor | src/app/page.tsx:248-249 | the query starts empty, so the list is unfiltered, and the first chat is shown |
| Dashboard.Home.FilteredChats | src/app/page.tsx:255-272 | the shown list is a subsequence of the chats, holding exactly those that match the current query |
| Dashboard.Home.SelectedChat | src/app/page.tsx:250-253 | the shown chat is absent only when there are no chats and is always one of them |
| Dashboard.Home.SetQuery | src/app/page.tsx:345 | typing replaces the query and refilters the list; the selection and the shown chat do not change |
| Dashboard.Home.SelectChat | src/app/page.tsx:360 | clicking a chat stores its id and leaves the query and the list alone; a known id shows that chat, an unknown one the first chat, and re-selecting the current id changes nothing |
| Automation.Total | src/app/page.tsx:609 | `delivered \|\| 1` is exactly 1 when nothing was delivered and the delivered count otherwise |
| Automation.RoundedPercent | src/app/page.tsx:610-615 | the percentage is the nearest whole number to 100·count/total, halves rounding up |
| Automation.CardPercents | src/app/page.tsx:608-615 | the read and reply percentages are both rounded that way against the same total |
| Automation.RoundedPercentUnique | src/app/page.tsx:610-611 | only one whole number satisfies the rounding bounds |
| Automation.PercentAtMostHundred | src/app/page.tsx:610-611 | a count no larger than the total gives at most 100 |
| Automation.PercentMonotone | src/app/page.tsx:610-615 | a larger count never gives a smaller percentage |
| Automation.PercentExact | src/app/page.tsx:610-611 | when 100·count is a multiple of the total, the percentage is the exact quotient |
| Automation.NothingDelivered | src/app/page.tsx:609-615 | with nothing delivered, the percentages are 100 times the raw read and reply counts |
| Automation.CardPercentsBounded | src/app/page.tsx:608-615 | read and replies no larger than delivered give percentages within 0..100 |
| Automation.WorkedValues | src/app/page.tsx:179-202 | the dashboard's three sequences show 85/50, 88/26 and 82/24 |
| Status.StatusName | src/app/page.tsx:5 | each member of the status union is a non-empty lower-case word |
| Status.StatusLabel | src/app/page.tsx:593-606 | the label is the status name with its first letter capitalised and the rest unchanged |
| Status.StatusNameFromLabel | src/app/page.tsx:593-606 | lower-casing the label's first letter gives back the status name |
| Status.StatusLabelInjective | src/app/page.tsx:593-606 | different statuses get different labels |
| Scenarios.RefundQuery | src/app/page.tsx:255-272 | searching "Refund" over a chat tagged VIP and a chat tagged Refund keeps only the second |
| Scenarios.NoMatchQuery | src/app/page.tsx:255-272 | a query no haystack contains keeps nothing |
| Scenarios.SelectionSurvivesSearch | src/app/page.tsx:250-272 | after the first chat is selected and "Refund" typed, that chat is still shown though the list hides it |
| Scenarios.SelectionFallback | src/app/page.tsx:251 | an unknown id shows the first chat; a known id shows its own chat |

## Left out

- Rendering: the JSX, the badges, the segment pills and the message composer.
- Number formatting: `toLocaleString` and the `toString()` of the percentages.
- Automation.RoundedPercent: counts are whole numbers and the rounding is done exactly. Floating-point error in `read / total * 100` before `Math.round` is not modelled.
- Text.IsSpace: covers ASCII white space, line terminators, no-break space and the byte-order mark. The other Unicode space separators that `trim` also removes are not modelled.
- Text.LowerChar: only ASCII letters are lower-cased, one character at a time. Unicode case mapping is not modelled, and neither are its context-dependent rules. Under the Final_Sigma rule, for example, `"ΑΣ"` lowers to `"ας"` but `"ΑΣΑ"` lowers to `"ασα"`. So `Text.LowerSlice`, `Text.ContainsLower` and `Search.FilterNarrowsOnTyping` hold for the model, but not for the real `toLowerCase()` on such text: `"ΑΣΑ"` contains `"ΑΣ"`, yet `"ασα"` does not contain `"ας"`. There, a chat named "ΑΣΑ" is hidden by the query "ΑΣ" and shown again once "Α" is typed.
- Strings are sequences of characters, so UTF-16 surrogate pairs are not modelled.
- React's `useMemo` caching and its dependency lists are not modelled. The memoised values are modelled as functions of the current state. Neither memo lists `chats` as a dependency, but the list is a constant, so this does not matter.
- The `default: return status` branch of `statusLabel` is not modelled. The status type rules it out.
- The four sample chats of the dashboard are not reproduced. `Scenarios` uses two small chats of the same shape instead. The three sample sequences appear, as their counts, in `Automation.WorkedValues`.
