# Vocabulary flashcards, modelled in Dafny

This project models the flashcard part of the vocabulary page of the Amiram data tracker
(`VocabPage` in `Amiram/src/Vocab.tsx`). The page holds the signed-in user's word list
(`words`), the up to nine cards drawn from it for study (`displayedWords`), and a map from
word id to "turned over" (`flippedCards`). The page does four things with them:

- it draws the cards with a Fisher-Yates shuffle of a copy of the list, keeping the first nine;
- it redraws the cards whenever the list is replaced;
- it adds a word after trimming and checking the two form fields, and deletes a word by id;
- it turns single cards over.

Files:

- `text.dfy` (module `Text`): JavaScript's `String.prototype.trim`, with the ECMAScript
  whitespace and line-terminator characters.
- `shuffle.dfy` (module `Shuffle`): the swap loop as a specification function (`ShuffleFrom`,
  `FisherYates`) with lemmas about it, the same loop in place on an array (`ShuffleInPlace`), and the nine-card
  sample (`Sample`). The random draw `Math.floor(Math.random() * (i + 1))` is a choice oracle
  `js` with `0 <= js[i] <= i` (`ValidChoices`). Every property holds for every such oracle.
- `vocab_page.dfy` (module `VocabPage`): the word record, the form check, the delete filter, the
  flip map, and the class `Page` with the state of the page and one method per handler.

Every call to the hosted store is a result passed in by the caller: `FetchWords` takes the select's
rows or `None`, `HandleAddWord` takes the inserted row or `None`, and `HandleDelete` takes a
success flag. The delete confirmation dialog is the boolean `confirmed`. Each handler is one
atomic step: it reads the state, takes the store's answer, and writes the new state. Every
`setWords` installs a new array, so the words-change effect runs after the handler's update is
committed. The handlers model this by calling `WordsChanged` as their last step. Because of that,
each handler's oracle must cover the list as it is after the update.

The class invariant `Page.Valid` says that the cards on show are a sample of the list. There are
`Min(9, |words|)` of them, and none is shown more often than it occurs in the list. Every handler
keeps this invariant.

The code (`Vocab.tsx` lines 43-47) does not reset `flippedCards` when the list becomes empty; only
`displayedWords` is cleared. `WordsChanged`, `FetchWords` and `HandleDelete` therefore keep the old
flip map in that case.

## Model

| member | source | states |
|---|---|---|
| Text.IsWhitespace | Amiram/src/Vocab.tsx:93-94 | the characters `trim` strips are the ECMAScript WhiteSpace and LineTerminator characters; every one of them lies in the Basic Multilingual Plane, so code points and UTF-16 units agree |
| Text.TrimStart | Amiram/src/Vocab.tsx:93-94 | dropping leading whitespace never lengthens the string; `Text.TrimStartSpec` characterises the result fully |
| Text.TrimEnd | Amiram/src/Vocab.tsx:93-94 | dropping trailing whitespace never lengthens the string; `Text.TrimEndSpec` characterises the result fully |
| Text.Trim | Amiram/src/Vocab.tsx:93-94 | `trim` never lengthens the string; `Text.TrimSpec` and `Text.TrimEmpty` characterise the result fully |
| Text.TrimStartSpec | Amiram/src/Vocab.tsx:93-94 | removing leading whitespace keeps a suffix of the input that does not start with whitespace, and everything removed is whitespace |
| Text.TrimEndSpec | Amiram/src/Vocab.tsx:93-94 | removing trailing whitespace keeps a prefix of the input that does not end with whitespace, and everything removed is whitespace |
| Text.TrimSpec | Amiram/src/Vocab.tsx:93-94 | a trimmed field is the input without its leading and trailing whitespace: a contiguous piece that neither starts nor ends with whitespace, with only whitespace before and after it |
| Text.TrimEmpty | Amiram/src/Vocab.tsx:93-96 | a field trims to the empty string exactly when it is whitespace only |
| Text.TrimIdempotent | Amiram/src/Vocab.tsx:93-94 | trimming an already trimmed field changes nothing |
| Shuffle.Swap | Amiram/src/Vocab.tsx:59 | the destructuring swap keeps the length; `Shuffle.SwapFacts` states what it exchanges |
| Shuffle.ShuffleFrom | Amiram/src/Vocab.tsx:57-60 | the steps `i, i - 1, ..., 1` of the descending loop keep the length; `Shuffle.ShuffleFromPermutation` and `Shuffle.ShuffleFromKeepsAbove` state the permutation and the final suffix |
| Shuffle.FisherYates | Amiram/src/Vocab.tsx:57-60 | the whole loop, started at the last index, keeps the length; it is the function `Shuffle.ShuffleInPlace` is proved equal to |
| Shuffle.SwapFacts | Amiram/src/Vocab.tsx:59 | the destructuring swap exchanges positions `i` and `j`, leaves every other position alone, and keeps the multiset of elements |
| Shuffle.ShuffleFromPermutation | Amiram/src/Vocab.tsx:54-60 | the descending swap loop yields a permutation of the copied list (same multiset), for any draws |
| Shuffle.ShuffleFromKeepsAbove | Amiram/src/Vocab.tsx:57-59 | the steps from `i` down never touch a position above `i`, so a position the loop has passed is final |
| Shuffle.ShuffleInPlace | Amiram/src/Vocab.tsx:57-60 | the in-place loop leaves the array equal to the Fisher-Yates shuffle of its old contents for the given draws, and a permutation of them; its loop invariant says the suffix above `i` already holds its final values |
| Shuffle.Sample | Amiram/src/Vocab.tsx:62-63 | the cards are exactly `Min(9, n)` elements of the list, each one an element of the list, none more often than it occurs there; with at most nine words, all of them are shown |
| Shuffle.SwapDistinctBy | Amiram/src/Vocab.tsx:59 | a swap keeps the keys of a sequence pairwise distinct |
| Shuffle.ShuffleFromDistinctBy | Amiram/src/Vocab.tsx:57-60 | the shuffle keeps the keys of a sequence pairwise distinct, for any draws |
| Shuffle.SampleDistinctBy | Amiram/src/Vocab.tsx:51-63 | if the list has distinct keys, so do the cards drawn from it ("nine distinct words"), for any draws |
| VocabPage.ValidateNewWord | Amiram/src/Vocab.tsx:93-103 | no insert is sent exactly when either field is whitespace only; otherwise the insert carries both trimmed fields, which are non-empty and start and end with non-whitespace, and the session's user id |
| VocabPage.RemoveId | Amiram/src/Vocab.tsx:165 | the delete filter never lengthens the list; `VocabPage.RemoveIdMembers` and `VocabPage.RemoveIdConcat` state what it keeps and in which order |
| VocabPage.RemoveIdMembers | Amiram/src/Vocab.tsx:165 | a word is left after the delete exactly when it was in the list and does not have the deleted id |
| VocabPage.RemoveIdConcat | Amiram/src/Vocab.tsx:165 | the filter splits over concatenation, so the words kept stay in their original relative order |
| VocabPage.RemoveIdAbsent | Amiram/src/Vocab.tsx:165 | deleting an id that no word has leaves the list unchanged |
| VocabPage.RemoveIdIdempotent | Amiram/src/Vocab.tsx:165 | deleting the same id twice is the same as deleting it once |
| VocabPage.IsFlipped | Amiram/src/Vocab.tsx:177 | reading `prev[id]` (line 177) or `flippedCards[word.id]` (line 246) as a boolean: a card counts as flipped only when its id is in the map, so a missing id reads as not flipped |
| VocabPage.Toggle | Amiram/src/Vocab.tsx:177 | the toggled card's state is the negation of its old state (missing reads as not flipped); every other entry keeps its value, and only the toggled id can be added as a key |
| VocabPage.ToggleTwice | Amiram/src/Vocab.tsx:176-178 | toggling a card twice shows every card as before |
| VocabPage.ToggleOthers | Amiram/src/Vocab.tsx:176-178 | toggling one card does not change how any other card shows |
| VocabPage.Displayed | Amiram/src/Vocab.tsx:42-47 | an empty list gives no cards; otherwise `Min(9, n)` cards, none shown more often than it occurs in the list |
| VocabPage.DisplayedDistinctIds | Amiram/src/Vocab.tsx:42-63 | when the word ids are distinct, the ids of the cards the effect shows are distinct |
| VocabPage.Page.Valid | Amiram/src/Vocab.tsx:42-63 | the page invariant: at most nine cards and never more than there are words, every card is a word of the list, and no card is shown more often than the word occurs |
| VocabPage.Page.constructor | Amiram/src/Vocab.tsx:28-35 | the page starts with no words, no cards, an empty flip map and empty inputs |
| VocabPage.Page.ReshuffleCards | Amiram/src/Vocab.tsx:52-67 | the cards become the sample of the shuffled copy, the flip map becomes empty, and the word list and inputs are untouched |
| VocabPage.Page.WordsChanged | Amiram/src/Vocab.tsx:42-49 | a non-empty list is reshuffled and its flips reset; an empty list clears the cards and keeps the flip map; the list is untouched |
| VocabPage.Page.FetchWords | Amiram/src/Vocab.tsx:69-88 | on success the rows replace the list and the cards are redrawn; on failure nothing changes |
| VocabPage.Page.SetEnglishWord | Amiram/src/Vocab.tsx:306 | typing replaces the English input and nothing else |
| VocabPage.Page.SetHebrewWord | Amiram/src/Vocab.tsx:316 | typing replaces the Hebrew input and nothing else |
| VocabPage.Page.HandleAddWord | Amiram/src/Vocab.tsx:90-140 | the insert sent is the form check's result; a stored row is put at index 0 ahead of the unchanged old list, the inputs are cleared and the cards are redrawn; a failed check or a rejected insert changes nothing |
| VocabPage.Page.HandleDelete | Amiram/src/Vocab.tsx:142-174 | the delete is sent exactly when the user confirms; on success the list is filtered by id and the cards are redrawn, with no cards once the list is empty; a cancelled or failed delete changes nothing |
| VocabPage.Page.ToggleCard | Amiram/src/Vocab.tsx:176-178 | the flip map becomes the toggle of the old one; words, cards and inputs are unchanged |

## Left out

- Supabase select, insert and delete (lines 71-75, 105-115, 156): remote I/O. Each is a result supplied by the caller. The store's filter by user and its ordering by `created_at` are therefore not modelled.
- `Math.random` and `Math.floor` (line 58): floating-point and non-deterministic. They are replaced by the choice oracle.
- Uniformity of the sample (each word is drawn with probability `Min(9, n) / n`): a probabilistic property, outside what the oracle model states.
- The `Swal` dialogs and toasts: user interface. The delete confirmation is the boolean `confirmed`.
- `formatDate` (lines 20-25): it depends on `Date` and `Intl` locale formatting.
- `isLoading` and `e.preventDefault()`: only affect what is rendered.
- React hooks and effect scheduling: the effect is modelled as a synchronous step at the end of each handler. The handler's intermediate render, between `setWords` and the effect, is not modelled. React batches state updates that land before a single commit, and then runs the effect once; the model always runs it once per handler.
- `HandleAddWord`, `HandleDelete`, `FetchWords`: each is one atomic step, but in the page `handleAddWord`, `handleDelete` and `fetchWords` wait on the store (lines 71, 105, 143, 156) between reading the state and writing it, so calls can overlap. The model does not capture the interleavings. A second submit before the first insert returns still sees the uncleared inputs and inserts the same word twice; in the model the second call sees empty inputs and sends nothing. Text typed while an insert is pending is erased by `setEnglishWord("")` and `setHebrewWord("")` (lines 125-126). The functional updates `prev => ...` (lines 124, 165) that combine overlapping handlers correctly are modelled only as updates of the current list.
- The fetch on session change (lines 37-39), `sortedWords` (line 181, the list itself) and the JSX rendering.
- `Amiram/src/Auth.tsx`, `Amiram/src/App.tsx` and `Amiram/src/LoadingIndicator.tsx`: authentication, navigation and presentational markup, with no local logic to model.
- The score statistics and level logic of the tracker page: its source file is not part of this model.
- JavaScript strings are UTF-16 code-unit sequences; here they are sequences of Unicode scalar values. `trim` only removes Basic Multilingual Plane characters, so trimming agrees.
