/** The flashcard page of the vocabulary list (`VocabPage` in Amiram/src/Vocab.tsx): the user's word
    list, the nine cards drawn from it, and which of those cards are turned over. Every store call
    (select, insert, delete) is a result supplied by the caller; the random draws are a choice oracle. */
module VocabPage {
  import opened Text
  import opened Shuffle

  /** A row of the `user_words` table. */
  datatype VocabWord = VocabWord(id: string, userId: string, englishWord: string, hebrewWord: string, createdAt: string)

  /** The row `handleAddWord` asks the store to insert. */
  datatype NewWord = NewWord(englishWord: string, hebrewWord: string, userId: string)

  datatype Option<T> = None | Some(value: T)

  function Id(w: VocabWord): string { w.id }

  /** The ids in `ws` are pairwise different (the store assigns them). */
  ghost predicate DistinctIds(ws: seq<VocabWord>) {
    DistinctBy(ws, Id)
  }

  // ---- adding a word ----

  /** The form check of `handleAddWord`: both fields are trimmed, and if either is then empty no
      insert is sent. Otherwise the insert carries the trimmed fields, which are non-empty, start
      and end with non-whitespace. */
  function ValidateNewWord(english: string, hebrew: string, userId: string): (r: Option<NewWord>)
    ensures r.None? <==> AllWhitespace(english) || AllWhitespace(hebrew)
    ensures r.Some? ==> r.value.userId == userId
    ensures r.Some? ==> r.value.englishWord == Trim(english) && r.value.hebrewWord == Trim(hebrew)
    ensures r.Some? ==> r.value.englishWord != [] && r.value.hebrewWord != []
    ensures r.Some? ==> !IsWhitespace(r.value.englishWord[0]) && !IsWhitespace(r.value.hebrewWord[0])
    ensures r.Some? ==> && !IsWhitespace(r.value.englishWord[|r.value.englishWord| - 1])
                        && !IsWhitespace(r.value.hebrewWord[|r.value.hebrewWord| - 1])
  {
    TrimEmpty(english);
    TrimEmpty(hebrew);
    TrimSpec(english);
    TrimSpec(hebrew);
    var e := Trim(english);
    var h := Trim(hebrew);
    if e == [] || h == [] then None else Some(NewWord(e, h, userId))
  }

  // ---- deleting a word ----

  /** `words.filter(item => item.id !== id)`. */
  function RemoveId(ws: seq<VocabWord>, id: string): (r: seq<VocabWord>)
    ensures |r| <= |ws|
  {
    if ws == [] then [] else (if ws[0].id != id then [ws[0]] else []) + RemoveId(ws[1..], id)
  }

  /** The filter keeps exactly the words of `ws` whose id is not `id`. */
  lemma {:induction false} RemoveIdMembers(ws: seq<VocabWord>, id: string)
    ensures forall w :: w in RemoveId(ws, id) <==> w in ws && w.id != id
    decreases |ws|
  {
    if ws != [] {
      RemoveIdMembers(ws[1..], id);
      assert ws == [ws[0]] + ws[1..];
    }
  }

  /** Filtering splits over concatenation, so the kept words stay in their original order. */
  lemma {:induction false} RemoveIdConcat(a: seq<VocabWord>, b: seq<VocabWord>, id: string)
    ensures RemoveId(a + b, id) == RemoveId(a, id) + RemoveId(b, id)
    decreases |a|
  {
    if a != [] {
      var head := if a[0].id != id then [a[0]] else [];
      assert (a + b)[0] == a[0] && (a + b)[1..] == a[1..] + b;
      RemoveIdConcat(a[1..], b, id);
      calc {
        RemoveId(a + b, id);
        head + RemoveId(a[1..] + b, id);
        head + (RemoveId(a[1..], id) + RemoveId(b, id));
        (head + RemoveId(a[1..], id)) + RemoveId(b, id);
        RemoveId(a, id) + RemoveId(b, id);
      }
    } else {
      assert a + b == b;
    }
  }

  /** Deleting an id that no word carries leaves the list as it is. */
  lemma {:induction false} RemoveIdAbsent(ws: seq<VocabWord>, id: string)
    requires forall k :: 0 <= k < |ws| ==> ws[k].id != id
    ensures RemoveId(ws, id) == ws
    decreases |ws|
  {
    if ws != [] {
      RemoveIdAbsent(ws[1..], id);
    }
  }

  /** Deleting the same id a second time changes nothing. */
  lemma RemoveIdIdempotent(ws: seq<VocabWord>, id: string)
    ensures RemoveId(RemoveId(ws, id), id) == RemoveId(ws, id)
  {
    var r := RemoveId(ws, id);
    RemoveIdMembers(ws, id);
    assert forall k :: 0 <= k < |r| ==> r[k] in r;
    RemoveIdAbsent(r, id);
  }

  // ---- flipping a card ----

  /** Whether the card `id` shows its Hebrew side: `flippedCards[id]`, with a missing key read as false. */
  function IsFlipped(m: map<string, bool>, id: string): (r: bool)
    ensures r ==> id in m
    ensures id !in m ==> !r
  {
    id in m && m[id]
  }

  /** `{ ...prev, [id]: !prev[id] }`: the card `id` turns over and every other entry stays. */
  function Toggle(m: map<string, bool>, id: string): (r: map<string, bool>)
    ensures IsFlipped(r, id) == !IsFlipped(m, id)
    ensures r.Keys == m.Keys + {id}
    ensures forall k :: k in m && k != id ==> r[k] == m[k]
  {
    m[id := !IsFlipped(m, id)]
  }

  /** Turning a card twice shows the same faces as before. */
  lemma ToggleTwice(m: map<string, bool>, id: string)
    ensures forall k :: IsFlipped(Toggle(Toggle(m, id), id), k) == IsFlipped(m, k)
  {
  }

  /** Turning one card never changes how another card looks. */
  lemma ToggleOthers(m: map<string, bool>, id: string, other: string)
    requires other != id
    ensures IsFlipped(Toggle(m, id), other) == IsFlipped(m, other)
  {
  }

  // ---- the page ----

  /** The cards the words-change effect leaves on the page: a fresh sample, or none for an empty list. */
  function Displayed(ws: seq<VocabWord>, js: seq<nat>): (r: seq<VocabWord>)
    requires ValidChoices(js, |ws|)
    ensures |ws| == 0 ==> r == []
    ensures |r| == Min(MaxCards, |ws|) && multiset(r) <= multiset(ws)
  {
    if |ws| > 0 then Sample(ws, js) else []
  }

  /** Distinct ids in the word list give distinct ids on the cards. */
  lemma DisplayedDistinctIds(ws: seq<VocabWord>, js: seq<nat>)
    requires ValidChoices(js, |ws|) && DistinctIds(ws)
    ensures DistinctIds(Displayed(ws, js))
  {
    if |ws| > 0 {
      SampleDistinctBy(ws, js, Id);
    }
  }

  class Page {
    /** The signed-in user (`session.user.id`). */
    const userId: string
    var words: seq<VocabWord>
    var displayedWords: seq<VocabWord>
    var flippedCards: map<string, bool>
    /** The two text inputs of the add-word form. */
    var englishWord: string
    var hebrewWord: string

    /** The cards on show are a sample of the word list: `Min(9, |words|)` of them, none shown more
        often than it occurs in the list. */
    ghost predicate Valid()
      reads this
      ensures Valid() ==> |displayedWords| <= MaxCards && |displayedWords| <= |words|
      ensures Valid() ==> forall w :: w in displayedWords ==> w in words
    {
      var r := |displayedWords| == Min(MaxCards, |words|) && multiset(displayedWords) <= multiset(words);
      assert r ==> forall w :: w in displayedWords ==> w in multiset(words);
      r
    }

    /** The page as first rendered: no words, no cards, nothing flipped, empty inputs. */
    constructor (userId: string)
      ensures Valid()
      ensures this.userId == userId
      ensures words == [] && displayedWords == [] && flippedCards == map[]
      ensures englishWord == "" && hebrewWord == ""
    {
      this.userId := userId;
      words := [];
      displayedWords := [];
      flippedCards := map[];
      englishWord := "";
      hebrewWord := "";
    }

    /** `reshuffleCards`: shuffles a copy of `words` in place, shows its first nine cards and turns
        every card face up. The word list itself is not touched. */
    method ReshuffleCards(js: seq<nat>)
      requires ValidChoices(js, |words|)
      modifies this
      ensures words == old(words) && englishWord == old(englishWord) && hebrewWord == old(hebrewWord)
      ensures Valid()
      ensures displayedWords == Sample(words, js)
      ensures flippedCards == map[]
    {
      var source := words;
      var shuffled := new VocabWord[|source|](k requires 0 <= k < |source| => source[k]);
      assert shuffled[..] == source;
      ShuffleInPlace(shuffled, js);
      displayedWords := shuffled[..Min(MaxCards, shuffled.Length)];
      flippedCards := map[];
      assert displayedWords == Sample(source, js);
    }

    /** The effect that runs whenever `words` is replaced: a non-empty list is reshuffled, an empty
        one clears the cards but leaves the flip map as it was. */
    method WordsChanged(js: seq<nat>)
      requires ValidChoices(js, |words|)
      modifies this
      ensures words == old(words) && englishWord == old(englishWord) && hebrewWord == old(hebrewWord)
      ensures Valid()
      ensures displayedWords == Displayed(words, js)
      ensures flippedCards == if |words| > 0 then map[] else old(flippedCards)
    {
      if |words| > 0 {
        ReshuffleCards(js);
      } else {
        displayedWords := [];
      }
    }

    /** `fetchWords` with the select's outcome given: rows replace the list (and the effect runs);
        an error keeps the previous list and everything else. */
    method FetchWords(response: Option<seq<VocabWord>>, js: seq<nat>)
      requires Valid()
      requires response.Some? ==> ValidChoices(js, |response.value|)
      modifies this
      ensures Valid()
      ensures englishWord == old(englishWord) && hebrewWord == old(hebrewWord)
      ensures response.Some? ==> words == response.value && displayedWords == Displayed(words, js)
                                  && flippedCards == (if |words| > 0 then map[] else old(flippedCards))
      ensures response.None? ==> words == old(words) && displayedWords == old(displayedWords)
                                  && flippedCards == old(flippedCards)
    {
      if response.Some? {
        words := response.value;
        WordsChanged(js);
      }
    }

    /** Typing in the English input. */
    method SetEnglishWord(text: string)
      requires Valid()
      modifies this
      ensures Valid()
      ensures englishWord == text && hebrewWord == old(hebrewWord)
      ensures words == old(words) && displayedWords == old(displayedWords) && flippedCards == old(flippedCards)
    {
      englishWord := text;
    }

    /** Typing in the Hebrew input. */
    method SetHebrewWord(text: string)
      requires Valid()
      modifies this
      ensures Valid()
      ensures hebrewWord == text && englishWord == old(englishWord)
      ensures words == old(words) && displayedWords == old(displayedWords) && flippedCards == old(flippedCards)
    {
      hebrewWord := text;
    }

    /** `handleAddWord`: returns the insert it sends, if any. A failed form check sends nothing and
        changes nothing; so does an insert the store rejects. A stored row goes to the front of the
        list, ahead of the old list unchanged, the inputs are cleared and the cards are redrawn. */
    method HandleAddWord(response: Option<VocabWord>, js: seq<nat>) returns (request: Option<NewWord>)
      requires Valid()
      requires ValidChoices(js, |words| + 1)
      modifies this
      ensures Valid()
      ensures request == ValidateNewWord(old(englishWord), old(hebrewWord), userId)
      ensures request.Some? && response.Some? ==>
                && words == [response.value] + old(words)
                && englishWord == "" && hebrewWord == ""
                && displayedWords == Sample(words, js) && flippedCards == map[]
      ensures request.None? || response.None? ==>
                && words == old(words) && displayedWords == old(displayedWords)
                && flippedCards == old(flippedCards)
                && englishWord == old(englishWord) && hebrewWord == old(hebrewWord)
    {
      request := ValidateNewWord(englishWord, hebrewWord, userId);
      if request.None? {
        return;
      }
      if response.Some? {
        words := [response.value] + words;
        englishWord := "";
        hebrewWord := "";
        WordsChanged(js);
      }
    }

    /** `handleDelete`: returns whether the delete was sent, which is whether the user confirmed.
        When the store reports success every word with that id leaves the list, the others keep their
        order, and the effect redraws the cards (none when the list is now empty). A cancelled or
        failed delete changes nothing. */
    method HandleDelete(id: string, confirmed: bool, deleted: bool, js: seq<nat>) returns (sent: bool)
      requires Valid()
      requires ValidChoices(js, |words|)
      modifies this
      ensures Valid()
      ensures sent == confirmed
      ensures englishWord == old(englishWord) && hebrewWord == old(hebrewWord)
      ensures confirmed && deleted ==>
                && words == RemoveId(old(words), id)
                && displayedWords == Displayed(words, js)
                && flippedCards == (if |words| > 0 then map[] else old(flippedCards))
      ensures !(confirmed && deleted) ==>
                words == old(words) && displayedWords == old(displayedWords) && flippedCards == old(flippedCards)
    {
      sent := confirmed;
      if !confirmed {
        return;
      }
      if deleted {
        words := RemoveId(words, id);
        WordsChanged(js);
      }
    }

    /** `toggleCard`: the card `id` turns over; nothing else on the page changes. */
    method ToggleCard(id: string)
      requires Valid()
      modifies this
      ensures Valid()
      ensures flippedCards == Toggle(old(flippedCards), id)
      ensures words == old(words) && displayedWords == old(displayedWords)
      ensures englishWord == old(englishWord) && hebrewWord == old(hebrewWord)
    {
      flippedCards := Toggle(flippedCards, id);
    }
  }
}
