/**
 * The deck and the board of app.js as values: the repeat-avoiding rebuild of
 * `initDeckIfNeeded` and the split `dealBoardFromDeck` makes. The stored deck and the
 * last board are Options: None stands for an entry that is absent or unparsable.
 */
module Deck {
  import opened Wrappers
  import opened Shuffle

  type Word = string

  const BoardSize := 25
  /** `lastWords.slice(0, 100)`: how many entries of the last board a rebuild avoids. */
  const AvoidWindow := 100

  function Min(a: int, b: int): int {
    if a < b then a else b
  }

  /** Each element occurs exactly once. */
  ghost predicate Distinct<T>(s: seq<T>) {
    forall x | x in multiset(s) :: multiset(s)[x] == 1
  }

  /** The `avoid` set: the first 100 entries of the last dealt board (the empty set when there is none). */
  function Avoided(lastBoard: Option<seq<Word>>): set<Word> {
    var last := lastBoard.GetOr([]);
    set w | w in last[..Min(AvoidWindow, |last|)]
  }

  /** `words.filter((w) => !avoid.has(w))`: keeps every occurrence of a word not avoided and
      drops every occurrence of one that is. */
  function Without(words: seq<Word>, avoid: set<Word>): (pool: seq<Word>)
    ensures |pool| <= |words|
    ensures forall w :: multiset(pool)[w] == if w in avoid then 0 else multiset(words)[w]
  {
    if |words| == 0 then []
    else
      assert words == [words[0]] + words[1..];
      (if words[0] in avoid then [] else [words[0]]) + Without(words[1..], avoid)
  }

  /** The condition under which `initDeckIfNeeded` rebuilds: no usable deck, or fewer than 25. */
  predicate NeedsRebuild(stored: Option<seq<Word>>) {
    stored.None? || |stored.value| < BoardSize
  }

  /** A rebuilt deck: the full word list minus the avoided words, shuffled. */
  function Rebuilt(words: seq<Word>, lastBoard: Option<seq<Word>>, draws: Draws): seq<Word>
    requires InRange(draws)
  {
    Shuffled(Without(words, Avoided(lastBoard)), draws)
  }

  /** The deck `initDeckIfNeeded` leaves in the store. */
  function EnsuredDeck(stored: Option<seq<Word>>, words: seq<Word>, lastBoard: Option<seq<Word>>,
                       draws: Draws): seq<Word>
    requires InRange(draws)
  {
    if NeedsRebuild(stored) then Rebuilt(words, lastBoard, draws) else stored.value
  }

  /** `deck.slice(0, 25)`: the board and the rest of the deck partition it; the board has 25
      words exactly when the deck had at least 25. */
  function Board(deck: seq<Word>): (board: seq<Word>)
    ensures board + Rest(deck) == deck
    ensures |board| == Min(BoardSize, |deck|)
    ensures |board| == BoardSize <==> |deck| >= BoardSize
  {
    deck[..Min(BoardSize, |deck|)]
  }

  /** `deck.slice(25)`. */
  function Rest(deck: seq<Word>): seq<Word> {
    deck[Min(BoardSize, |deck|)..]
  }

  /** The existing-board check of the operative screen: a stored board is reused only when it
      is an array of exactly 25 words. */
  predicate Reusable(storedBoard: Option<seq<Word>>) {
    storedBoard.Some? && |storedBoard.value| == BoardSize
  }

  /** A deck whose words are distinct and avoid the last board. */
  ghost predicate FreshFor(deck: seq<Word>, lastBoard: Option<seq<Word>>) {
    Distinct(deck) && forall w | w in deck :: w !in Avoided(lastBoard)
  }

  /** A rebuilt deck holds exactly the words of the list that are not avoided, each as often as
      the list holds it; it may be shorter than 25, and no further fallback applies. */
  lemma RebuiltContents(words: seq<Word>, lastBoard: Option<seq<Word>>, draws: Draws)
    requires InRange(draws)
    ensures |Rebuilt(words, lastBoard, draws)| == |Without(words, Avoided(lastBoard))|
    ensures forall w :: multiset(Rebuilt(words, lastBoard, draws))[w] ==
                        (if w in Avoided(lastBoard) then 0 else multiset(words)[w])
    ensures forall w :: w in Rebuilt(words, lastBoard, draws) <==> w in words && w !in Avoided(lastBoard)
  {
    var pool := Without(words, Avoided(lastBoard));
    ShuffledPermutes(pool, draws);
    var r := Rebuilt(words, lastBoard, draws);
    forall w
      ensures w in r <==> w in words && w !in Avoided(lastBoard)
    {
      assert w in r <==> w in multiset(r);
      assert w in words <==> w in multiset(words);
    }
  }

  /** With a duplicate-free word list, the deck `initDeckIfNeeded` leaves is fresh for the last
      board, provided a kept deck already was. */
  lemma EnsuredDeckIsFresh(stored: Option<seq<Word>>, words: seq<Word>, lastBoard: Option<seq<Word>>,
                           draws: Draws)
    requires InRange(draws)
    requires Distinct(words)
    requires !NeedsRebuild(stored) ==> FreshFor(stored.value, lastBoard)
    ensures FreshFor(EnsuredDeck(stored, words, lastBoard, draws), lastBoard)
  {
    if NeedsRebuild(stored) {
      RebuiltContents(words, lastBoard, draws);
      var r := Rebuilt(words, lastBoard, draws);
      forall x | x in multiset(r)
        ensures multiset(r)[x] == 1
      {
        assert x in r;
      }
    }
  }

  /** A second `initDeckIfNeeded` with no deal in between keeps a deck of at least 25 as it is;
      otherwise it reshuffles the same pool, so the words it holds do not change. */
  lemma EnsureTwice(stored: Option<seq<Word>>, words: seq<Word>, lastBoard: Option<seq<Word>>,
                    first: Draws, second: Draws)
    requires InRange(first) && InRange(second)
    ensures var once := EnsuredDeck(stored, words, lastBoard, first);
      && multiset(EnsuredDeck(Some(once), words, lastBoard, second)) == multiset(once)
      && (|once| >= BoardSize ==> EnsuredDeck(Some(once), words, lastBoard, second) == once)
  {
    var once := EnsuredDeck(stored, words, lastBoard, first);
    if NeedsRebuild(Some(once)) {
      ShuffledPermutes(Without(words, Avoided(lastBoard)), first);
      ShuffledPermutes(Without(words, Avoided(lastBoard)), second);
    }
  }

  /** Dealing from a duplicate-free deck: the board has distinct words, and the rest of the deck
      is fresh for that board, so the next deal from it cannot repeat a word of this one. */
  lemma DealSplitsFresh(deck: seq<Word>, lastBoard: Option<seq<Word>>)
    requires FreshFor(deck, lastBoard)
    ensures Distinct(Board(deck))
    ensures forall w | w in Board(deck) :: w !in Avoided(lastBoard)
    ensures FreshFor(Rest(deck), Some(Board(deck)))
  {
    var board, rest := Board(deck), Rest(deck);
    assert multiset(deck) == multiset(board) + multiset(rest);
    assert Avoided(Some(board)) == set w | w in board;
    forall x | x in multiset(board)
      ensures multiset(board)[x] == 1
    {
      assert multiset(deck)[x] == multiset(board)[x] + multiset(rest)[x];
      assert x in multiset(deck);
    }
    forall x | x in multiset(rest)
      ensures multiset(rest)[x] == 1
    {
      assert multiset(deck)[x] == multiset(board)[x] + multiset(rest)[x];
      assert x in multiset(deck);
    }
    forall w | w in rest
      ensures w !in board
    {
      assert multiset(deck)[w] == multiset(board)[w] + multiset(rest)[w];
    }
  }
}
