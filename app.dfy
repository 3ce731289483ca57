/**
 * The state of app.js, persisted and in memory, and the handlers that change it: loading
 * the words, rebuilding the deck, dealing a board, entering the operative screen, revealing,
 * clearing, undoing and resetting tiles, and generating the spymaster key.
 */
module App {
  import opened Wrappers
  import opened Shuffle
  import opened Words
  import opened Deck
  import opened Key

  /** One entry `{ idx, type }` of the reveal history. */
  datatype Reveal = Reveal(idx: nat, kind: Color)

  /** The stored key `{ firstTeam, key }`. */
  datatype KeyState = KeyState(firstTeam: string, key: seq<Color>)

  /** What fetching the catalog gives: a rejection (of `fetch` or of `res.json()`), or the
      document's `packs`, None when it is missing or not an array. */
  datatype Response = Unavailable | Received(packs: Option<seq<Pack>>)

  class AppState {
    /** `WORDS_ALL`: the cached, normalised word list. */
    var words: seq<Word>
    /** The stored deck (`cn.deck.v1`). */
    var deck: Option<seq<Word>>
    /** The stored last dealt board (`cn.words.v1`). */
    var lastBoard: Option<seq<Word>>
    /** The reveal history (`cn.history.v1`, mirrored in memory as `opsHistory`). */
    var history: seq<Reveal>
    /** The stored key (`cn.key.v1`). */
    var key: Option<KeyState>
    /** How many tiles the operative board shows. */
    var tileCount: nat
    /** The colour each coloured tile shows; an uncoloured tile has no entry. */
    var colors: map<nat, Color>

    ghost predicate Valid()
      reads this
    {
      && (forall i | i in colors :: i < tileCount)
      && (forall w | w in words :: IsNormalized(w))
    }

    /** A stored deck that will be kept is fresh for the last board. */
    ghost predicate DeckFresh()
      reads this
    {
      !NeedsRebuild(deck) ==> FreshFor(deck.value, lastBoard)
    }

    /** Page load: the stored entries as read back (None when absent or corrupt), an empty
        word cache and no tiles yet. */
    constructor (storedDeck: Option<seq<Word>>, storedBoard: Option<seq<Word>>,
                 storedHistory: Option<seq<Reveal>>, storedKey: Option<KeyState>)
      ensures Valid()
      ensures words == [] && deck == storedDeck && lastBoard == storedBoard
      ensures history == storedHistory.GetOr([]) && key == storedKey
      ensures tileCount == 0 && colors == map[]
    {
      words := [];
      deck := storedDeck;
      lastBoard := storedBoard;
      history := storedHistory.GetOr([]);
      key := storedKey;
      tileCount := 0;
      colors := map[];
    }

    /** `loadWords`: a non-empty cache is kept and nothing is fetched; otherwise the first
        pack's words are normalised into the cache. A failed fetch changes nothing and is
        reported as `loaded == false`. */
    method LoadWords(response: Response) returns (loaded: bool)
      requires Valid()
      modifies this
      ensures Valid()
      ensures loaded <==> |old(words)| > 0 || response.Received?
      ensures words == if |old(words)| == 0 && response.Received?
                       then NormalizeAll(FirstPackWords(response.packs)) else old(words)
      ensures deck == old(deck) && lastBoard == old(lastBoard) && history == old(history)
      ensures key == old(key) && tileCount == old(tileCount) && colors == old(colors)
    {
      if |words| > 0 {
        return true;
      }
      if response.Unavailable? {
        return false;
      }
      words := NormalizeAll(FirstPackWords(response.packs));
      NormalizeAllNormalized(FirstPackWords(response.packs));
      return true;
    }

    /** `initDeckIfNeeded`: a stored deck of at least 25 words is kept as it is; otherwise the
        deck becomes the word list minus the last board's first 100 words, shuffled. */
    method InitDeckIfNeeded(draws: Draws)
      requires InRange(draws)
      modifies this
      ensures deck == Some(EnsuredDeck(old(deck), words, lastBoard, draws))
      ensures !NeedsRebuild(old(deck)) ==> deck == old(deck)
      ensures words == old(words) && lastBoard == old(lastBoard) && history == old(history)
      ensures key == old(key) && tileCount == old(tileCount) && colors == old(colors)
      ensures Distinct(words) && old(DeckFresh()) ==> FreshFor(deck.value, lastBoard)
    {
      if NeedsRebuild(deck) {
        var pool := Without(words, Avoided(lastBoard));
        var shuffled := ShuffledCopy(pool, draws);
        deck := Some(shuffled);
      }
      if Distinct(words) && old(DeckFresh()) {
        EnsuredDeckIsFresh(old(deck), words, lastBoard, draws);
      }
    }

    /** `dealBoardFromDeck`: refills a deck shorter than 25, deals its first 25 words (fewer when
        the refilled deck is short) as the board, keeps the rest as the deck, records the board
        as the last board, clears the history and renders fresh, uncoloured tiles. */
    method DealBoardFromDeck(draws: Draws)
      requires Valid()
      requires InRange(draws)
      modifies this
      ensures Valid()
      ensures var dealt := EnsuredDeck(old(deck), words, old(lastBoard), draws);
              && lastBoard == Some(Board(dealt)) && deck == Some(Rest(dealt))
              && tileCount == |Board(dealt)|
      ensures history == [] && colors == map[]
      ensures words == old(words) && key == old(key)
      ensures Distinct(words) && old(DeckFresh()) ==>
                && Distinct(lastBoard.value)
                && (forall w | w in lastBoard.value :: w !in Avoided(old(lastBoard)))
                && DeckFresh()
    {
      var d := deck.GetOr([]);
      if |d| < BoardSize {
        InitDeckIfNeeded(draws);
        d := deck.GetOr([]);
      }
      ghost var dealt := EnsuredDeck(old(deck), words, old(lastBoard), draws);
      assert d == dealt;
      if Distinct(words) && old(DeckFresh()) {
        EnsuredDeckIsFresh(old(deck), words, old(lastBoard), draws);
        DealSplitsFresh(d, old(lastBoard));
      }
      var board := Board(d);
      var rest := Rest(d);
      lastBoard := Some(board);
      deck := Some(rest);
      history := [];
      tileCount := |board|;
      colors := map[];
    }

    /** The operative-screen entry: after `loadWords`, a stored board of exactly 25 words is
        shown again with the stored history and uncoloured tiles; any other stored board makes
        it run `initDeckIfNeeded` and then `dealBoardFromDeck`, each with its own draws. */
    method OpenOps(response: Response, first: Draws, second: Draws) returns (shown: bool)
      requires Valid()
      requires InRange(first) && InRange(second)
      modifies this
      ensures Valid()
      ensures shown <==> |old(words)| > 0 || response.Received?
      ensures key == old(key)
      ensures !shown ==>
                && words == old(words) && deck == old(deck) && lastBoard == old(lastBoard)
                && history == old(history) && tileCount == old(tileCount) && colors == old(colors)
      ensures shown ==> words == if |old(words)| > 0 then old(words)
                                  else NormalizeAll(FirstPackWords(response.packs))
      ensures shown && Reusable(old(lastBoard)) ==>
                && lastBoard == old(lastBoard) && deck == old(deck) && history == old(history)
                && tileCount == BoardSize && colors == map[]
      ensures shown && !Reusable(old(lastBoard)) ==>
                var once := EnsuredDeck(old(deck), words, old(lastBoard), first);
                var dealt := EnsuredDeck(Some(once), words, old(lastBoard), second);
                && lastBoard == Some(Board(dealt)) && deck == Some(Rest(dealt))
                && history == [] && colors == map[] && tileCount == |Board(dealt)|
      ensures shown && !Reusable(old(lastBoard)) && Distinct(words) && old(DeckFresh()) ==>
                && Distinct(lastBoard.value)
                && (forall w | w in lastBoard.value :: w !in Avoided(old(lastBoard)))
                && DeckFresh()
    {
      shown := LoadWords(response);
      if !shown {
        return;
      }
      if Reusable(lastBoard) {
        tileCount := BoardSize;
        colors := map[];
      } else {
        InitDeckIfNeeded(first);
        DealBoardFromDeck(second);
      }
    }

    /** `applyColorToTile`: a colour paints the tile and pushes `(idx, colour)` onto the history;
        no colour uncolours the tile and leaves the history alone. */
    method ApplyColorToTile(idx: nat, kind: Option<Color>)
      requires Valid() && idx < tileCount
      modifies this
      ensures Valid()
      ensures kind.Some? ==> colors == old(colors)[idx := kind.value]
                             && history == old(history) + [Reveal(idx, kind.value)]
      ensures kind.None? ==> colors == old(colors) - {idx} && history == old(history)
      ensures words == old(words) && deck == old(deck) && lastBoard == old(lastBoard)
      ensures key == old(key) && tileCount == old(tileCount)
    {
      colors := colors - {idx};
      if kind.Some? {
        colors := colors[idx := kind.value];
        history := history + [Reveal(idx, kind.value)];
      }
    }

    /** The popup's clear button: uncolours the tile without touching the history. */
    method ClearTile(idx: nat)
      requires Valid() && idx < tileCount
      modifies this
      ensures Valid()
      ensures colors == old(colors) - {idx} && history == old(history)
      ensures words == old(words) && deck == old(deck) && lastBoard == old(lastBoard)
      ensures key == old(key) && tileCount == old(tileCount)
    {
      colors := colors - {idx};
    }

    /** Undo: with an empty history nothing changes; otherwise the last entry is popped and its
        tile uncoloured entirely, whatever colour it showed before that reveal. */
    method Undo()
      requires Valid()
      modifies this
      ensures Valid()
      ensures old(history) == [] ==> history == [] && colors == old(colors)
      ensures old(history) != [] ==>
                && history == old(history)[..|old(history)| - 1]
                && colors == old(colors) - {old(history)[|old(history)| - 1].idx}
      ensures words == old(words) && deck == old(deck) && lastBoard == old(lastBoard)
      ensures key == old(key) && tileCount == old(tileCount)
    {
      if history == [] {
        return;
      }
      var last := history[|history| - 1];
      colors := colors - {last.idx};
      history := history[..|history| - 1];
    }

    /** Reset: every tile uncoloured and the history emptied. */
    method Reset()
      requires Valid()
      modifies this
      ensures Valid()
      ensures history == [] && colors == map[]
      ensures words == old(words) && deck == old(deck) && lastBoard == old(lastBoard)
      ensures key == old(key) && tileCount == old(tileCount)
    {
      colors := map[];
      history := [];
    }

    /** `genKey`: builds the 25 cells of `desiredCounts(firstTeam)`, shuffles them and stores
        them with `firstTeam`, replacing any earlier key. */
    method GenKey(firstTeam: string, draws: Draws) returns (state: KeyState)
      requires InRange(draws)
      modifies this
      ensures key == Some(state) && state.firstTeam == firstTeam
      ensures state.key == Shuffled(Expand(DesiredCounts(firstTeam)), draws)
      ensures HasQuota(firstTeam, state.key)
      ensures words == old(words) && deck == old(deck) && lastBoard == old(lastBoard)
      ensures history == old(history) && tileCount == old(tileCount) && colors == old(colors)
    {
      var cells := KeyCells(firstTeam);
      cells := ShuffledCopy(cells, draws);
      ShuffledKeyHasQuota(firstTeam, draws);
      state := KeyState(firstTeam, cells);
      key := Some(state);
    }
  }

  /** A reveal followed at once by an undo leaves the history as it was and that tile
      uncoloured, every other tile as it was. */
  method RevealThenUndo(app: AppState, idx: nat, kind: Color)
    requires app.Valid() && idx < app.tileCount
    modifies app
    ensures app.Valid()
    ensures app.history == old(app.history)
    ensures app.colors == old(app.colors) - {idx}
    ensures app.words == old(app.words) && app.deck == old(app.deck) && app.lastBoard == old(app.lastBoard)
    ensures app.key == old(app.key) && app.tileCount == old(app.tileCount)
  {
    app.ApplyColorToTile(idx, Some(kind));
    app.Undo();
  }
}
