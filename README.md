# Codenames companion: deck, board, key and reveal history

This project models the core of `app.js`, the single script of a browser companion for the
Codenames word game. The model covers:

- **The word list.** `loadWords` takes the first pack's words from the catalog and trims and
  upper-cases each one. The result is cached; an empty cache is loaded again.
- **The shuffle.** An in-place Fisher-Yates shuffle on an array.
- **The deck.** `initDeckIfNeeded` keeps a stored deck of at least 25 words. Otherwise it
  rebuilds the deck from the full word list, drops every word among the first 100 entries of
  the last dealt board, and shuffles the result.
- **Dealing.** `dealBoardFromDeck` refills the deck if needed, deals its first 25 words as the
  board, keeps the rest as the deck, records the board and clears the reveal history.
- **Entering the operative screen.** A stored board is reused only when it has exactly 25 words.
- **The spymaster key.** `desiredCounts` and `genKey`: a shuffled 9/8/7/1 colour key.
- **The reveal history.** Revealing, clearing, undoing and resetting tiles, with a colour per tile.

Files and modules:

- `wrappers.dfy` (`Wrappers`): `Option`. `None` means a store entry that is absent or
  unparsable; other JSON shapes are not modelled (see "Left out").
- `words.dfy` (`Words`): the catalog, `trim` and `toUpperCase`, and the normalising map.
- `shuffle.dfy` (`Shuffle`): `Shuffle` works in place on an `array`. It is proved equal to the
  specification function `Shuffled`, and `Shuffled` is proved to be a permutation.
- `key.dfy` (`Key`): colours, `desiredCounts`, and the nested push loop `KeyCells`.
- `deck.dfy` (`Deck`): the pure parts of the deck and the board. These are the filter, the
  rebuild, the 25-word split, and the freshness lemmas.
- `app.dfy` (`App`): the class `AppState`. Its fields are the persisted entries (`deck`,
  `lastBoard`, `history`, `key`) and the in-memory state (`words`, tile count, tile colours).
  Its methods are the handlers.

Randomness is an oracle. `draws(i)` is the index `Math.floor(Math.random() * (i + 1))` drawn when
the loop is at position `i`, so every draw satisfies `draws(i) <= i`. Where the source shuffles
twice in one handler (the operative-screen entry can rebuild the deck twice), each shuffle gets
its own oracle.

Facts about app.js that shape the model:

- Only the first pack (`packs[0]`) is read.
- A deal from a deck still under 25 words after the rebuild gives a board shorter than 25.
- A failed fetch rejects `loadWords`, and the operative-screen handler stops with nothing changed.
- The avoid window is the first 100 entries of the last board, so the whole previous board is avoided.

## Model

| member | source | states |
|---|---|---|
| `Words.TrimStart` | app.js:57 | trimming the front leaves a suffix of the input; every character cut is whitespace, and the suffix does not start with whitespace |
| `Words.TrimEnd` | app.js:57 | trimming the end leaves a prefix of the input; every character cut is whitespace, and the prefix does not end with whitespace |
| `Words.UpperCharFacts` | app.js:57 | upper-casing a character neither creates nor removes whitespace, never yields a lower-case ASCII letter, and is idempotent |
| `Words.TrimmedSlice` | app.js:57 | `trim` keeps a slice `w[lo..hi]` of the word, cuts only whitespace outside it, and leaves no whitespace at either end |
| `Words.UpperOfTrimmed` | app.js:57 | upper-casing a string with no whitespace at its ends gives a normalised word |
| `Words.NormalizeWordShape` | app.js:56-58 | a loaded word has no whitespace at either end and no lower-case letter; it is the upper-casing of a slice of the raw word from which only whitespace was cut |
| `Words.NormalizedIsFixed` | app.js:56-58 | a word already in normal form is left unchanged by the normalisation |
| `Words.NormalizeIdempotent` | app.js:56-58 | normalising a word twice gives the same as normalising it once |
| `Words.NormalizeAllNormalized` | app.js:56-58 | the loaded list has one entry per word of the first pack, and every entry is normalised |
| `Words.FirstPackWords` | app.js:56 | `data?.packs?.[0]?.words`, defaulting to []: the first pack's words, or [] when the catalog, its packs, the first pack or its words are missing |
| `Words.IsWhitespace` | app.js:57 | the characters `trim` strips: the ECMAScript WhiteSpace and LineTerminator characters |
| `Words.Trim` | app.js:57 | `.trim()`: leading and then trailing whitespace cut |
| `Words.UpperChar` | app.js:57 | `.toUpperCase()` on one character, for the ASCII letters a to z; every other character unchanged |
| `Words.ToUpper` | app.js:57 | `.toUpperCase()` on a string, character by character, same length |
| `Words.NormalizeWord` | app.js:57 | `String(w).trim().toUpperCase()` for one word |
| `Words.NormalizeAll` | app.js:56-58 | the `.map` of the normalisation over the first pack's words, in order |
| `Shuffle.Swap` | app.js:65 | the array with cells `i` and `j` exchanged |
| `Shuffle.ShuffleFrom` | app.js:63-66 | the loop's remaining steps from position `i` down to 1, each swapping `i` with the drawn `j <= i` |
| `Shuffle.Shuffled` | app.js:62-68 | what `shuffle` leaves in the array: the loop run from the last position down to 1 (nothing for an empty array) |
| `Shuffle.SwapPermutes` | app.js:65 | one swap keeps the length and the multiset of the array |
| `Shuffle.ShuffleFromPermutes` | app.js:63-66 | the remaining loop steps from position `i` down to 1 keep the length and the multiset |
| `Shuffle.ShuffledPermutes` | app.js:62-68 | `shuffle` returns a permutation of its input, with the same length and the same multiset |
| `Shuffle.Shuffle` | app.js:62-68 | the in-place loop leaves in the array exactly `Shuffled(old contents)`: cell `i` is swapped with a drawn `j <= i` for `i` from the last cell down to 1; the result is a permutation |
| `Shuffle.ShuffledCopy` | app.js:78 | `shuffle([...xs])` yields `Shuffled(xs)`, a permutation of `xs` |
| `Deck.NeedsRebuild` | app.js:73 | the rebuild condition: no usable stored deck, or fewer than 25 words |
| `Deck.Avoided` | app.js:75-76 | the avoid set: the words among the first 100 entries of the last board (the empty set when none is stored) |
| `Deck.Rebuilt` | app.js:75-78 | the full word list without the avoided words, shuffled |
| `Deck.EnsuredDeck` | app.js:72-79 | the deck left in the store: the stored one when it needs no rebuild, otherwise `Rebuilt` |
| `Deck.Rest` | app.js:87 | `deck.slice(25)`: everything after the board ([] for a deck of at most 25) |
| `Deck.Reusable` | app.js:297 | the existing-board check: a stored board of exactly 25 words |
| `Deck.Without` | app.js:76-77 | the filter is no longer than the list; a word in the avoid set occurs 0 times, any other word as often as in the list |
| `Deck.Board` | app.js:86-87 | `deck.slice(0, 25) ++ deck.slice(25)` is the deck; the board has `min(25, |deck|)` words, so exactly 25 only when the deck had at least 25 |
| `Deck.RebuiltContents` | app.js:73-79 | a rebuilt deck holds exactly the non-avoided words, each as often as the list holds it, and has the filter's length; it may be shorter than 25, with no further fallback |
| `Deck.EnsuredDeckIsFresh` | app.js:71-81 | with a duplicate-free word list, the deck `initDeckIfNeeded` leaves has distinct words, none of them avoided; a kept deck must already have been so |
| `Deck.EnsureTwice` | app.js:71-81 | a second call with no deal in between keeps a deck of at least 25 as it is; otherwise it reshuffles the same pool, so the deck's words do not change |
| `Deck.DealSplitsFresh` | app.js:84-88 | dealing from a fresh deck gives a board of distinct words, none avoided; the rest is distinct and shares no word with the new board |
| `Key.DesiredCounts` | app.js:238-244 | the entries red 9, blue 8, gray 7, black 1 when the first team is "red", and blue 9, red 8, gray 7, black 1 for every other value, in `Object.entries` order |
| `Key.Expand` | app.js:249-251 | the cells the nested push loop builds: each entry's colour repeated its count times, entries in order |
| `Key.Repeat` | app.js:250 | the inner push loop: one colour pushed `n` times |
| `Key.RepeatCount` | app.js:250 | pushing a colour `n` times adds `n` cells of that colour and no other |
| `Key.ExpandFour` | app.js:249-251 | four count entries expand to four runs of cells, in entry order |
| `Key.FourRunsCount` | app.js:249-251 | in four runs of four distinct colours, a colour occurs as often as its run is long |
| `Key.DesiredCellsHaveQuota` | app.js:238-251 | the cells built from `desiredCounts(t)` number 25, with 9 red and 8 blue when `t` is "red", 9 blue and 8 red for any other `t`, 7 gray and 1 black |
| `Key.KeyCells` | app.js:246-251 | the nested push loop builds exactly the expanded counts, and they meet the quota |
| `Key.ShuffledKeyHasQuota` | app.js:246-255 | shuffling the cells keeps the quota, whatever the draws |
| `App.AppState.constructor` | app.js:33-35 | page load: the stored entries as read back, an empty word cache, no tiles and no colours |
| `App.AppState.LoadWords` | app.js:52-60 | a non-empty cache is kept; otherwise a received catalog replaces it with the first pack's words, normalised; a failed fetch changes nothing; all cached words stay normalised |
| `App.AppState.InitDeckIfNeeded` | app.js:71-81 | the deck becomes `EnsuredDeck`: unchanged when it held at least 25 words, rebuilt otherwise; nothing else changes; with a duplicate-free word list, a fresh stored deck (`DeckFresh`) stays fresh |
| `App.AppState.DealBoardFromDeck` | app.js:83-94 | board and rest are the split of the deck after any refill; the last board is the board; history and tile colours are empty; with distinct words and a fresh stored deck (`DeckFresh`), the board is distinct, avoids the previous board, and the rest stays fresh |
| `App.AppState.OpenOps` | app.js:293-305 | a stored board of exactly 25 words is reused with its history and uncoloured tiles; otherwise init then deal, each with its own draws; a failed fetch changes nothing |
| `App.AppState.ApplyColorToTile` | app.js:154-170 | a colour paints the tile and appends exactly `(idx, colour)` to the history; no colour uncolours the tile and keeps the history |
| `App.AppState.ClearTile` | app.js:186-196 | the clear button uncolours the tile and keeps the history |
| `App.AppState.Undo` | app.js:200-215 | an empty history changes nothing; otherwise only the last entry is removed, and its tile is uncoloured entirely, with no earlier colour restored |
| `App.AppState.Reset` | app.js:216-232 | every tile is uncoloured and the history is empty; the deck, board and key are untouched |
| `App.AppState.GenKey` | app.js:246-256 | the stored key is replaced by `{firstTeam, Shuffled(cells)}`, which meets the 9/8/7/1 quota; nothing else changes |
| `App.RevealThenUndo` | app.js:154-215 | a reveal followed by an undo restores the history, uncolours that tile and leaves every other tile as it was; the word list, deck, last board, key and tile count are unchanged |

## Left out

- Fetching `words.json` and parsing JSON in `ls.get`/`ls.set` are I/O. The catalog arrives as a
  `Response` value, and each store entry is a typed field.
- The store and the catalog are modelled as typed values: an entry is either a sequence of the
  expected kind or None, and None is read as the source's default. Values of another JSON shape
  are not modelled, and the source does not treat them all as absent. A JSON `null` or non-array
  object in the last-board entry makes a rebuild throw at `lastWords.slice`. A string there is
  sliced, so its characters are avoided. A JSON `null`, object, number or boolean in the deck
  entry makes `dealBoardFromDeck` throw, at `deck.length` or at `deck.slice`. A long string there
  is sliced as it is. A truthy non-array `words` in the first pack makes `.map` throw, so
  `loadWords` rejects.
- A failing `localStorage.setItem` (quota exceeded) throws in the source and is not modelled.
- `String(w)` on non-string catalog entries is not modelled; words arrive as strings.
- `toUpperCase` is modelled on ASCII letters only. Non-ASCII case mapping (which can also change
  a string's length) is not. `trim` uses the full ECMAScript whitespace and line-terminator set.
- Uniformity of the shuffle cannot be stated. Only the permutation property is proved, with
  `draws(i) <= i` standing for `Math.floor(Math.random() * (i + 1))`.
- The in-memory `opsHistory` and the stored history are one field. Every handler that uses either
  one writes both, and the operative-screen entry loads the stored one before any tile exists.
- Rendering is left out: tile creation, CSS classes, popup positioning (floating-point geometry),
  event wiring, navigation, scrolling and `renderKey`. The screen is kept only as a tile count and
  a colour per tile. Re-rendering (a deal, or reusing a stored board) clears all colours.
- The spymaster button's choice of `firstTeam` (the checked radio, or "blue") is UI. `GenKey`
  receives the chosen value.
