# Boggle game creation, modelled in Dafny

This project models how the Boggle server (`andrewlcja/boggle`) turns a board string and a
dictionary into the set of valid words of a new game, and proves what that set is.

The pipeline of `createGame` has these steps:

- The board string is lower-cased, its spaces are removed, it is split on commas, and the
  tokens are cut into rows of `BOARD_LENGTH` (4) tiles (`convertBoardTo2DArray`).
- The wildcard tiles `*` are counted. A board with more than 8 is refused (`calculateWildcards`).
- The dictionary trie is built: every dictionary line is trimmed, lower-cased and added to the
  `Trie` (`init`, `Trie.add`). The trie marks the end of a word with the key `!`, which holds
  the word itself. A line that itself contains `!` is modelled too. Its `!` letter may find a
  child object under that key, or may replace an empty stored word with a new child. It may
  also find a stored non-empty word. Then the cursor becomes a string, and because class code
  is strict the next store throws a TypeError. That exception escapes `init`, and
  `createGame` never answers (`InitThrew`).
- All cells are marked unvisited. Then `explore` runs from every tile with the trie root as
  cursor. `explore` walks the board depth first:
  - it follows the trie child named by the tile, or every child for a wildcard;
  - it records the end marker of each trie node it reaches as a key of `validWords`. A child
    object under `!` becomes the key `[object Object]`. The key `__proto__` is never
    created, because assigning to it only reaches the inherited accessor;
  - it continues to the in-bounds king-move neighbours (`getNeighbours`);
  - it never uses a cell twice on one path.

Modules, one per concern:

- `Config`: the constants `BOARD_LENGTH`, `END_SYMBOL` and `WILDCARD_SYMBOL`, and the limit of 8 wildcards.
- `JsString`: the JavaScript string primitives the engine uses. These are `toLowerCase`
  (ASCII letters), `trim` (the ECMAScript white-space and line-terminator set), the removal
  of spaces, and `split` on one character.
- `TrieIndex`: the trie as an arena of nodes. Node 0 is the root. Each node holds a map from
  keys to child indices and an optional end marker. The key `!` holds either a child or a
  stored word, never both (`Slotted`). `AddFrom` is what `add` does for any word, and says
  whether it throws. `InsertFrom` is the same for words without `!` added to a trie with no `!` child (a
  `Labelled` trie), where it never throws (`AddFromClean`).
  `Trie` is a class whose `Add` updates the arena in place. `Init` adds every normalised
  line until an add throws.
  The ghost `labels` field gives each node its path string. The invariant `Labelled` says
  that walking that string from the root leads back to the node, and that every marker
  equals its node's path string.
- `Board`: `ConvertBoardTo2DArray` and `CalculateWildcards`, specified by the pure
  `BoardOf` and `WildcardCount`.
- `Neighbourhood`: `GetNeighbours`, proved equal to a reference list. The reference list
  tries the eight offsets in the same order and keeps those inside the grid.
- `Search`: what the search finds, as reference definitions.
  - `Found` and `Gain` follow `explore`'s recursion cell by cell.
  - `Reach` states the same set without recursion: the end markers of the trie nodes reached
    along the letters of a simple path of adjacent cells.
  - `SolutionsAreSpelledWords` is the main theorem. For a trie built from lines without `!`,
    the search from every tile finds exactly the non-empty trie words that some simple path
    of matching tiles spells, except `__proto__`. A wildcard matches any letter.
- `Game`: the imperative search.
  - `Explorer` holds the board, the trie, the shared `visited` grid (an `array2<bool>`) and
    `validWords`.
  - `Explore` marks and unmarks cells in place. It is proved to leave `visited` as it found
    it, and to add exactly `Found` to `validWords`.
  - `CreateGame` puts the pipeline together. It returns `TooManyWildcards`, `InitThrew`, or
    `Created` with what the search finds in the loaded trie. When no line contains `!`, that
    is exactly the non-empty dictionary words spelled on the board, except `__proto__`.
- `Scenarios`: one worked game, the board `*,b` with the dictionary lines ab, xb and cc, and
  one game whose dictionary lines ab and ab! make `init` throw.

The dictionary and the board string are parameters. The file reads of the source are not
modelled.

## Model

| member | source | states |
|---|---|---|
| JsString.LowerChar | api/controller.js:214 | the letters A-Z map to a-z, 32 code points up; every other character is unchanged |
| JsString.ToLower | model/trie.js:45 | keeps the length and maps each character by LowerChar, position by position |
| JsString.ToLowerIdempotent | model/trie.js:45 | lower-casing an already lower-cased string changes nothing |
| JsString.TrimSlice | model/trie.js:45 | trim keeps one contiguous slice `s[lo..hi]`: all before it and all after it is white space, and it neither starts nor ends with white space |
| JsString.LeadingSpaceExact | model/trie.js:45 | the leading white space that trim skips is all white space and is followed by a non-space or the end |
| JsString.TrailingSpaceExact | model/trie.js:45 | the trailing white space that trim drops is all white space and is preceded by a non-space or the start |
| JsString.TrimBlank | model/trie.js:45 | a line made only of white space trims to the empty string |
| JsString.RemoveSpaces | api/controller.js:214 | the result has no U+0020, is no longer than the input, and every other character keeps its count |
| JsString.RemoveSpacesAppend | api/controller.js:214 | removing spaces from a concatenation is removing them from each part and concatenating, so the kept characters stay in order |
| JsString.RemoveSpacesNoSpace | api/controller.js:214 | a string without spaces is returned unchanged |
| JsString.Split | api/controller.js:214 | split is never empty, no piece holds the separator, and joining the pieces with the separator gives the input back |
| JsString.SplitJoin | api/controller.js:214 | splitting a join of separator-free pieces gives the pieces back, so split is the inverse of join |
| Board.Tokens | api/controller.js:214 | the normalised board string yields at least one token |
| Board.ChunkFlatten | api/controller.js:216-219 | cutting the tokens into rows loses and reorders nothing |
| Board.ChunkShape | api/controller.js:216-219 | there are ceil(n / BOARD_LENGTH) rows; every row but the last is full and the last is non-empty |
| Board.ChunkWellShaped | api/controller.js:216-219 | the rows form a board with at least one row and none longer than the first |
| Board.ConvertBoardTo2DArray | api/controller.js:211-222 | the push loop returns `BoardOf(board)`, whose rows read in order give back the tokens, with the shape of ChunkShape |
| Board.WildcardsAtMostTiles | api/controller.js:225-237 | a board never has more wildcards than tiles |
| Board.CalculateWildcards | api/controller.js:225-237 | the nested loop counts exactly the `*` tiles, at most the number of tiles |
| Neighbourhood.ShiftsInGridMembers | api/controller.js:295-325 | a cell is kept exactly when it is inside the grid and is the shift of the centre by one of the offsets |
| Neighbourhood.ShiftsInGridDistinct | api/controller.js:295-325 | distinct offsets give a list without duplicates |
| Neighbourhood.NeighboursExact | api/controller.js:292-328 | the reference neighbour list holds exactly the in-grid cells at king-move distance, never the centre, no cell twice, at most 8 |
| Neighbourhood.NeighboursUnrolled | api/controller.js:295-325 | the reference list is the eight guarded steps in the source's order |
| Neighbourhood.PushStep | api/controller.js:295-297 | one guarded push appends the step for its offset exactly when the shifted cell is inside the grid |
| Neighbourhood.NeighboursAssembled | api/controller.js:293-327 | the eight successive pushes build the reference list |
| Neighbourhood.GetNeighbours | api/controller.js:292-328 | the eight guards produce the reference list, in the source's order; membership is exactly "in grid and adjacent"; no duplicates, not the centre, at most 8 |
| TrieIndex.Walk | model/trie.js:20-27 | a walk by the empty string stays put; a successful walk ends inside the arena |
| TrieIndex.WalkSnoc | model/trie.js:20-27 | walking one more letter takes one more child step from where the walk ended |
| TrieIndex.WalkExtends | model/trie.js:20-27 | adding nodes and children never changes a walk that already succeeded |
| TrieIndex.WalkLabel | model/trie.js:20-27 | in a labelled trie, walking s from node n ends at the node whose path string is n's path string followed by s |
| TrieIndex.MarkerIsPath | model/trie.js:29-30 | the marker of a node spells the path from the root to it, and no other string leads there |
| TrieIndex.InsertFrom | model/trie.js:20-30 | inserting keeps the arena closed and never shrinks it |
| TrieIndex.Inserted | model/trie.js:16-31 | the arena after add stays closed |
| TrieIndex.InsertFacts | model/trie.js:20-30 | add only appends nodes and children, never replaces one, and stores the word at the node its letters lead to |
| TrieIndex.InsertedRetrievable | model/trie.js:16-31 | after add(word) the word leads from the root to a node whose marker is the word |
| TrieIndex.InsertedExtends | model/trie.js:22-24 | add never removes or replaces an existing child |
| TrieIndex.InsertExisting | model/trie.js:20-30 | along a path that already exists, add only rewrites the marker at its end |
| TrieIndex.InsertedIdempotent | model/trie.js:16-31 | adding the same word twice leaves the trie as adding it once |
| TrieIndex.InsertedMarkers | model/trie.js:16-31 | in a labelled trie, add(word) adds exactly `word` to the set of stored words |
| TrieIndex.InsertedKeepsWords | model/trie.js:16-31 | every word stored before add can still be retrieved afterwards, with its marker unchanged |
| TrieIndex.GrowLabelled | model/trie.js:22-24 | creating a missing child, labelled by the parent's path string and the letter, keeps the trie labelled |
| TrieIndex.MarkLabelled | model/trie.js:30 | storing a node's own path string as its marker keeps the trie labelled |
| TrieIndex.Stored | model/trie.js:30 | the final store sets the end marker to the word, drops a child that was under `!`, and keeps every letter child |
| TrieIndex.AddFrom | model/trie.js:20-30 | add from a cursor keeps the arena closed and never shrinks it, in every case: store, follow, grow, or throw at a stored non-empty word |
| TrieIndex.AddWord | model/trie.js:16-31 | add from the root keeps the arena closed |
| TrieIndex.AddFromClean | model/trie.js:20-30 | for a word without `!` on an arena with no `!` child, add never throws and is the insertion InsertFrom |
| TrieIndex.AddFromSlotted | model/trie.js:22-30 | add leaves each `!` key holding one value: a child or a stored word |
| TrieIndex.AddFollows | model/trie.js:20-27 | along letters whose children already exist, add only moves the cursor |
| TrieIndex.AddPastWordThrows | model/trie.js:22-26 | once a non-empty word v is stored, adding v followed by `!` throws and changes nothing, because the cursor meets the stored string |
| TrieIndex.InsertLabelling | model/trie.js:20-30 | adding a word without `!` keeps a labelled trie labelled |
| TrieIndex.PlainLineKept | model/trie.js:45 | a line with no white space and no capital letter is its own trimmed, lower-cased form |
| TrieIndex.BlankLineMarksRoot | model/trie.js:44-46 | a blank dictionary line becomes the empty word, whose marker lands on the root |
| TrieIndex.Build | model/trie.js:44-46 | the arena built from lines without throwing is closed |
| TrieIndex.Load | model/trie.js:35-52 | the arena init builds from any lines, stopping at the first add that throws, is closed |
| TrieIndex.LoadThrown | model/trie.js:44-46 | once an add has thrown, the later lines change nothing |
| TrieIndex.DictionaryWordsSnoc | model/trie.js:44-46 | one more line adds its normalised form to the dictionary words |
| TrieIndex.BuildLabelled | model/trie.js:35-52 | for lines without `!`, init never throws, builds `Build(lines)`, which is labelled, and stores exactly the normalised lines |
| TrieIndex.Trie.constructor | model/trie.js:11-13 | a new trie is a single empty root and stores no words |
| TrieIndex.Trie.Add | model/trie.js:16-31 | for any word the cursor loop turns the arena into `AddWord(old, word)` and reports whether add threw, keeping every `!` key single-valued; for a word without `!` in a labelled trie it does not throw, the arena is `Inserted(old, word)`, stays labelled, and exactly the word is added to the stored words |
| TrieIndex.Init | model/trie.js:35-52 | for any lines the trie and the throw flag are `Load(lines)`: the normalised lines added in order up to the first add that throws; when no line contains `!`, nothing throws, the trie is `Build(lines)`, labelled, and stores exactly the trimmed, lower-cased lines |
| Search.LiveCells | api/controller.js:62-63 | the cells the driver visits are exactly the positions that hold a tile |
| Search.Targets | api/controller.js:256-268 | the trie nodes explore moves to are inside the arena and include every child whose letter the tile matches |
| Search.EndWord | api/controller.js:273-275 | a `!` child yields the key `[object Object]`; otherwise a node yields its marker exactly when it is a non-empty string other than `__proto__`, and nothing else |
| Search.Found | api/controller.js:240-289 | everything explore records is a stored word or `[object Object]`, never empty and never `__proto__` |
| Search.Gain | api/controller.js:271-285 | everything one branch records is a stored word or `[object Object]`, never empty and never `__proto__` |
| Search.ReachWitness | api/controller.js:273-283 | a word in Reach comes with the node that records it and with a simple path from the cell whose letters walk the trie to that node |
| Search.PathCons | api/controller.js:280-283 | a cell followed by a simple path from one of its neighbours that avoids it is a simple path |
| Search.PathTail | api/controller.js:280-283 | the rest of a simple path is a simple path from a neighbour that also avoids the first cell |
| Search.WalkCons | api/controller.js:258-268 | walking a letter and then s is walking s from the child for that letter |
| Search.ReachExtend | api/controller.js:277-283 | a word reached from a neighbour after using this cell's letter is reached from this cell |
| Search.ReachOne | api/controller.js:273-275 | the marker of the node reached by this cell's own letter is reached from this cell |
| Search.FoundInReach | api/controller.js:240-289 | everything explore records lies at the end of a simple path of matching tiles |
| Search.ReachFirstStep | api/controller.js:246-285 | a path starts at a live, unvisited cell with a trie edge its tile matches, and either ends there or goes on from a neighbour |
| Search.ReachInFound | api/controller.js:240-289 | every word at the end of a simple path of matching tiles is recorded by explore |
| Search.FoundIsReach | api/controller.js:240-289 | explore from a cell records exactly the words spelled along simple paths from it |
| Search.FoundBlocked | api/controller.js:241-251 | explore records nothing from a visited cell, a cell with no tile, or a concrete letter with no trie child; with Explore's contract, such a call leaves validWords unchanged |
| Search.Solutions | api/controller.js:61-67 | the driver records only stored words or `[object Object]`, never empty and never `__proto__` |
| Search.SolutionsSpelled | api/controller.js:61-67 | on a labelled trie, every word the driver records is a stored word spelled along a simple path, and not `__proto__` |
| Search.SpelledSolutions | api/controller.js:61-67 | on a labelled trie, every stored word other than `__proto__` that a simple path spells is recorded by the driver |
| Search.SolutionsAreSpelledWords | api/controller.js:61-67 | on a labelled trie, the driver records exactly the non-empty trie words some simple path of matching tiles spells, except `__proto__` |
| Game.ObjectKeys | api/controller.js:263 | every letter key of the node appears, once each |
| Game.UnionsMembers | api/controller.js:271-285 | a word is in the union built from the back exactly when it is in one of the parts |
| Game.FoundByBranchesSnoc | api/controller.js:271-285 | one more trie node in the loop adds that branch's words |
| Game.FoundByBranchesMembers | api/controller.js:271-285 | a word is found by the loop over trie nodes exactly when one branch finds it |
| Game.BranchesFound | api/controller.js:256-285 | looping over any list that holds exactly the matching children, in any order and with repeats, finds what `Found` says |
| Game.FoundFromEachMembers | api/controller.js:280-283 | a word is found by the neighbour loop exactly when it is found from one of the neighbours |
| Game.FoundFromEachSnoc | api/controller.js:280-283 | one more neighbour adds what explore finds from it |
| Game.NeighboursGain | api/controller.js:271-285 | a branch finds its node's word and whatever explore finds from each neighbour |
| Game.Explorer.constructor | api/controller.js:48-59 | the search starts with the converted board, the trie, a visited grid of the board's size and no valid words |
| Game.Explorer.BranchNodes | api/controller.js:256-268 | the list holds only matching children and every matching child: the named child, or every child for the wildcard |
| Game.Explorer.Explore | api/controller.js:240-289 | explore adds exactly `Found` to validWords and leaves every visited cell as it found it |
| Game.Explorer.ExploreBranch | api/controller.js:271-285 | one pass of the trie-node loop adds exactly `Gain` and restores visited |
| Game.Explorer.ExploreNeighbours | api/controller.js:277-283 | the neighbour loop adds what explore finds from each neighbour and restores visited |
| Game.Explorer.ExploreAll | api/controller.js:61-67 | the driver loop adds exactly `Solutions` to validWords and leaves every cell unvisited |
| Game.FoundBeforeStep | api/controller.js:63-66 | exploring one more tile in row order adds that tile's words |
| Game.FoundBeforeNextRow | api/controller.js:62-63 | the end of a row is the start of the next |
| Game.FoundBeforeEnd | api/controller.js:62-67 | after the last row the driver has collected `Solutions` |
| Game.PlainDictionarySolutions | model/trie.js:44-46 | for dictionary lines without `!`, init does not throw and the search over the loaded trie finds exactly the non-empty dictionary words spelled along a simple path, except `__proto__` |
| Game.FindWords | api/controller.js:48-67 | with every cell unvisited and no valid words at first, exploring from every tile collects exactly `Solutions` |
| Game.CreateGame | api/controller.js:43-67 | a board with more than 8 wildcards is refused; otherwise init throwing gives no answer (`InitThrew`), and else the valid words are what the search finds in the loaded trie; when no line contains `!`, they are exactly the non-empty trimmed, lower-cased dictionary lines that some simple path of adjacent matching tiles spells, except `__proto__` |
| Scenarios.ExampleBoard | api/controller.js:211-237 | the board string `*,b` becomes the single row [*, b], with one wildcard |
| Scenarios.ExampleDictionary | model/trie.js:44-46 | the lines ab, xb and cc are stored as the words ab, xb and cc |
| Scenarios.ExampleSpelled | api/controller.js:240-289 | on [*, b] the wildcard spells ab and xb, and cc is not spelled because its one matching tile cannot be used twice |
| Scenarios.ExampleGame | api/controller.js:43-67 | createGame on `*,b` with those lines returns exactly the words ab and xb |
| Scenarios.ExampleFacts | api/controller.js:43-67 | the board `*,b` has at most 8 wildcards, no line of ab, xb, cc contains `!`, and the board spells exactly ab and xb of them |
| Scenarios.NoEndSymbol | model/trie.js:44-46 | no normalised line of ab, xb, cc contains `!` |
| Scenarios.TwoLetters | model/trie.js:45 | a line of two lower-case letters is its own normal form |
| Scenarios.LetterThenMark | model/trie.js:45 | two lower-case letters followed by `!` are their own normal form |
| Scenarios.OneLine | model/trie.js:44-46 | a dictionary of one two-letter line stores just that word |
| Scenarios.ThrowingDictionary | model/trie.js:16-31 | the lines ab and ab! make init throw: the `!` of the second line meets the stored word ab |
| Scenarios.ThrowingGame | api/controller.js:43-67 | createGame on `*,b` with those lines gives no answer |

## Left out

- Reading `data/dictionary.txt` and `data/test_board.txt`: the dictionary lines and the board string are parameters.
- Random board generation (`generateRandomBoard`): it uses randomness.
- Request validation, the JSON response, the token, the expiry time, the database insert, and the `updateGame` and `getGame` handlers: they are outside the word search.
- The Promise and readline plumbing of `init`: `Init` adds the lines in order, synchronously.
- The HTTP 400 reply for a board with more than 8 wildcards: it is the `TooManyWildcards` outcome here.
- The HTTP 500 path of `createGame`: the model raises no exception inside the `try` block of `createGame`. An add that throws inside `init` never reaches that block, because it is thrown from the readline line handler; it is the `InitThrew` outcome (see the next line).
- TrieIndex.Init: an add that throws is reported as `threw`, and the later lines are not added. In the source that TypeError escapes the readline line handler as an uncaught exception, so the process stops and the promise of `init` never settles. What happens to the process is not modelled.
- TrieIndex.Trie.Add: for a word with `!` the model promises the arena `AddWord` describes and no more. The stored words of such a trie are not characterised, because they count nodes no longer reachable from the root. The exact set of stored words is promised only for words without `!` added to a trie with no `!` child (a `Labelled` trie). On a trie with a `!` child, add stores the word in place of that child (`Stored`), which is not the insertion `InsertFrom`.
- Game.CreateGame: the valid words are characterised as dictionary words only when no line contains `!`. For other dictionaries it promises `Solutions` of the loaded arena, which may hold the key `[object Object]`.
- Game.ObjectKeys: leaves the key order open. JavaScript's insertion order for letter keys is not modelled. `BranchesFound` shows the found set does not depend on the order.
- Game.ObjectKeys: does not return the `!` key of a node that stores a word. In the source a wildcard then also walks on with the stored string as cursor. No such cursor ever records a word, because a string has no `!` key, and the cells are unmarked on return. So only the running time differs, not `validWords`.
- In the same way, a tile that names a property every object has, such as `constructor`, would turn into a non-trie cursor in the source (here the function `Object`). So would a plain `!` tile at a node whose `!` key stores a non-empty word: its cursor is that string. The model treats such a tile as a letter with no child. A string cursor never records a word, because a string has no `!` key, and the cells are unmarked on return, so for it the effect on `validWords` is the same.
- Game.CreateGame: does not model the exceptions a function cursor can raise. After a `constructor` tile, a neighbouring tile `caller` or `arguments` reads that property of the function `Object`. ECMA-262 puts a throwing accessor there on `Function.prototype` (AddRestrictedFunctionProperties). By the standard, explore then throws, and `createGame` answers HTTP 500 from its `catch` (api/controller.js:94-96). For such a board the model returns `Created`. Without such a throw, a function cursor or an object reached from it records no word either, because none of them has a `!` key.
- JsString.LowerChar: maps only the ASCII letters. `toLowerCase` on other scripts follows the Unicode tables, which are not modelled.
- JsString.ToLower: lower-cases character by character with LowerChar, so it keeps the length. The real `toLowerCase` can change the length (U+0130 becomes two code points) and maps the final Greek sigma by its context. Neither is modelled, so the model agrees with the source only on ASCII text.
- Game.Explorer: the `visited` grid is a rectangle of the board's height by the first row's width. In the source each row of `visited` is as long as its board row. The extra cells past a short last row are never marked, and the source reads such a cell as undefined and returns. So both read such a cell as unvisited.
- `validWords` is a set of words here. In the source it is an object whose keys are the words, each mapped to `true`. The key `__proto__` is left out of the set, because assigning `true` to it creates no key.
