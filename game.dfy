/** createGame of api/controller.js, from the board string to the set of valid words:
    convert the board, count its wildcards, then (when there are at most MaxWildcards)
    build the trie, mark every cell unvisited and explore from every tile.

    explore is imperative in the source: it marks and unmarks cells of a shared visited
    grid and adds words to a shared validWords object. Here both live in an Explorer
    object, and each method is proved against the Found and Gain functions of Search. */
module Game {
  import opened Config
  import opened JsString
  import opened TrieIndex
  import opened Board
  import opened Neighbourhood
  import opened Search

  /** Object.keys on a trie node: each letter key once, in an order the model leaves open. */
  method ObjectKeys(children: map<char, nat>) returns (keys: seq<char>)
    ensures forall ch :: ch in keys <==> ch in children
    ensures forall a, b :: 0 <= a < b < |keys| ==> keys[a] != keys[b]
  {
    keys := [];
    var rest := children.Keys;
    while rest != {}
      invariant forall ch :: ch in children <==> ch in rest || ch in keys
      invariant forall ch :: ch in rest ==> ch !in keys
      invariant forall a, b :: 0 <= a < b < |keys| ==> keys[a] != keys[b]
      decreases rest
    {
      var ch :| ch in rest;
      keys := keys + [ch];
      rest := rest - {ch};
    }
  }

  /** The union of the sets in parts, built from the back as a loop builds it. */
  ghost function Unions(parts: seq<set<string>>): set<string>
    decreases |parts|
  {
    if parts == [] then {} else Unions(parts[..|parts| - 1]) + parts[|parts| - 1]
  }

  /** A word is in the union exactly when it is in one of the parts. */
  lemma {:induction false} UnionsMembers(parts: seq<set<string>>, w: string)
    ensures w in Unions(parts) <==> exists m :: 0 <= m < |parts| && w in parts[m]
    decreases |parts|
  {
    if parts != [] {
      var init := parts[..|parts| - 1];
      UnionsMembers(init, w);
      if w in Unions(init) {
        var m :| 0 <= m < |init| && w in init[m];
        assert init[m] == parts[m];
      }
      if exists m :: 0 <= m < |parts| && w in parts[m] {
        var m :| 0 <= m < |parts| && w in parts[m];
        if m < |init| {
          assert init[m] == parts[m];
        }
      }
    }
  }

  /** What each branch ts[m] of explore at c finds. */
  ghost function Gains(b: Grid, nodes: seq<Node>, V: set<Cell>, c: Cell, ts: seq<nat>): (r: seq<set<string>>)
    requires Closed(nodes) && Live(b, c) && c !in V
    requires forall m :: 0 <= m < |ts| ==> ts[m] < |nodes|
    ensures |r| == |ts|
  {
    seq(|ts|, m requires 0 <= m < |ts| => Gain(b, nodes, V, c, ts[m]))
  }

  /** The words found by the branches ts of explore at c, in turn. */
  ghost function FoundByBranches(b: Grid, nodes: seq<Node>, V: set<Cell>, c: Cell, ts: seq<nat>): set<string>
    requires Closed(nodes) && Live(b, c) && c !in V
    requires forall m :: 0 <= m < |ts| ==> ts[m] < |nodes|
  {
    Unions(Gains(b, nodes, V, c, ts))
  }

  lemma FoundByBranchesSnoc(b: Grid, nodes: seq<Node>, V: set<Cell>, c: Cell, ts: seq<nat>, k: nat)
    requires Closed(nodes) && Live(b, c) && c !in V && k < |ts|
    requires forall m :: 0 <= m < |ts| ==> ts[m] < |nodes|
    ensures FoundByBranches(b, nodes, V, c, ts[..k + 1]) == FoundByBranches(b, nodes, V, c, ts[..k]) + Gain(b, nodes, V, c, ts[k])
  {
    var longer := Gains(b, nodes, V, c, ts[..k + 1]);
    assert longer[..k] == Gains(b, nodes, V, c, ts[..k]);
    assert longer[k] == Gain(b, nodes, V, c, ts[k]);
  }

  /** A word is found by the branches exactly when one of them finds it. */
  lemma FoundByBranchesMembers(b: Grid, nodes: seq<Node>, V: set<Cell>, c: Cell, ts: seq<nat>, w: string)
    requires Closed(nodes) && Live(b, c) && c !in V
    requires forall m :: 0 <= m < |ts| ==> ts[m] < |nodes|
    ensures w in FoundByBranches(b, nodes, V, c, ts) <==> exists m :: 0 <= m < |ts| && w in Gain(b, nodes, V, c, ts[m])
  {
    var parts := Gains(b, nodes, V, c, ts);
    UnionsMembers(parts, w);
    assert forall m :: 0 <= m < |ts| ==> parts[m] == Gain(b, nodes, V, c, ts[m]);
  }

  /** The branches of explore at c, taken together, find what Found says, whatever their
      order and however often one repeats. */
  lemma BranchesFound(b: Grid, nodes: seq<Node>, V: set<Cell>, c: Cell, n: nat, ts: seq<nat>)
    requires Closed(nodes) && n < |nodes| && Live(b, c) && c !in V
    requires forall m :: 0 <= m < |ts| ==> ts[m] in Targets(nodes, n, Tile(b, c))
    requires forall t :: t in Targets(nodes, n, Tile(b, c)) ==> t in ts
    ensures FoundByBranches(b, nodes, V, c, ts) == Found(b, nodes, V, c, n)
  {
    forall w ensures w in FoundByBranches(b, nodes, V, c, ts) <==> w in Found(b, nodes, V, c, n) {
      FoundByBranchesMembers(b, nodes, V, c, ts, w);
      if w in Found(b, nodes, V, c, n) {
        var t :| t in Targets(nodes, n, Tile(b, c)) && w in Gain(b, nodes, V, c, t);
        var m :| 0 <= m < |ts| && ts[m] == t;
      }
    }
  }

  /** What explore finds from each cell qs[k] with cursor t. */
  ghost function Finds(b: Grid, nodes: seq<Node>, V: set<Cell>, qs: seq<Cell>, t: nat): (r: seq<set<string>>)
    requires Closed(nodes) && t < |nodes|
    ensures |r| == |qs|
  {
    seq(|qs|, k requires 0 <= k < |qs| => Found(b, nodes, V, qs[k], t))
  }

  /** The words explore finds from each of the cells qs in turn, with cursor t. */
  ghost function FoundFromEach(b: Grid, nodes: seq<Node>, V: set<Cell>, qs: seq<Cell>, t: nat): set<string>
    requires Closed(nodes) && t < |nodes|
  {
    Unions(Finds(b, nodes, V, qs, t))
  }

  lemma FoundFromEachMembers(b: Grid, nodes: seq<Node>, V: set<Cell>, qs: seq<Cell>, t: nat, w: string)
    requires Closed(nodes) && t < |nodes|
    ensures w in FoundFromEach(b, nodes, V, qs, t) <==> exists q :: q in qs && w in Found(b, nodes, V, q, t)
  {
    var parts := Finds(b, nodes, V, qs, t);
    UnionsMembers(parts, w);
    assert forall k :: 0 <= k < |qs| ==> parts[k] == Found(b, nodes, V, qs[k], t);
    if exists q :: q in qs && w in Found(b, nodes, V, q, t) {
      var q :| q in qs && w in Found(b, nodes, V, q, t);
      var k :| 0 <= k < |qs| && qs[k] == q;
      assert w in parts[k];
    }
  }

  lemma FoundFromEachSnoc(b: Grid, nodes: seq<Node>, V: set<Cell>, qs: seq<Cell>, k: nat, t: nat)
    requires Closed(nodes) && t < |nodes| && k < |qs|
    ensures FoundFromEach(b, nodes, V, qs[..k + 1], t) == FoundFromEach(b, nodes, V, qs[..k], t) + Found(b, nodes, V, qs[k], t)
  {
    var longer := Finds(b, nodes, V, qs[..k + 1], t);
    assert longer[..k] == Finds(b, nodes, V, qs[..k], t);
    assert longer[k] == Found(b, nodes, V, qs[k], t);
  }

  lemma UnionStep<T>(a: set<T>, f: set<T>, g: set<T>)
    ensures (a + f) + g == a + (f + g)
  {
  }

  /** One branch, neighbour by neighbour, finds what Gain says. */
  lemma NeighboursGain(b: Grid, nodes: seq<Node>, V: set<Cell>, c: Cell, t: nat)
    requires Closed(nodes) && t < |nodes| && Live(b, c) && c !in V
    ensures Gain(b, nodes, V, c, t) == EndWord(nodes[t]) + FoundFromEach(b, nodes, V + {c}, Neighbours(|b|, |b[0]|, c), t)
  {
    forall w ensures w in FoundFromEach(b, nodes, V + {c}, Neighbours(|b|, |b[0]|, c), t) <==>
                     exists q :: q in Neighbours(|b|, |b[0]|, c) && w in Found(b, nodes, V + {c}, q, t) {
      FoundFromEachMembers(b, nodes, V + {c}, Neighbours(|b|, |b[0]|, c), t, w);
    }
  }

  class Explorer {
    const board: Grid
    const nodes: seq<Node>
    const visited: array2<bool>
    var validWords: set<string>

    ghost predicate Valid() {
      WellShaped(board) && Closed(nodes) &&
      visited.Length0 == |board| && visited.Length1 == |board[0]|
    }

    /** The cells marked in visited are exactly those of V. */
    ghost predicate Marks(V: set<Cell>)
      reads visited
    {
      forall a, b :: 0 <= a < visited.Length0 && 0 <= b < visited.Length1 ==> (visited[a, b] <==> (a, b) in V)
    }

    /** The state createGame sets up before the search: the visited grid, the trie, and
        an empty validWords. */
    constructor (board2DArr: Grid, nodes: seq<Node>, visited: array2<bool>)
      requires WellShaped(board2DArr) && Closed(nodes)
      requires visited.Length0 == |board2DArr| && visited.Length1 == |board2DArr[0]|
      ensures Valid() && board == board2DArr && this.nodes == nodes && this.visited == visited
      ensures validWords == {}
    {
      board := board2DArr;
      this.nodes := nodes;
      this.visited := visited;
      validWords := {};
    }

    /** The trie nodes explore moves to from node n on reading letter (explore's
        trieNodes): the child named by the letter, or every child for the wildcard. */
    method BranchNodes(n: nat, letter: string) returns (trieNodes: seq<nat>)
      requires Closed(nodes) && n < |nodes|
      requires letter == Wildcard || (|letter| == 1 && letter[0] in nodes[n].children)
      ensures forall m :: 0 <= m < |trieNodes| ==> trieNodes[m] in Targets(nodes, n, letter)
      ensures forall t :: t in Targets(nodes, n, letter) ==> t in trieNodes
    {
      trieNodes := [];
      if letter != Wildcard {
        trieNodes := [nodes[n].children[letter[0]]];
        assert letter == [letter[0]];
      } else {
        var keys := ObjectKeys(nodes[n].children);
        for k := 0 to |keys|
          invariant |trieNodes| == k
          invariant forall m :: 0 <= m < k ==> trieNodes[m] == nodes[n].children[keys[m]]
        {
          trieNodes := trieNodes + [nodes[n].children[keys[k]]];
        }
        forall t | t in Targets(nodes, n, letter) ensures t in trieNodes {
          var ch :| ch in nodes[n].children && nodes[n].children[ch] == t;
          var m :| 0 <= m < |keys| && keys[m] == ch;
          assert trieNodes[m] == t;
        }
      }
    }

    /** explore(i, j, n) with the cells V marked: adds what Found says to validWords and
        leaves every cell of visited as it found it. */
    method Explore(i: int, j: int, n: nat, ghost V: set<Cell>)
      requires Valid() && n < |nodes| && InGrid(|board|, |board[0]|, (i, j)) && Marks(V)
      modifies this, visited
      ensures forall a, b :: 0 <= a < visited.Length0 && 0 <= b < visited.Length1 ==> visited[a, b] == old(visited[a, b])
      ensures validWords == old(validWords) + Found(board, nodes, V, (i, j), n)
      decreases LiveCells(board) - V, 1
    {
      if visited[i, j] {
        return;
      }
      if j >= |board[i]| {
        return;
      }
      var letter := board[i][j];
      if letter != Wildcard && !(|letter| == 1 && letter[0] in nodes[n].children) {
        assert Targets(nodes, n, letter) == {};
        return;
      }
      assert (i, j) !in V && (i, j) in LiveCells(board);
      visited[i, j] := true;
      var trieNodes := BranchNodes(n, letter);
      for k := 0 to |trieNodes|
        invariant forall a, b :: 0 <= a < visited.Length0 && 0 <= b < visited.Length1 ==>
          visited[a, b] == (old(visited[a, b]) || (a, b) == (i, j))
        invariant validWords == old(validWords) + FoundByBranches(board, nodes, V, (i, j), trieNodes[..k])
      {
        ExploreBranch(i, j, trieNodes[k], V);
        FoundByBranchesSnoc(board, nodes, V, (i, j), trieNodes, k);
        UnionStep(old(validWords), FoundByBranches(board, nodes, V, (i, j), trieNodes[..k]), Gain(board, nodes, V, (i, j), trieNodes[k]));
      }
      assert trieNodes[..|trieNodes|] == trieNodes;
      BranchesFound(board, nodes, V, (i, j), n, trieNodes);
      visited[i, j] := false;
    }

    /** One pass of explore's loop over trie nodes, at the cell (i, j), marked on top of V,
        with the cursor moved to t: record t's word, then explore every neighbour from t. */
    method ExploreBranch(i: int, j: int, t: nat, ghost V: set<Cell>)
      requires Valid() && t < |nodes| && Live(board, (i, j)) && (i, j) !in V && Marks(V + {(i, j)})
      modifies this, visited
      ensures forall a, b :: 0 <= a < visited.Length0 && 0 <= b < visited.Length1 ==> visited[a, b] == old(visited[a, b])
      ensures validWords == old(validWords) + Gain(board, nodes, V, (i, j), t)
      decreases LiveCells(board) - (V + {(i, j)}), 3
    {
      // trieNode[END_SYMBOL]: a child object reads as its text, a stored word as itself.
      var entry := if EndSymbol in nodes[t].children then ObjectText
        else if nodes[t].end.Some? then nodes[t].end.value else [];
      if entry != [] && entry != ProtoKey {
        validWords := validWords + {entry};
      }
      assert validWords == old(validWords) + EndWord(nodes[t]);
      var neighbours := GetNeighbours(board, i, j);
      ExploreNeighbours(neighbours, t, V + {(i, j)});
      NeighboursGain(board, nodes, V, (i, j), t);
      UnionStep(old(validWords), EndWord(nodes[t]), FoundFromEach(board, nodes, V + {(i, j)}, neighbours, t));
    }

    /** explore's loop over the neighbours of a cell, with the cells W marked: explore
        each neighbour in turn from trie node t. */
    method ExploreNeighbours(neighbours: seq<Cell>, t: nat, ghost W: set<Cell>)
      requires Valid() && t < |nodes| && Marks(W)
      requires forall k :: 0 <= k < |neighbours| ==> InGrid(|board|, |board[0]|, neighbours[k])
      modifies this, visited
      ensures forall a, b :: 0 <= a < visited.Length0 && 0 <= b < visited.Length1 ==> visited[a, b] == old(visited[a, b])
      ensures validWords == old(validWords) + FoundFromEach(board, nodes, W, neighbours, t)
      decreases LiveCells(board) - W, 2
    {
      for k := 0 to |neighbours|
        invariant forall a, b :: 0 <= a < visited.Length0 && 0 <= b < visited.Length1 ==> visited[a, b] == old(visited[a, b])
        invariant validWords == old(validWords) + FoundFromEach(board, nodes, W, neighbours[..k], t)
      {
        Explore(neighbours[k].0, neighbours[k].1, t, W);
        FoundFromEachSnoc(board, nodes, W, neighbours, k, t);
        UnionStep(old(validWords), FoundFromEach(board, nodes, W, neighbours[..k], t), Found(board, nodes, W, neighbours[k], t));
      }
      assert neighbours[..|neighbours|] == neighbours;
    }

    /** The search driver of createGame: explore from every tile, row by row, with the
        trie root as cursor and nothing visited. */
    method ExploreAll()
      requires Valid() && Marks({})
      modifies this, visited
      ensures Marks({})
      ensures validWords == old(validWords) + Solutions(board, nodes)
    {
      FoundBeforeStart(board, nodes);
      for i := 0 to |board|
        invariant Marks({})
        invariant validWords == old(validWords) + FoundBefore(board, nodes, i, 0)
      {
        for j := 0 to |board[i]|
          invariant Marks({})
          invariant validWords == old(validWords) + FoundBefore(board, nodes, i, j)
        {
          Explore(i, j, 0, {});
          FoundBeforeStep(board, nodes, i, j);
          UnionStep(old(validWords), FoundBefore(board, nodes, i, j), Found(board, nodes, {}, (i, j), 0));
        }
        FoundBeforeNextRow(board, nodes, i);
      }
      FoundBeforeEnd(board, nodes);
    }
  }

  /** What the search driver has found once it reaches cell (i, j), in row order. */
  ghost function FoundBefore(b: Grid, nodes: seq<Node>, i: int, j: int): set<string>
    requires Closed(nodes)
  {
    set c, w | c in LiveCells(b) && (c.0 < i || (c.0 == i && c.1 < j)) && w in Found(b, nodes, {}, c, 0) :: w
  }

  lemma FoundBeforeStart(b: Grid, nodes: seq<Node>)
    requires Closed(nodes)
    ensures FoundBefore(b, nodes, 0, 0) == {}
  {
  }

  lemma FoundBeforeStep(b: Grid, nodes: seq<Node>, i: int, j: int)
    requires Closed(nodes) && Live(b, (i, j))
    ensures FoundBefore(b, nodes, i, j + 1) == FoundBefore(b, nodes, i, j) + Found(b, nodes, {}, (i, j), 0)
  {
    assert (i, j) in LiveCells(b);
  }

  lemma FoundBeforeNextRow(b: Grid, nodes: seq<Node>, i: int)
    requires Closed(nodes) && 0 <= i < |b|
    ensures FoundBefore(b, nodes, i, |b[i]|) == FoundBefore(b, nodes, i + 1, 0)
  {
  }

  lemma FoundBeforeEnd(b: Grid, nodes: seq<Node>)
    requires Closed(nodes)
    ensures FoundBefore(b, nodes, |b|, 0) == Solutions(b, nodes)
  {
  }

  /** The answers of createGame once the request is valid. InitThrew stands for an add
      that threw inside init's line handler: the exception escapes the promise, so the
      source never answers. */
  datatype Outcome = Created(validWords: set<string>) | TooManyWildcards | InitThrew

  /** When no dictionary line has the end symbol, the search over the loaded trie
      finds exactly the non-empty dictionary words the board spells along a simple
      path, except "__proto__". */
  lemma PlainDictionarySolutions(b: Grid, dictionary: seq<string>)
    requires WellShaped(b) && PlainLines(dictionary)
    ensures !Load(dictionary).threw
    ensures Solutions(b, Load(dictionary).nodes) == SpelledWords(b, DictionaryWords(dictionary)) - {ProtoKey}
  {
    var labels := BuildLabelled(dictionary);
    SolutionsAreSpelledWords(b, Build(dictionary), labels);
  }

  /** The search part of createGame: a visited grid with every cell unvisited, an
      empty validWords, and explore from every tile with the trie root as cursor. */
  method FindWords(board2DArr: Grid, nodes: seq<Node>) returns (validWords: set<string>)
    requires WellShaped(board2DArr) && Closed(nodes)
    ensures validWords == Solutions(board2DArr, nodes)
  {
    var visited := new bool[|board2DArr|, |board2DArr[0]|]((a, b) => false);
    var explorer := new Explorer(board2DArr, nodes, visited);
    explorer.ExploreAll();
    validWords := explorer.validWords;
  }

  /** createGame from the board string to its valid words: a board with more than
      MaxWildcards wildcards is refused; otherwise the trie is loaded and the valid
      words are what the search finds in it. When no dictionary line has the end
      symbol, those are exactly the non-empty dictionary words spelled along a simple
      path of adjacent tiles, except "__proto__". */
  method CreateGame(board: string, dictionary: seq<string>) returns (outcome: Outcome)
    ensures WildcardCount(BoardOf(board)) > MaxWildcards ==> outcome == TooManyWildcards
    ensures WildcardCount(BoardOf(board)) <= MaxWildcards ==>
      outcome == if Load(dictionary).threw then InitThrew
        else Created(Solutions(BoardOf(board), Load(dictionary).nodes))
    ensures WildcardCount(BoardOf(board)) <= MaxWildcards && PlainLines(dictionary) ==>
      outcome == Created(SpelledWords(BoardOf(board), DictionaryWords(dictionary)) - {ProtoKey})
  {
    var board2DArr := ConvertBoardTo2DArray(board);
    var wildcards := CalculateWildcards(board2DArr);
    if wildcards <= MaxWildcards {
      var trie, threw := Init(dictionary);
      if threw {
        outcome := InitThrew;
        return;
      }
      if PlainLines(dictionary) {
        PlainDictionarySolutions(board2DArr, dictionary);
      }
      var validWords := FindWords(board2DArr, trie.nodes);
      outcome := Created(validWords);
    } else {
      outcome := TooManyWildcards;
    }
  }
}
