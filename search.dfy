/** The word search of api/controller.js: explore walks the board depth first from a
    cell, following the trie along the letters it reads, records the end marker of
    each trie node it reaches and never uses a cell twice on one path.

    This module holds the reference definitions of what that search finds: Found and
    Gain mirror explore's recursion cell by cell, and Reach says the same thing without
    recursion, as the set of words spelled along simple paths. */
module Search {
  import opened Wrappers
  import opened Config
  import opened JsString
  import opened TrieIndex
  import opened Board
  import opened Neighbourhood

  /** A cell that holds a tile: rows can be shorter than the first one, and a cell past
      the end of its row reads as undefined in the source, which explore ignores. */
  predicate Live(b: Grid, c: Cell) {
    0 <= c.0 < |b| && 0 <= c.1 < |b[c.0]|
  }

  function Tile(b: Grid, c: Cell): string
    requires Live(b, c)
  {
    b[c.0][c.1]
  }

  /** The tile lets the search take the trie edge labelled ch: the wildcard takes every
      edge, any other tile only the edge named by the whole tile. */
  predicate Matches(tile: string, ch: char) {
    tile == Wildcard || tile == [ch]
  }

  function LiveCells(b: Grid): (r: set<Cell>)
    ensures forall c :: c in r <==> Live(b, c)
  {
    set i, j | 0 <= i < |b| && 0 <= j < |b[i]| :: (i, j)
  }

  /** The trie nodes explore moves to on reading tile at node n. */
  ghost function Targets(nodes: seq<Node>, n: nat, tile: string): (r: set<nat>)
    requires Closed(nodes) && n < |nodes|
    ensures forall t :: t in r ==> t < |nodes|
    ensures forall ch :: ch in nodes[n].children && Matches(tile, ch) ==> nodes[n].children[ch] in r
  {
    set ch | ch in nodes[n].children && Matches(tile, ch) :: nodes[n].children[ch]
  }

  /** The word `validWords[trieNode[END_SYMBOL]] = true` records on reaching a node.
      Nothing when the entry is missing or the empty string, which is falsy. A child
      under '!' is an object, which becomes the key "[object Object]". A stored word
      becomes its own key, except "__proto__", for which the assignment creates no key. */
  function EndWord(node: Node): (r: set<string>)
    ensures forall w :: w in r ==> w != [] && w != ProtoKey
    ensures EndSymbol in node.children ==> r == {ObjectText}
    ensures EndSymbol !in node.children ==>
      (r != {} <==> node.end.Some? && node.end.value != [] && node.end.value != ProtoKey)
    ensures EndSymbol !in node.children && r != {} ==> r == {node.end.value}
  {
    if EndSymbol in node.children then {ObjectText}
    else if node.end.Some? && node.end.value != [] && node.end.value != ProtoKey then {node.end.value}
    else {}
  }

  /** The keys explore can record on a trie: its stored words and the text of a child
      object, never the empty string and never "__proto__". */
  ghost predicate Recordable(nodes: seq<Node>, w: string) {
    (w in Markers(nodes) || w == ObjectText) && w != [] && w != ProtoKey
  }

  /** What explore(c, n) adds to validWords when the cells in V are marked visited. */
  ghost function Found(b: Grid, nodes: seq<Node>, V: set<Cell>, c: Cell, n: nat): (r: set<string>)
    requires Closed(nodes) && n < |nodes|
    ensures forall w :: w in r ==> Recordable(nodes, w)
    decreases LiveCells(b) - V, 1
  {
    if !Live(b, c) || c in V then {}
    else set t, w | t in Targets(nodes, n, Tile(b, c)) && w in Gain(b, nodes, V, c, t) :: w
  }

  /** What one branch of explore adds once c is marked and the trie cursor has moved to t:
      t's own word, then everything found from each neighbour. */
  ghost function Gain(b: Grid, nodes: seq<Node>, V: set<Cell>, c: Cell, t: nat): (r: set<string>)
    requires Closed(nodes) && t < |nodes| && Live(b, c) && c !in V
    ensures forall w :: w in r ==> Recordable(nodes, w)
    decreases LiveCells(b) - V, 0
  {
    assert c in LiveCells(b);
    EndWord(nodes[t]) +
    set q, w | q in Neighbours(|b|, |b[0]|, c) && w in Found(b, nodes, V + {c}, q, t) :: w
  }

  /** A path the search can take: non-empty, on tiles, avoiding V, no cell twice, each
      cell adjacent to the next. */
  ghost predicate SimplePath(b: Grid, V: set<Cell>, p: seq<Cell>) {
    |p| > 0 &&
    (forall k :: 0 <= k < |p| ==> Live(b, p[k]) && p[k] !in V) &&
    (forall k, l :: 0 <= k < l < |p| ==> p[k] != p[l]) &&
    (forall k :: 0 <= k < |p| - 1 ==> Adjacent(p[k], p[k + 1]))
  }

  /** The tiles along p read s, one letter per tile. */
  ghost predicate Spells(b: Grid, p: seq<Cell>, s: string) {
    |p| == |s| && forall k :: 0 <= k < |p| ==> Live(b, p[k]) && Matches(Tile(b, p[k]), s[k])
  }

  /** The recorded words of the nodes reached from n along the letters of some simple
      path from c that avoids V. */
  ghost function Reach(b: Grid, nodes: seq<Node>, V: set<Cell>, c: Cell, n: nat): set<string>
    requires Closed(nodes) && n < |nodes|
  {
    set m, w | 0 <= m < |nodes| && w in EndWord(nodes[m]) &&
      (exists p, s :: SimplePath(b, V, p) && p[0] == c && Spells(b, p, s) && Walk(nodes, n, s) == Some(m))
      :: w
  }

  /** A word in Reach, with the node that records it and the path and letters that
      lead there. */
  lemma ReachWitness(b: Grid, nodes: seq<Node>, V: set<Cell>, c: Cell, n: nat, w: string)
      returns (m: nat, p: seq<Cell>, s: string)
    requires Closed(nodes) && n < |nodes| && w in Reach(b, nodes, V, c, n)
    ensures m < |nodes| && w in EndWord(nodes[m])
    ensures SimplePath(b, V, p) && p[0] == c && Spells(b, p, s) && Walk(nodes, n, s) == Some(m)
  {
    m :| 0 <= m < |nodes| && w in EndWord(nodes[m]) &&
      (exists p, s :: SimplePath(b, V, p) && p[0] == c && Spells(b, p, s) && Walk(nodes, n, s) == Some(m));
    p, s :| SimplePath(b, V, p) && p[0] == c && Spells(b, p, s) && Walk(nodes, n, s) == Some(m);
  }

  /** A simple path from c that avoids V, by its first step. */
  lemma PathCons(b: Grid, V: set<Cell>, c: Cell, p: seq<Cell>)
    requires Live(b, c) && c !in V
    requires SimplePath(b, V + {c}, p) && Adjacent(c, p[0])
    ensures SimplePath(b, V, [c] + p)
  {
    var whole := [c] + p;
    forall k, l | 0 <= k < l < |whole| ensures whole[k] != whole[l] {
      assert whole[l] == p[l - 1];
      if k > 0 {
        assert whole[k] == p[k - 1];
      }
    }
    forall k | 0 <= k < |whole| - 1 ensures Adjacent(whole[k], whole[k + 1]) {
      if k > 0 {
        assert whole[k] == p[k - 1] && whole[k + 1] == p[k];
      }
    }
  }

  /** The rest of a simple path of two or more cells is a simple path that also avoids
      its first cell, and starts next to it. */
  lemma PathTail(b: Grid, V: set<Cell>, p: seq<Cell>)
    requires SimplePath(b, V, p) && |p| >= 2
    ensures SimplePath(b, V + {p[0]}, p[1..]) && Adjacent(p[0], p[1])
  {
    var rest := p[1..];
    forall k | 0 <= k < |rest| ensures Live(b, rest[k]) && rest[k] !in V + {p[0]} {
      assert rest[k] == p[k + 1];
    }
    forall k, l | 0 <= k < l < |rest| ensures rest[k] != rest[l] {
      assert rest[k] == p[k + 1] && rest[l] == p[l + 1];
    }
    forall k | 0 <= k < |rest| - 1 ensures Adjacent(rest[k], rest[k + 1]) {
      assert rest[k] == p[k + 1] && rest[k + 1] == p[k + 2];
    }
  }

  /** Walking ch and then s from n is walking s from n's child at ch. */
  lemma WalkCons(nodes: seq<Node>, n: nat, ch: char, s: string)
    requires Closed(nodes) && n < |nodes| && ch in nodes[n].children
    ensures Walk(nodes, n, [ch] + s) == Walk(nodes, nodes[n].children[ch], s)
  {
    assert ([ch] + s)[1..] == s;
  }

  /** A route from a neighbour q of c, taken after c has been used for the letter ch,
      extends to a route from c. */
  lemma ReachExtend(b: Grid, nodes: seq<Node>, V: set<Cell>, c: Cell, n: nat, ch: char, q: Cell, w: string)
    requires Closed(nodes) && n < |nodes| && ch in nodes[n].children
    requires Live(b, c) && c !in V && Matches(Tile(b, c), ch) && Adjacent(c, q)
    requires w in Reach(b, nodes, V + {c}, q, nodes[n].children[ch])
    ensures w in Reach(b, nodes, V, c, n)
  {
    var t := nodes[n].children[ch];
    var m, p, s := ReachWitness(b, nodes, V + {c}, q, t, w);
    PathCons(b, V, c, p);
    WalkCons(nodes, n, ch, s);
    var p', s' := [c] + p, [ch] + s;
    assert Spells(b, p', s') by {
      forall k | 0 <= k < |p'| ensures Live(b, p'[k]) && Matches(Tile(b, p'[k]), s'[k]) {
        if k > 0 {
          assert p'[k] == p[k - 1] && s'[k] == s[k - 1];
        }
      }
    }
    assert SimplePath(b, V, p') && p'[0] == c && Walk(nodes, n, s') == Some(m);
  }

  /** The word of the node reached by c's own letter is at the end of the one-cell route. */
  lemma ReachOne(b: Grid, nodes: seq<Node>, V: set<Cell>, c: Cell, n: nat, ch: char, w: string)
    requires Closed(nodes) && n < |nodes| && ch in nodes[n].children
    requires Live(b, c) && c !in V && Matches(Tile(b, c), ch)
    requires w in EndWord(nodes[nodes[n].children[ch]])
    ensures w in Reach(b, nodes, V, c, n)
  {
    var t := nodes[n].children[ch];
    WalkCons(nodes, n, ch, []);
    assert [ch] + [] == [ch];
    assert SimplePath(b, V, [c]) && Spells(b, [c], [ch]) && Walk(nodes, n, [ch]) == Some(t);
  }

  /** Everything explore records lies at the end of a simple path of matching tiles. */
  lemma {:induction false} FoundInReach(b: Grid, nodes: seq<Node>, V: set<Cell>, c: Cell, n: nat)
    requires Closed(nodes) && n < |nodes|
    ensures Found(b, nodes, V, c, n) <= Reach(b, nodes, V, c, n)
    decreases LiveCells(b) - V
  {
    if Live(b, c) && c !in V {
      forall w | w in Found(b, nodes, V, c, n) ensures w in Reach(b, nodes, V, c, n) {
        var t :| t in Targets(nodes, n, Tile(b, c)) && w in Gain(b, nodes, V, c, t);
        var ch :| ch in nodes[n].children && Matches(Tile(b, c), ch) && nodes[n].children[ch] == t;
        if w in EndWord(nodes[t]) {
          ReachOne(b, nodes, V, c, n, ch, w);
        } else {
          var q :| q in Neighbours(|b|, |b[0]|, c) && w in Found(b, nodes, V + {c}, q, t);
          NeighboursExact(|b|, |b[0]|, c);
          assert c in LiveCells(b);
          FoundInReach(b, nodes, V + {c}, q, t);
          ReachExtend(b, nodes, V, c, n, ch, q, w);
        }
      }
    }
  }

  /** A route from c starts with the trie edge for c's letter and either stops there or
      goes on to a route from a neighbour that avoids c as well. */
  lemma ReachFirstStep(b: Grid, nodes: seq<Node>, V: set<Cell>, c: Cell, n: nat, w: string)
      returns (t: nat, next: Option<Cell>)
    requires WellShaped(b) && Closed(nodes) && n < |nodes|
    requires w in Reach(b, nodes, V, c, n)
    ensures Live(b, c) && c !in V && t < |nodes| && t in Targets(nodes, n, Tile(b, c))
    ensures next.None? ==> w in EndWord(nodes[t])
    ensures next.Some? ==> next.value in Neighbours(|b|, |b[0]|, c) && w in Reach(b, nodes, V + {c}, next.value, t)
  {
    var m, p, s := ReachWitness(b, nodes, V, c, n, w);
    assert Live(b, c) && c !in V;
    var ch := s[0];
    assert ch in nodes[n].children;
    t := nodes[n].children[ch];
    assert s == [ch] + s[1..];
    WalkCons(nodes, n, ch, s[1..]);
    assert Matches(Tile(b, c), ch);
    if |p| == 1 {
      assert s[1..] == [];
      next := None;
    } else {
      PathTail(b, V, p);
      var q: Cell := p[1];
      assert q.1 < |b[q.0]| <= |b[0]|;
      NeighboursExact(|b|, |b[0]|, c);
      assert Spells(b, p[1..], s[1..]) by {
        forall k | 0 <= k < |p| - 1 ensures Live(b, p[1..][k]) && Matches(Tile(b, p[1..][k]), s[1..][k]) {
          assert p[1..][k] == p[k + 1] && s[1..][k] == s[k + 1];
        }
      }
      next := Some(q);
    }
  }

  /** Every word at the end of a simple path of matching tiles is recorded by explore. */
  lemma {:induction false} ReachInFound(b: Grid, nodes: seq<Node>, V: set<Cell>, c: Cell, n: nat)
    requires WellShaped(b) && Closed(nodes) && n < |nodes|
    ensures Reach(b, nodes, V, c, n) <= Found(b, nodes, V, c, n)
    decreases LiveCells(b) - V
  {
    forall w | w in Reach(b, nodes, V, c, n) ensures w in Found(b, nodes, V, c, n) {
      var t, next := ReachFirstStep(b, nodes, V, c, n, w);
      if next.Some? {
        assert c in LiveCells(b);
        ReachInFound(b, nodes, V + {c}, next.value, t);
      }
      assert w in Gain(b, nodes, V, c, t);
    }
  }

  /** On a well-shaped board explore records exactly the words at the end of simple
      paths of matching tiles. */
  lemma FoundIsReach(b: Grid, nodes: seq<Node>, V: set<Cell>, c: Cell, n: nat)
    requires WellShaped(b) && Closed(nodes) && n < |nodes|
    ensures Found(b, nodes, V, c, n) == Reach(b, nodes, V, c, n)
  {
    FoundInReach(b, nodes, V, c, n);
    ReachInFound(b, nodes, V, c, n);
  }

  /** explore records nothing from a cell that is already visited, that holds no tile,
      or whose concrete letter has no child at the cursor. */
  lemma FoundBlocked(b: Grid, nodes: seq<Node>, V: set<Cell>, c: Cell, n: nat)
    requires Closed(nodes) && n < |nodes|
    requires c in V || !Live(b, c) ||
      (Tile(b, c) != Wildcard && !(|Tile(b, c)| == 1 && Tile(b, c)[0] in nodes[n].children))
    ensures Found(b, nodes, V, c, n) == {}
  {
    if Live(b, c) && c !in V {
      assert Targets(nodes, n, Tile(b, c)) == {};
    }
  }

  /** What the search driver of createGame collects: explore from every tile, with the
      trie root as cursor and no cell visited. */
  ghost function Solutions(b: Grid, nodes: seq<Node>): (r: set<string>)
    requires Closed(nodes)
    ensures forall w :: w in r ==> Recordable(nodes, w)
  {
    set c, w | c in LiveCells(b) && w in Found(b, nodes, {}, c, 0) :: w
  }

  /** The non-empty words of a dictionary that some simple path of matching tiles spells. */
  ghost function SpelledWords(b: Grid, words: set<string>): set<string> {
    set w | w in words && w != [] && exists p :: SimplePath(b, {}, p) && Spells(b, p, w)
  }

  /** Everything the search records from the root of a labelled trie is a stored word
      spelled along a simple path, and not "__proto__". */
  lemma SolutionsSpelled(b: Grid, nodes: seq<Node>, labels: seq<string>, w: string)
    requires WellShaped(b) && Labelled(nodes, labels) && w in Solutions(b, nodes)
    ensures w in SpelledWords(b, Markers(nodes)) - {ProtoKey}
  {
    var c :| c in LiveCells(b) && w in Found(b, nodes, {}, c, 0);
    FoundInReach(b, nodes, {}, c, 0);
    var m, p, s := ReachWitness(b, nodes, {}, c, 0, w);
    assert EndSymbol !in nodes[m].children;
    assert nodes[m].end == Some(w) && w != ProtoKey && w != [];
    assert w in Markers(nodes);
    MarkerIsPath(nodes, labels, m, s);
    assert s == w;
    assert SimplePath(b, {}, p) && Spells(b, p, w);
  }

  /** Every stored word other than "__proto__" that a simple path spells is recorded by
      the search from the root of a labelled trie. */
  lemma SpelledSolutions(b: Grid, nodes: seq<Node>, labels: seq<string>, w: string)
    requires WellShaped(b) && Labelled(nodes, labels) && w in SpelledWords(b, Markers(nodes)) - {ProtoKey}
    ensures w in Solutions(b, nodes)
  {
    var p :| SimplePath(b, {}, p) && Spells(b, p, w);
    var m :| 0 <= m < |nodes| && nodes[m].end.Some? && nodes[m].end.value == w;
    assert EndSymbol !in nodes[m].children;
    assert w in EndWord(nodes[m]);
    MarkerIsPath(nodes, labels, m, w);
    var c := p[0];
    assert w in Reach(b, nodes, {}, c, 0);
    ReachInFound(b, nodes, {}, c, 0);
    assert c in LiveCells(b);
  }

  /** The search from the root of a labelled trie finds exactly the trie's non-empty
      words that the board spells along a simple path of adjacent tiles, a wildcard tile
      standing for any letter, except "__proto__", which validWords cannot hold. */
  lemma SolutionsAreSpelledWords(b: Grid, nodes: seq<Node>, labels: seq<string>)
    requires WellShaped(b) && Labelled(nodes, labels)
    ensures Solutions(b, nodes) == SpelledWords(b, Markers(nodes)) - {ProtoKey}
  {
    forall w | w in Solutions(b, nodes) ensures w in SpelledWords(b, Markers(nodes)) - {ProtoKey} {
      SolutionsSpelled(b, nodes, labels, w);
    }
    forall w | w in SpelledWords(b, Markers(nodes)) - {ProtoKey} ensures w in Solutions(b, nodes) {
      SpelledSolutions(b, nodes, labels, w);
    }
  }
}
