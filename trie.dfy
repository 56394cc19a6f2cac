/** The dictionary prefix tree of model/trie.js.

    The source nests plain objects: each node maps a letter to its child and keeps
    the word that ends there under the key '!'. Here the nodes live in an arena
    (a sequence indexed by node number, the root being node 0). A node's key '!'
    holds either a child object (when a word has '!' as a letter), kept with the
    other children, or a stored word, kept as the end marker; never both. */
module TrieIndex {
  import opened Wrappers
  import opened Config
  import opened JsString

  datatype Node = Node(children: map<char, nat>, end: Option<string>)

  const EmptyNode: Node := Node(map[], None)

  /** Every child index points into the arena, and there is a root. */
  ghost predicate Closed(nodes: seq<Node>) {
    |nodes| > 0 &&
    forall m, ch :: 0 <= m < |nodes| && ch in nodes[m].children ==> nodes[m].children[ch] < |nodes|
  }

  /** Follows the letters of s from node n; None when some letter has no child. */
  function Walk(nodes: seq<Node>, n: nat, s: string): (r: Option<nat>)
    requires Closed(nodes) && n < |nodes|
    ensures r.Some? ==> r.value < |nodes|
    ensures s == [] ==> r == Some(n)
    decreases |s|
  {
    if s == [] then Some(n)
    else if s[0] in nodes[n].children then Walk(nodes, nodes[n].children[s[0]], s[1..])
    else None
  }

  /** b keeps every node of a and every child edge of a unchanged, and may add more. */
  ghost predicate Extends(a: seq<Node>, b: seq<Node>) {
    |a| <= |b| &&
    forall m, ch :: 0 <= m < |a| && ch in a[m].children ==>
      ch in b[m].children && b[m].children[ch] == a[m].children[ch]
  }

  /** The set of end markers stored in the arena. */
  ghost function Markers(nodes: seq<Node>): set<string> {
    set m | 0 <= m < |nodes| && nodes[m].end.Some? :: nodes[m].end.value
  }

  /** No node has a child under the end symbol: every key '!' holds a stored word. */
  ghost predicate NoEndKey(nodes: seq<Node>) {
    forall m, ch :: 0 <= m < |nodes| && ch in nodes[m].children ==> ch != EndSymbol
  }

  /** The key '!' of a node holds one value: a child or a stored word, not both. */
  ghost predicate Slotted(nodes: seq<Node>) {
    forall m :: 0 <= m < |nodes| && EndSymbol in nodes[m].children ==> nodes[m].end.None?
  }

  /** labels[m] is the string of keys on the path from the root to node m: the arena is
      a tree (each edge extends its parent's label by its key, and every label leads
      back to its node), no key is the end symbol, and each end marker equals its
      node's label. */
  ghost predicate Labelled(nodes: seq<Node>, labels: seq<string>) {
    Closed(nodes) && NoEndKey(nodes) && |labels| == |nodes| && labels[0] == [] &&
    (forall m, ch :: 0 <= m < |nodes| && ch in nodes[m].children ==>
       labels[nodes[m].children[ch]] == labels[m] + [ch]) &&
    (forall m :: 0 <= m < |nodes| && nodes[m].end.Some? ==> nodes[m].end.value == labels[m]) &&
    (forall m :: 0 <= m < |nodes| ==> Walk(nodes, 0, labels[m]) == Some(m))
  }

  /** Walking one more letter is one more step from where the walk ended. */
  lemma {:induction false} WalkSnoc(nodes: seq<Node>, n: nat, s: string, c: char)
    requires Closed(nodes) && n < |nodes|
    ensures Walk(nodes, n, s + [c]) ==
      match Walk(nodes, n, s)
      case None => None
      case Some(m) => if c in nodes[m].children then Some(nodes[m].children[c]) else None
    decreases |s|
  {
    if s == [] {
      assert [] + [c] == [c];
    } else {
      assert (s + [c])[1..] == s[1..] + [c];
      if s[0] in nodes[n].children {
        WalkSnoc(nodes, nodes[n].children[s[0]], s[1..], c);
      }
    }
  }

  /** Growing the arena never breaks a walk that already succeeded. */
  lemma {:induction false} WalkExtends(a: seq<Node>, b: seq<Node>, n: nat, s: string)
    requires Closed(a) && Closed(b) && Extends(a, b) && n < |a|
    requires Walk(a, n, s).Some?
    ensures Walk(b, n, s) == Walk(a, n, s)
    decreases |s|
  {
    if s != [] {
      WalkExtends(a, b, a[n].children[s[0]], s[1..]);
    }
  }

  /** In a labelled arena a walk from n by s ends at the node labelled labels[n] + s. */
  lemma {:induction false} WalkLabel(nodes: seq<Node>, labels: seq<string>, n: nat, s: string)
    requires Labelled(nodes, labels) && n < |nodes|
    requires Walk(nodes, n, s).Some?
    ensures labels[Walk(nodes, n, s).value] == labels[n] + s
    decreases |s|
  {
    if s == [] {
      assert labels[n] + s == labels[n];
    } else {
      var k := nodes[n].children[s[0]];
      WalkLabel(nodes, labels, k, s[1..]);
      assert labels[n] + s == labels[n] + [s[0]] + s[1..];
    }
  }

  /** Every end marker is the string of keys on the root path of its node: walking the
      marker from the root reaches that node, and no other string does. */
  lemma MarkerIsPath(nodes: seq<Node>, labels: seq<string>, m: nat, s: string)
    requires Labelled(nodes, labels) && m < |nodes| && nodes[m].end.Some?
    ensures Walk(nodes, 0, nodes[m].end.value) == Some(m)
    ensures Walk(nodes, 0, s) == Some(m) ==> s == nodes[m].end.value
  {
    if Walk(nodes, 0, s) == Some(m) {
      WalkLabel(nodes, labels, 0, s);
      assert [] + s == s;
    }
  }

  /** What Trie.add does from the cursor `cur` with the letters `rest` still to read:
      create each missing child, then store `word` as the end marker. */
  function InsertFrom(nodes: seq<Node>, cur: nat, rest: string, word: string): (r: seq<Node>)
    requires Closed(nodes) && cur < |nodes|
    ensures Closed(r) && |nodes| <= |r|
    decreases |rest|
  {
    if rest == [] then
      nodes[cur := nodes[cur].(end := Some(word))]
    else if rest[0] in nodes[cur].children then
      InsertFrom(nodes, nodes[cur].children[rest[0]], rest[1..], word)
    else
      var k := |nodes|;
      var grown := nodes[cur := nodes[cur].(children := nodes[cur].children[rest[0] := k])] + [EmptyNode];
      InsertFrom(grown, k, rest[1..], word)
  }

  /** The arena after add(word). */
  function Inserted(nodes: seq<Node>, word: string): (r: seq<Node>)
    requires Closed(nodes)
    ensures Closed(r)
  {
    InsertFrom(nodes, 0, word, word)
  }

  /** The node at which InsertFrom stores the marker. */
  function InsertTarget(nodes: seq<Node>, cur: nat, rest: string): nat
    requires Closed(nodes) && cur < |nodes|
    decreases |rest|
  {
    if rest == [] then cur
    else if rest[0] in nodes[cur].children then
      InsertTarget(nodes, nodes[cur].children[rest[0]], rest[1..])
    else
      var k := |nodes|;
      var grown := nodes[cur := nodes[cur].(children := nodes[cur].children[rest[0] := k])] + [EmptyNode];
      InsertTarget(grown, k, rest[1..])
  }

  /** Growing a node by one new child extends the arena. */
  lemma GrowExtends(nodes: seq<Node>, cur: nat, ch: char)
    requires Closed(nodes) && cur < |nodes| && ch !in nodes[cur].children
    ensures var grown := nodes[cur := nodes[cur].(children := nodes[cur].children[ch := |nodes|])] + [EmptyNode];
      Closed(grown) && Extends(nodes, grown)
  {
  }

  lemma ExtendsTransitive(a: seq<Node>, b: seq<Node>, c: seq<Node>)
    requires Extends(a, b) && Extends(b, c)
    ensures Extends(a, c)
  {
  }

  /** What add does, node by node: it only adds children (never replacing one), the
      word then leads to the target, whose marker becomes the word; every other marker
      is kept and new nodes have none; and the target is new unless the word already
      led to it. */
  lemma {:induction false} InsertFacts(nodes: seq<Node>, cur: nat, rest: string, word: string)
    requires Closed(nodes) && cur < |nodes|
    ensures var r, m := InsertFrom(nodes, cur, rest, word), InsertTarget(nodes, cur, rest);
      m < |r|
      && Extends(nodes, r)
      && Walk(r, cur, rest) == Some(m)
      && (forall x :: 0 <= x < |r| ==>
            r[x].end == (if x == m then Some(word) else if x < |nodes| then nodes[x].end else None))
      && (m >= |nodes| || Walk(nodes, cur, rest) == Some(m))
    decreases |rest|
  {
    if rest == [] {
    } else if rest[0] in nodes[cur].children {
      var k := nodes[cur].children[rest[0]];
      InsertFacts(nodes, k, rest[1..], word);
    } else {
      var k := |nodes|;
      var grown := nodes[cur := nodes[cur].(children := nodes[cur].children[rest[0] := k])] + [EmptyNode];
      GrowExtends(nodes, cur, rest[0]);
      InsertFacts(grown, k, rest[1..], word);
      var r := InsertFrom(grown, k, rest[1..], word);
      ExtendsTransitive(nodes, grown, r);
    }
  }

  /** After add(word) the word leads from the root to a node whose marker is the word. */
  lemma InsertedRetrievable(nodes: seq<Node>, word: string)
    requires Closed(nodes)
    ensures var r := Inserted(nodes, word);
      Walk(r, 0, word).Some? && r[Walk(r, 0, word).value].end == Some(word)
  {
    InsertFacts(nodes, 0, word, word);
  }

  /** add never replaces or removes an existing child. */
  lemma InsertedExtends(nodes: seq<Node>, word: string)
    requires Closed(nodes)
    ensures Extends(nodes, Inserted(nodes, word))
  {
    InsertFacts(nodes, 0, word, word);
  }

  /** Inserting along a path that already exists only rewrites the marker at its end. */
  lemma {:induction false} InsertExisting(nodes: seq<Node>, cur: nat, rest: string, word: string)
    requires Closed(nodes) && cur < |nodes| && Walk(nodes, cur, rest).Some?
    ensures var m := Walk(nodes, cur, rest).value;
      InsertFrom(nodes, cur, rest, word) == nodes[m := nodes[m].(end := Some(word))]
    decreases |rest|
  {
    if rest != [] {
      InsertExisting(nodes, nodes[cur].children[rest[0]], rest[1..], word);
    }
  }

  /** Adding the same word twice leaves the trie exactly as adding it once. */
  lemma InsertedIdempotent(nodes: seq<Node>, word: string)
    requires Closed(nodes)
    ensures Inserted(Inserted(nodes, word), word) == Inserted(nodes, word)
  {
    var r := Inserted(nodes, word);
    InsertedRetrievable(nodes, word);
    var m := Walk(r, 0, word).value;
    InsertExisting(r, 0, word, word);
    assert r[m].(end := Some(word)) == r[m];
    assert r[m := r[m]] == r;
  }

  /** In a labelled arena, add(word) adds exactly `word` to the set of markers. */
  lemma InsertedMarkers(nodes: seq<Node>, labels: seq<string>, word: string)
    requires Labelled(nodes, labels)
    ensures Markers(Inserted(nodes, word)) == Markers(nodes) + {word}
  {
    var r := Inserted(nodes, word);
    var m := InsertTarget(nodes, 0, word);
    InsertFacts(nodes, 0, word, word);
    if m < |nodes| {
      WalkLabel(nodes, labels, 0, word);
      assert labels[m] == word;
    }
    forall v | v in Markers(r) ensures v in Markers(nodes) + {word} {
      var x :| 0 <= x < |r| && r[x].end.Some? && r[x].end.value == v;
      if x != m {
        assert nodes[x].end == Some(v);
      }
    }
    forall v | v in Markers(nodes) + {word} ensures v in Markers(r) {
      if v == word {
        assert r[m].end == Some(word);
      } else {
        var x :| 0 <= x < |nodes| && nodes[x].end.Some? && nodes[x].end.value == v;
        assert r[x].end == nodes[x].end;
      }
    }
  }

  /** Every word stored before add(word) can still be retrieved afterwards, with its
      marker unchanged. */
  lemma InsertedKeepsWords(nodes: seq<Node>, labels: seq<string>, word: string, v: string)
    requires Labelled(nodes, labels) && v in Markers(nodes)
    ensures var r := Inserted(nodes, word);
      Walk(r, 0, v).Some? && r[Walk(r, 0, v).value].end == Some(v)
  {
    var r := Inserted(nodes, word);
    var m := InsertTarget(nodes, 0, word);
    InsertFacts(nodes, 0, word, word);
    var x :| 0 <= x < |nodes| && nodes[x].end.Some? && nodes[x].end.value == v;
    assert Walk(nodes, 0, v) == Some(x) by {
      assert labels[x] == v;
    }
    WalkExtends(nodes, r, 0, v);
    if x == m {
      WalkLabel(nodes, labels, 0, word);
      assert labels[0] + word == word;
    }
  }

  /** Growing a labelled arena by a new child labelled by its parent's label and key. */
  lemma GrowLabelled(nodes: seq<Node>, labels: seq<string>, cur: nat, ch: char)
    requires Labelled(nodes, labels) && cur < |nodes| && ch !in nodes[cur].children && ch != EndSymbol
    ensures var grown := nodes[cur := nodes[cur].(children := nodes[cur].children[ch := |nodes|])] + [EmptyNode];
      Labelled(grown, labels + [labels[cur] + [ch]])
  {
    var k := |nodes|;
    var grown := nodes[cur := nodes[cur].(children := nodes[cur].children[ch := k])] + [EmptyNode];
    var labels' := labels + [labels[cur] + [ch]];
    GrowExtends(nodes, cur, ch);
    forall m, c | 0 <= m < |grown| && c in grown[m].children
      ensures labels'[grown[m].children[c]] == labels'[m] + [c]
    {
      if m != cur || c != ch {
        assert m < k && c in nodes[m].children && grown[m].children[c] == nodes[m].children[c];
      }
    }
    forall m | 0 <= m < |grown| && grown[m].end.Some? ensures grown[m].end.value == labels'[m] {
      assert m < k && grown[m].end == nodes[m].end;
    }
    forall m | 0 <= m < |grown| ensures Walk(grown, 0, labels'[m]) == Some(m) {
      if m < k {
        WalkExtends(nodes, grown, 0, labels[m]);
      } else {
        WalkExtends(nodes, grown, 0, labels[cur]);
        WalkSnoc(grown, 0, labels[cur], ch);
      }
    }
  }

  /** Storing a node's own label as its marker keeps the arena labelled. */
  lemma MarkLabelled(nodes: seq<Node>, labels: seq<string>, cur: nat)
    requires Labelled(nodes, labels) && cur < |nodes|
    ensures Labelled(nodes[cur := nodes[cur].(end := Some(labels[cur]))], labels)
  {
    var marked := nodes[cur := nodes[cur].(end := Some(labels[cur]))];
    assert Extends(nodes, marked) && Extends(marked, nodes);
    forall m | 0 <= m < |marked| ensures Walk(marked, 0, labels[m]) == Some(m) {
      WalkExtends(nodes, marked, 0, labels[m]);
    }
  }

  /** The node once `node[END_SYMBOL] = word` has run: the key now holds the word, so a
      child stored under it before is dropped, and every letter child is kept. */
  function Stored(node: Node, word: string): (r: Node)
    ensures r.end == Some(word) && EndSymbol !in r.children
    ensures forall ch :: ch != EndSymbol ==> (ch in r.children <==> ch in node.children)
    ensures forall ch :: ch != EndSymbol && ch in node.children ==> r.children[ch] == node.children[ch]
  {
    Node(if EndSymbol in node.children then node.children - {EndSymbol} else node.children, Some(word))
  }

  /** The node once `node[ch] = {}` has run, the new object being node k: under the end
      symbol the new child takes the place of a stored (empty) word. */
  function Sprout(node: Node, ch: char, k: nat): Node {
    Node(node.children[ch := k], if ch == EndSymbol then None else node.end)
  }

  /** The arena after add, and whether add threw. */
  datatype AddResult = AddResult(nodes: seq<Node>, threw: bool)

  /** What Trie.add does with any word, from the cursor `cur` with the letters `rest`
      still to read. A letter whose entry is missing or falsy gets a new child. The end
      symbol as a letter, at a node that stores a non-empty word, finds that string
      instead: the cursor turns into a string, and add throws a TypeError (class code
      is strict, so the first store into the string fails, at the latest the final
      store of the word), leaving the arena as it is at that point. */
  function AddFrom(nodes: seq<Node>, cur: nat, rest: string, word: string): (r: AddResult)
    requires Closed(nodes) && cur < |nodes|
    ensures Closed(r.nodes) && |nodes| <= |r.nodes|
    decreases |rest|
  {
    if rest == [] then
      AddResult(nodes[cur := Stored(nodes[cur], word)], false)
    else if rest[0] in nodes[cur].children then
      AddFrom(nodes, nodes[cur].children[rest[0]], rest[1..], word)
    else if rest[0] == EndSymbol && nodes[cur].end.Some? && nodes[cur].end.value != [] then
      AddResult(nodes, true)
    else
      var k := |nodes|;
      AddFrom(nodes[cur := Sprout(nodes[cur], rest[0], k)] + [EmptyNode], k, rest[1..], word)
  }

  /** add(word) on the arena, for any word. */
  function AddWord(nodes: seq<Node>, word: string): (r: AddResult)
    requires Closed(nodes)
    ensures Closed(r.nodes)
  {
    AddFrom(nodes, 0, word, word)
  }

  /** For a word without the end symbol, on an arena without '!' children, add is the
      insertion of InsertFrom and never throws. */
  lemma {:induction false} AddFromClean(nodes: seq<Node>, cur: nat, rest: string, word: string)
    requires Closed(nodes) && NoEndKey(nodes) && cur < |nodes| && EndSymbol !in rest
    ensures AddFrom(nodes, cur, rest, word) == AddResult(InsertFrom(nodes, cur, rest, word), false)
    decreases |rest|
  {
    if rest != [] {
      assert rest[0] != EndSymbol && EndSymbol !in rest[1..];
      if rest[0] in nodes[cur].children {
        AddFromClean(nodes, nodes[cur].children[rest[0]], rest[1..], word);
      } else {
        var k := |nodes|;
        var grown := nodes[cur := nodes[cur].(children := nodes[cur].children[rest[0] := k])] + [EmptyNode];
        assert nodes[cur := Sprout(nodes[cur], rest[0], k)] + [EmptyNode] == grown;
        AddFromClean(grown, k, rest[1..], word);
      }
    }
  }

  /** add keeps one value under every key '!'. */
  lemma {:induction false} AddFromSlotted(nodes: seq<Node>, cur: nat, rest: string, word: string)
    requires Closed(nodes) && Slotted(nodes) && cur < |nodes|
    ensures Slotted(AddFrom(nodes, cur, rest, word).nodes)
    decreases |rest|
  {
    if rest != [] {
      if rest[0] in nodes[cur].children {
        AddFromSlotted(nodes, nodes[cur].children[rest[0]], rest[1..], word);
      } else if !(rest[0] == EndSymbol && nodes[cur].end.Some? && nodes[cur].end.value != []) {
        var k := |nodes|;
        AddFromSlotted(nodes[cur := Sprout(nodes[cur], rest[0], k)] + [EmptyNode], k, rest[1..], word);
      }
    }
  }

  /** Along a path that exists, add only moves the cursor. */
  lemma {:induction false} AddFollows(nodes: seq<Node>, cur: nat, s: string, tail: string, word: string)
    requires Closed(nodes) && cur < |nodes| && Walk(nodes, cur, s).Some?
    ensures AddFrom(nodes, cur, s + tail, word) == AddFrom(nodes, Walk(nodes, cur, s).value, tail, word)
    decreases |s|
  {
    if s == [] {
      assert s + tail == tail;
    } else {
      assert (s + tail)[0] == s[0] && (s + tail)[1..] == s[1..] + tail;
      AddFollows(nodes, nodes[cur].children[s[0]], s[1..], tail, word);
    }
  }

  /** Once a non-empty word v is stored, adding v followed by the end symbol (and
      anything after it) throws and changes nothing: the cursor meets the stored string. */
  lemma AddPastWordThrows(nodes: seq<Node>, labels: seq<string>, v: string, tail: string)
    requires Labelled(nodes, labels) && v in Markers(nodes) && v != []
    ensures AddWord(nodes, v + [EndSymbol] + tail) == AddResult(nodes, true)
  {
    var m :| 0 <= m < |nodes| && nodes[m].end.Some? && nodes[m].end.value == v;
    MarkerIsPath(nodes, labels, m, v);
    var word := v + [EndSymbol] + tail;
    assert word == v + ([EndSymbol] + tail);
    AddFollows(nodes, 0, v, [EndSymbol] + tail, word);
    assert ([EndSymbol] + tail)[0] == EndSymbol;
  }

  /** add(word) keeps a labelled arena labelled, with the labels of the new nodes
      appended, when the word has no end symbol. */
  lemma {:induction false} InsertLabelling(nodes: seq<Node>, labels: seq<string>, cur: nat, rest: string, word: string)
      returns (labels': seq<string>)
    requires Labelled(nodes, labels) && cur < |nodes| && labels[cur] + rest == word && EndSymbol !in rest
    ensures Labelled(InsertFrom(nodes, cur, rest, word), labels')
    decreases |rest|
  {
    if rest == [] {
      assert labels[cur] == word;
      MarkLabelled(nodes, labels, cur);
      labels' := labels;
    } else {
      var ch := rest[0];
      assert labels[cur] + [ch] + rest[1..] == word && ch != EndSymbol && EndSymbol !in rest[1..];
      if ch in nodes[cur].children {
        labels' := InsertLabelling(nodes, labels, nodes[cur].children[ch], rest[1..], word);
      } else {
        var k := |nodes|;
        GrowLabelled(nodes, labels, cur, ch);
        var grown := nodes[cur := nodes[cur].(children := nodes[cur].children[ch := k])] + [EmptyNode];
        labels' := InsertLabelling(grown, labels + [labels[cur] + [ch]], k, rest[1..], word);
      }
    }
  }

  /** One dictionary line as init prepares it: trimmed, then lower-cased. */
  function NormalizeLine(line: string): string {
    ToLower(Trim(line))
  }

  /** A line with no white space and no capital letter is its own normal form. */
  lemma PlainLineKept(line: string)
    requires forall k :: 0 <= k < |line| ==> !IsJsSpace(line[k]) && !('A' <= line[k] <= 'Z')
    ensures NormalizeLine(line) == line
  {
    if line != [] {
      assert LeadingSpace(line) == 0;
      assert TrailingSpace(line) == |line|;
    }
    assert Trim(line) == line;
    assert ToLower(line) == line;
  }

  /** A blank line (white space only) becomes the empty word, whose marker lands on the root. */
  lemma BlankLineMarksRoot(nodes: seq<Node>, line: string)
    requires Closed(nodes)
    requires forall k :: 0 <= k < |line| ==> IsJsSpace(line[k])
    ensures NormalizeLine(line) == []
    ensures Inserted(nodes, NormalizeLine(line)) == nodes[0 := nodes[0].(end := Some([]))]
  {
    TrimBlank(line);
  }

  /** No line, once normalised, has the end symbol as a letter. */
  predicate PlainLines(lines: seq<string>) {
    forall k :: 0 <= k < |lines| ==> EndSymbol !in NormalizeLine(lines[k])
  }

  /** The arena init builds from a sequence of lines: add applied to each normalised line in turn. */
  function Build(lines: seq<string>): (r: seq<Node>)
    ensures Closed(r)
  {
    if lines == [] then [EmptyNode]
    else Inserted(Build(lines[..|lines| - 1]), NormalizeLine(lines[|lines| - 1]))
  }

  /** What init builds from a sequence of lines, for any lines: add applied to each
      normalised line in turn, up to the first add that throws. */
  function Load(lines: seq<string>): (r: AddResult)
    ensures Closed(r.nodes)
  {
    if lines == [] then AddResult([EmptyNode], false)
    else
      var before := Load(lines[..|lines| - 1]);
      if before.threw then before else AddWord(before.nodes, NormalizeLine(lines[|lines| - 1]))
  }

  /** Once an add has thrown, the later lines change nothing. */
  lemma {:induction false} LoadThrown(lines: seq<string>, i: nat)
    requires i <= |lines| && Load(lines[..i]).threw
    ensures Load(lines) == Load(lines[..i])
    decreases |lines|
  {
    if i < |lines| {
      var init := lines[..|lines| - 1];
      assert init[..i] == lines[..i];
      LoadThrown(init, i);
    } else {
      assert lines[..i] == lines;
    }
  }

  /** The words of a dictionary as init adds them to the trie. */
  function DictionaryWords(lines: seq<string>): set<string> {
    set k | 0 <= k < |lines| :: NormalizeLine(lines[k])
  }

  lemma DictionaryWordsSnoc(lines: seq<string>)
    requires lines != []
    ensures DictionaryWords(lines) == DictionaryWords(lines[..|lines| - 1]) + {NormalizeLine(lines[|lines| - 1])}
  {
    var init := lines[..|lines| - 1];
    forall k | 0 <= k < |init| ensures init[k] == lines[k] {}
  }

  /** For lines without the end symbol, init never throws, builds the arena of Build,
      which is labelled, and stores exactly the normalised lines. */
  lemma {:induction false} BuildLabelled(lines: seq<string>) returns (labels: seq<string>)
    requires PlainLines(lines)
    ensures Load(lines) == AddResult(Build(lines), false)
    ensures Labelled(Build(lines), labels)
    ensures Markers(Build(lines)) == DictionaryWords(lines)
    decreases |lines|
  {
    if lines == [] {
      labels := [[]];
      assert Markers([EmptyNode]) == {};
    } else {
      var init := lines[..|lines| - 1];
      var w := NormalizeLine(lines[|lines| - 1]);
      assert PlainLines(init) by {
        forall k | 0 <= k < |init| ensures EndSymbol !in NormalizeLine(init[k]) {
          assert init[k] == lines[k];
        }
      }
      var before := BuildLabelled(init);
      var nodes := Build(init);
      assert Build(lines) == Inserted(nodes, w);
      assert Load(lines) == AddWord(nodes, w);
      AddFromClean(nodes, 0, w, w);
      InsertedMarkers(nodes, before, w);
      assert [] + w == w;
      labels := InsertLabelling(nodes, before, 0, w, w);
      DictionaryWordsSnoc(lines);
    }
  }

  /** The Trie class: a mutable root (here the whole arena) and add. */
  class Trie {
    var nodes: seq<Node>
    ghost var labels: seq<string>

    /** The arena is closed, and every key '!' holds one value. */
    ghost predicate Valid()
      reads this
    {
      Closed(nodes) && Slotted(nodes)
    }

    /** The words stored in the trie. */
    ghost function Words(): set<string>
      reads this
    {
      Markers(nodes)
    }

    /** A new trie is a single empty root. */
    constructor ()
      ensures Valid() && Labelled(nodes, labels)
      ensures nodes == [EmptyNode] && Words() == {}
    {
      nodes := [EmptyNode];
      labels := [[]];
    }

    /** Walks a cursor down from the root, creating each missing child, and stores the
        word as the end marker of the node it reaches; threw says that add threw. For a
        word without the end symbol in a labelled trie, that is the insertion of
        Inserted and adds exactly the word to the stored words. */
    method Add(word: string) returns (threw: bool)
      requires Valid()
      modifies this
      ensures Valid()
      ensures AddResult(nodes, threw) == AddWord(old(nodes), word)
      ensures old(Labelled(nodes, labels)) && EndSymbol !in word ==>
        !threw && Labelled(nodes, labels) && nodes == Inserted(old(nodes), word) &&
        Words() == old(Words()) + {word}
    {
      ghost var start := nodes;
      var arena := nodes;
      var current: nat := 0;
      var i := 0;
      while i < |word|
        invariant i <= |word| && Closed(arena) && Slotted(arena) && current < |arena|
        invariant AddFrom(arena, current, word[i..], word) == AddWord(start, word)
      {
        var letter := word[i];
        assert word[i..][0] == letter && word[i..][1..] == word[i + 1..];
        if letter !in arena[current].children {
          if letter == EndSymbol && arena[current].end.Some? && arena[current].end.value != [] {
            // current[letter] is the stored word: the cursor becomes a string, and the
            // first store into it throws.
            nodes := arena;
            return true;
          }
          var k := |arena|;
          arena := arena[current := Sprout(arena[current], letter, k)] + [EmptyNode];
        }
        current := arena[current].children[letter];
        i := i + 1;
      }
      assert word[i..] == [];
      nodes := arena[current := Stored(arena[current], word)];
      threw := false;
      if Labelled(start, labels) && EndSymbol !in word {
        AddFromClean(start, 0, word, word);
        InsertedMarkers(start, labels, word);
        assert [] + word == word;
        labels := InsertLabelling(start, labels, 0, word, word);
      }
    }
  }

  /** init: a new trie with every (trimmed, lower-cased) dictionary line added in order,
      until an add throws. When no line has the end symbol, nothing throws and the trie
      stores exactly the normalised lines. */
  method Init(lines: seq<string>) returns (trie: Trie, threw: bool)
    ensures fresh(trie) && trie.Valid()
    ensures AddResult(trie.nodes, threw) == Load(lines)
    ensures PlainLines(lines) ==>
      !threw && Labelled(trie.nodes, trie.labels) && trie.nodes == Build(lines) &&
      trie.Words() == DictionaryWords(lines)
  {
    trie := new Trie();
    threw := false;
    var i := 0;
    while i < |lines| && !threw
      invariant i <= |lines| && trie.Valid()
      invariant AddResult(trie.nodes, threw) == Load(lines[..i])
    {
      ghost var before := trie.nodes;
      assert lines[..i + 1][..i] == lines[..i] && lines[..i + 1][i] == lines[i];
      assert Load(lines[..i + 1]) == AddWord(before, NormalizeLine(lines[i]));
      threw := trie.Add(NormalizeLine(lines[i]));
      i := i + 1;
    }
    if threw {
      LoadThrown(lines, i);
    } else {
      assert lines[..i] == lines;
    }
    if PlainLines(lines) {
      // The labelling of the finished trie, for the proofs about the search.
      trie.labels := BuildLabelled(lines);
    }
  }
}
