/** A worked game: the board "*,b" with the dictionary lines ab, xb and cc. */
module Scenarios {
  import opened JsString
  import opened TrieIndex
  import opened Board
  import opened Search
  import opened Config
  import opened Game

  /** createGame on this board and dictionary returns the words ab and xb. */
  method ExampleGame() returns (outcome: Outcome)
    ensures outcome == Created({"ab", "xb"})
  {
    var board, dictionary := "*,b", ["ab", "xb", "cc"];
    ExampleFacts(board, dictionary);
    outcome := CreateGame(board, dictionary);
  }

  /** The board has one wildcard, no line has the end symbol, and the board spells ab
      and xb of the dictionary. */
  lemma ExampleFacts(board: string, dictionary: seq<string>)
    requires board == "*,b" && dictionary == ["ab", "xb", "cc"]
    ensures WildcardCount(BoardOf(board)) <= MaxWildcards && PlainLines(dictionary)
    ensures SpelledWords(BoardOf(board), DictionaryWords(dictionary)) - {ProtoKey} == {"ab", "xb"}
  {
    ExampleBoard();
    ExampleDictionary();
    ExampleSpelled();
    NoEndSymbol(dictionary);
  }

  lemma NoEndSymbol(dictionary: seq<string>)
    requires dictionary == ["ab", "xb", "cc"]
    ensures PlainLines(dictionary)
  {
    TwoLetters(dictionary[0]);
    TwoLetters(dictionary[1]);
    TwoLetters(dictionary[2]);
    forall k | 0 <= k < |dictionary|
      ensures EndSymbol !in NormalizeLine(dictionary[k])
    {
      assert k == 0 || k == 1 || k == 2;
    }
  }

  /** The board string "*,b" is one row of two tiles with one wildcard. */
  lemma ExampleBoard()
    ensures BoardOf("*,b") == [["*", "b"]]
    ensures WildcardCount(BoardOf("*,b")) == 1
  {
    assert ToLower("*,b") == "*,b";
    assert RemoveSpaces("*,b") == "*,b";
    var r0 := Split("b", ',');
    assert r0 == ["b"] by {
      assert "b"[1..] == [];
    }
    var r1 := Split(",b", ',');
    assert r1 == [[]] + r0 by {
      assert ",b"[1..] == "b";
    }
    var r2 := Split("*,b", ',');
    assert r2 == [['*'] + r1[0]] + r1[1..] by {
      assert "*,b"[1..] == ",b";
    }
    assert ['*'] + r1[0] == "*" && r1[1..] == ["b"];
    assert Tokens("*,b") == ["*", "b"];
    assert Chunk(["*", "b"]) == [["*", "b"]];
    assert Flatten([["*", "b"]]) == ["*", "b"];
  }

  /** The dictionary lines ab, xb and cc are already trimmed and lower case. */
  lemma ExampleDictionary()
    ensures DictionaryWords(["ab", "xb", "cc"]) == {"ab", "xb", "cc"}
  {
    var d := ["ab", "xb", "cc"];
    ThreeLines(d);
    TwoLetters(d[0]);
    TwoLetters(d[1]);
    TwoLetters(d[2]);
  }

  /** A dictionary of three lines holds the three normalised lines. */
  lemma ThreeLines(d: seq<string>)
    requires |d| == 3
    ensures DictionaryWords(d) == {NormalizeLine(d[0]), NormalizeLine(d[1]), NormalizeLine(d[2])}
  {
    var words := {NormalizeLine(d[0]), NormalizeLine(d[1]), NormalizeLine(d[2])};
    assert forall k :: 0 <= k < |d| ==> NormalizeLine(d[k]) in words by {
      forall k | 0 <= k < |d| ensures NormalizeLine(d[k]) in words {
        assert k == 0 || k == 1 || k == 2;
      }
    }
    assert NormalizeLine(d[0]) in DictionaryWords(d);
    assert NormalizeLine(d[1]) in DictionaryWords(d);
    assert NormalizeLine(d[2]) in DictionaryWords(d);
  }

  /** A dictionary with the line ab and then the line ab! makes init throw: the second
      add meets the stored word ab under the key '!'. */
  lemma ThrowingDictionary(d: seq<string>)
    requires d == ["ab", "ab!"]
    ensures Load(d).threw
  {
    var first := d[..1];
    var ab, bang := d[0], d[1];
    LetterThenMark(bang);
    OneLine(first);
    var labels := BuildLabelled(first);
    AddPastWordThrows(Build(first), labels, ab, []);
    assert ab + [EndSymbol] + [] == bang;
    assert d[..|d| - 1] == first;
  }

  /** Two lower-case letters and the end symbol make a line that is its own normal form. */
  lemma LetterThenMark(w: string)
    requires |w| == 3 && 'a' <= w[0] <= 'z' && 'a' <= w[1] <= 'z' && w[2] == EndSymbol
    ensures NormalizeLine(w) == w
  {
    forall k | 0 <= k < |w| ensures !IsJsSpace(w[k]) && !('A' <= w[k] <= 'Z') {
      assert k == 0 || k == 1 || k == 2;
    }
    PlainLineKept(w);
  }

  /** A dictionary of one line of two lower-case letters holds just that word. */
  lemma OneLine(d: seq<string>)
    requires |d| == 1 && |d[0]| == 2 && 'a' <= d[0][0] <= 'z' && 'a' <= d[0][1] <= 'z'
    ensures PlainLines(d) && DictionaryWords(d) == {d[0]}
  {
    TwoLetters(d[0]);
    forall k | 0 <= k < |d| ensures NormalizeLine(d[k]) == d[0] {
      assert k == 0;
    }
  }

  /** createGame on that dictionary gives no answer: init throws. */
  method ThrowingGame() returns (outcome: Outcome)
    ensures outcome == InitThrew
  {
    var board, dictionary := "*,b", ["ab", "ab!"];
    ExampleBoard();
    ThrowingDictionary(dictionary);
    outcome := CreateGame(board, dictionary);
  }

  /** A line of two lower-case letters is its own normal form. */
  lemma TwoLetters(w: string)
    requires |w| == 2 && 'a' <= w[0] <= 'z' && 'a' <= w[1] <= 'z'
    ensures NormalizeLine(w) == w
  {
    forall k | 0 <= k < |w| ensures !IsJsSpace(w[k]) && !('A' <= w[k] <= 'Z') {
      assert k == 0 || k == 1;
    }
    PlainLineKept(w);
  }

  /** On the board [*, b] the wildcard stands for a and for x, and cc is missing because
      the one tile that matches c cannot be used twice. */
  lemma ExampleSpelled()
    ensures SpelledWords([["*", "b"]], {"ab", "xb", "cc"}) == {"ab", "xb"}
  {
    var b := [["*", "b"]];
    var p := [(0, 0), (0, 1)];
    assert SimplePath(b, {}, p);
    assert Spells(b, p, "ab") && Spells(b, p, "xb");
    NoDoubleC();
  }

  /** No simple path on [*, b] spells cc. */
  lemma NoDoubleC()
    ensures forall q :: SimplePath([["*", "b"]], {}, q) ==> !Spells([["*", "b"]], q, "cc")
  {
    var b := [["*", "b"]];
    forall q | SimplePath(b, {}, q) && |q| == 2
      ensures q[0] != q[1]
      ensures Matches(Tile(b, q[0]), 'c') ==> q[0] == (0, 0)
      ensures Matches(Tile(b, q[1]), 'c') ==> q[1] == (0, 0)
    {
    }
  }
}
