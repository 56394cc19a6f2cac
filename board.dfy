/** The board pipeline of api/controller.js: convertBoardTo2DArray and calculateWildcards.

    A board is a sequence of rows of tiles. A tile is whatever token the comma split
    produced (normally one letter or the wildcard "*"); the source never checks token
    count or alphabet, so every row but the last has BoardLength tiles and the last
    may be shorter. */
module Board {
  import opened Config
  import opened JsString

  type Grid = seq<seq<string>>

  /** board.toLowerCase().replace(/ /g, '').split(',') */
  function Tokens(board: string): (tokens: seq<string>)
    ensures |tokens| > 0
  {
    Split(RemoveSpaces(ToLower(board)), ',')
  }

  /** The rows read left to right, top to bottom. */
  function Flatten(rows: Grid): seq<string> {
    if rows == [] then [] else rows[0] + Flatten(rows[1..])
  }

  lemma {:induction false} FlattenSnoc(rows: Grid, row: seq<string>)
    ensures Flatten(rows + [row]) == Flatten(rows) + row
  {
    if rows != [] {
      assert (rows + [row])[1..] == rows[1..] + [row];
      FlattenSnoc(rows[1..], row);
    }
  }

  /** Consecutive slices of BoardLength tokens, the last one possibly shorter:
      what the push loop of convertBoardTo2DArray builds. */
  function Chunk(tokens: seq<string>): Grid
    decreases |tokens|
  {
    if tokens == [] then []
    else if |tokens| <= BoardLength then [tokens]
    else [tokens[..BoardLength]] + Chunk(tokens[BoardLength..])
  }

  /** Chunking loses and reorders nothing. */
  lemma {:induction false} ChunkFlatten(tokens: seq<string>)
    ensures Flatten(Chunk(tokens)) == tokens
    decreases |tokens|
  {
    if tokens == [] {
    } else if |tokens| <= BoardLength {
      assert Flatten([tokens]) == tokens + Flatten([]);
    } else {
      var rest := Chunk(tokens[BoardLength..]);
      ChunkFlatten(tokens[BoardLength..]);
      assert ([tokens[..BoardLength]] + rest)[1..] == rest;
      assert tokens[..BoardLength] + tokens[BoardLength..] == tokens;
    }
  }

  /** There are ceil(n / BoardLength) rows; every row but the last is full and the
      last is non-empty. */
  lemma {:induction false} ChunkShape(tokens: seq<string>)
    ensures var rows := Chunk(tokens);
      |rows| == (|tokens| + BoardLength - 1) / BoardLength
      && (forall r :: 0 <= r < |rows| - 1 ==> |rows[r]| == BoardLength)
      && (rows != [] ==> 0 < |rows[|rows| - 1]| <= BoardLength)
    decreases |tokens|
  {
    if |tokens| > BoardLength {
      var rest := Chunk(tokens[BoardLength..]);
      ChunkShape(tokens[BoardLength..]);
      var rows := [tokens[..BoardLength]] + rest;
      assert Chunk(tokens) == rows;
      assert forall r :: 1 <= r < |rows| ==> rows[r] == rest[r - 1];
    }
  }

  /** The boards the search accepts: at least one row, none longer than the first
      (getNeighbours takes the first row's length as the width). */
  ghost predicate WellShaped(b: Grid) {
    |b| > 0 && forall r :: 0 <= r < |b| ==> |b[r]| <= |b[0]|
  }

  /** The board parsed from a board string. */
  function BoardOf(board: string): Grid {
    Chunk(Tokens(board))
  }

  /** Chunking a non-empty token list gives a well-shaped board. */
  lemma ChunkWellShaped(tokens: seq<string>)
    requires |tokens| > 0
    ensures WellShaped(Chunk(tokens))
  {
    var rows := Chunk(tokens);
    ChunkShape(tokens);
    assert |rows| > 0;
    if |rows| > 1 {
      assert |rows[0]| == BoardLength;
    }
  }

  /** One turn of the push loop: the chunks from position i are the slice at i
      followed by the chunks after it. */
  lemma ChunkStep(tokens: seq<string>, i: nat)
    requires i < |tokens|
    ensures Chunk(tokens[i..])
         == [tokens[i..Min(i + BoardLength, |tokens|)]] + Chunk(tokens[Min(i + BoardLength, |tokens|)..])
  {
    var rest := tokens[i..];
    assert rest[..Min(BoardLength, |rest|)] == tokens[i..Min(i + BoardLength, |tokens|)];
    assert rest[Min(BoardLength, |rest|)..] == tokens[Min(i + BoardLength, |tokens|)..];
    if |rest| <= BoardLength {
      assert tokens[Min(i + BoardLength, |tokens|)..] == [];
      assert Chunk(tokens[Min(i + BoardLength, |tokens|)..]) == [];
      assert tokens[i..Min(i + BoardLength, |tokens|)] == rest;
      assert Chunk(rest) == [rest];
    } else {
      assert Chunk(rest) == [rest[..BoardLength]] + Chunk(rest[BoardLength..]);
    }
  }

  /** convertBoardTo2DArray: normalises the string, splits it on commas and pushes
      slices of BoardLength tokens. */
  method ConvertBoardTo2DArray(board: string) returns (result: Grid)
    ensures result == BoardOf(board)
    ensures Flatten(result) == Tokens(board)
    ensures |result| == (|Tokens(board)| + BoardLength - 1) / BoardLength
    ensures forall r :: 0 <= r < |result| - 1 ==> |result[r]| == BoardLength
    ensures 0 < |result[|result| - 1]| <= BoardLength
    ensures WellShaped(result)
  {
    result := [];
    var boardArr := Split(RemoveSpaces(ToLower(board)), ',');
    var i := 0;
    while i < |boardArr|
      invariant result + Chunk(boardArr[Min(i, |boardArr|)..]) == Chunk(boardArr)
      decreases |boardArr| - i
    {
      ChunkStep(boardArr, i);
      result := result + [boardArr[i..Min(i + BoardLength, |boardArr|)]];
      i := i + BoardLength;
    }
    assert boardArr[Min(i, |boardArr|)..] == [];
    ChunkFlatten(boardArr);
    ChunkShape(boardArr);
    ChunkWellShaped(boardArr);
  }

  function Min(a: int, b: int): int {
    if a <= b then a else b
  }

  /** The number of wildcard tiles on the board. */
  function WildcardCount(b: Grid): nat {
    multiset(Flatten(b))[Wildcard]
  }

  /** There are never more wildcards than tiles. */
  lemma {:induction false} WildcardsAtMostTiles(b: Grid)
    ensures WildcardCount(b) <= |Flatten(b)|
  {
    CountAtMostLength(Flatten(b), Wildcard);
  }

  lemma {:induction false} CountAtMostLength(s: seq<string>, x: string)
    ensures multiset(s)[x] <= |s|
  {
    if s != [] {
      CountAtMostLength(s[1..], x);
      assert s == [s[0]] + s[1..];
      assert multiset(s) == multiset([s[0]]) + multiset(s[1..]);
    }
  }

  /** calculateWildcards: counts the '*' tiles row by row. */
  method CalculateWildcards(board2DArr: Grid) returns (wildcards: nat)
    ensures wildcards == WildcardCount(board2DArr)
    ensures wildcards <= |Flatten(board2DArr)|
  {
    wildcards := 0;
    for i := 0 to |board2DArr|
      invariant wildcards == multiset(Flatten(board2DArr[..i]))[Wildcard]
    {
      for j := 0 to |board2DArr[i]|
        invariant wildcards == multiset(Flatten(board2DArr[..i]) + board2DArr[i][..j])[Wildcard]
      {
        assert board2DArr[i][..j + 1] == board2DArr[i][..j] + [board2DArr[i][j]];
        if board2DArr[i][j] == Wildcard {
          wildcards := wildcards + 1;
        }
      }
      assert board2DArr[i][..|board2DArr[i]|] == board2DArr[i];
      assert board2DArr[..i + 1] == board2DArr[..i] + [board2DArr[i]];
      FlattenSnoc(board2DArr[..i], board2DArr[i]);
    }
    assert board2DArr[..|board2DArr|] == board2DArr;
    WildcardsAtMostTiles(board2DArr);
  }
}
