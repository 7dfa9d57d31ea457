/** The Boggle solver (Boggle/BoggleSolver.java): a backtracking search over
    the board that collects every dictionary word of length three or more
    spelled by a path of adjacent, pairwise distinct cells, and the scoring
    table. The dictionary trie is modelled as the set of words it holds; its
    `startsWith` means that some word has the given prefix. */
module Boggle {

  /** A board cell, as (row, column). */
  type Cell = (int, int)

  /** A Boggle board: `rows` rows of `cols` letters each. */
  datatype BoggleBoard = BoggleBoard(rows: nat, cols: nat, letters: seq<seq<char>>)
  {
    predicate Valid() {
      |letters| == rows && forall r :: 0 <= r < rows ==> |letters[r]| == cols
    }

    predicate InBounds(c: Cell) {
      0 <= c.0 < rows && 0 <= c.1 < cols
    }

    function GetLetter(c: Cell): char
      requires Valid() && InBounds(c)
    {
      letters[c.0][c.1]
    }
  }

  /** `Trie.startsWith`: some dictionary word has this prefix. */
  predicate StartsWith(dict: set<string>, prefix: string) {
    exists w | w in dict :: prefix <= w
  }

  /** The text a cell contributes to a word: the die face "Qu" reads "QU". */
  function CellText(c: char): (s: string)
    ensures c == 'Q' ==> s == "QU"
    ensures c != 'Q' ==> s == [c]
  {
    if c == 'Q' then "QU" else [c]
  }

  /** Two cells touch horizontally, vertically or diagonally. */
  predicate Adjacent(a: Cell, b: Cell) {
    a != b && -1 <= a.0 - b.0 <= 1 && -1 <= a.1 - b.1 <= 1
  }

  /** A path on the board: cells in bounds, consecutive cells adjacent, and
      no cell used twice. */
  predicate SimplePath(b: BoggleBoard, path: seq<Cell>) {
    && (forall i :: 0 <= i < |path| ==> b.InBounds(path[i]))
    && (forall i :: 0 < i < |path| ==> Adjacent(path[i - 1], path[i]))
    && (forall i, j :: 0 <= i < j < |path| ==> path[i] != path[j])
  }

  /** The word a path spells. */
  function Spell(b: BoggleBoard, path: seq<Cell>): string
    requires b.Valid() && forall i :: 0 <= i < |path| ==> b.InBounds(path[i])
  {
    if path == [] then []
    else Spell(b, path[..|path| - 1]) + CellText(b.GetLetter(path[|path| - 1]))
  }

  /** A word the solver may report: in the dictionary, at least three
      characters long, and spelled by a simple path on the board. */
  ghost predicate Sound(b: BoggleBoard, dict: set<string>, w: string)
    requires b.Valid()
  {
    w in dict && |w| >= 3 && exists p :: SimplePath(b, p) && Spell(b, p) == w
  }

  /** `scoreOf`: zero for a word outside the dictionary or shorter than
      three characters, otherwise 1, 1, 2, 3, 5 for lengths 3 to 7 and 11
      from length 8 on. */
  function ScoreOf(dict: set<string>, word: string): (r: nat)
    ensures r > 0 <==> word in dict && |word| >= 3
    ensures r > 0 ==> r == (if |word| <= 4 then 1 else if |word| == 5 then 2
                            else if |word| == 6 then 3 else if |word| == 7 then 5 else 11)
  {
    if word !in dict then 0
    else
      var len := |word|;
      if len < 3 then 0
      else if len <= 4 then 1
      else if len == 5 then 2
      else if len == 6 then 3
      else if len == 7 then 5
      else 11
  }

  /** Among dictionary words, a longer word never scores less. */
  lemma ScoreMonotone(dict: set<string>, u: string, w: string)
    requires u in dict && w in dict && |u| <= |w|
    ensures ScoreOf(dict, u) <= ScoreOf(dict, w)
  {
  }

  /** The eight directions the search explores, in the source's order. */
  const RowDir: seq<int> := [-1, -1, -1, 0, 0, 1, 1, 1]
  const ColDir: seq<int> := [-1, 0, 1, -1, 1, -1, 0, 1]

  /** The eight directions are exactly the moves to adjacent cells. */
  lemma DirectionsAreAdjacent(c: Cell, i: int)
    requires 0 <= i < 8
    ensures Adjacent(c, (c.0 + RowDir[i], c.1 + ColDir[i]))
  {
  }

  /** Appending an unused cell adjacent to the end keeps a path simple. */
  lemma ExtendSimplePath(b: BoggleBoard, path: seq<Cell>, c: Cell)
    requires SimplePath(b, path) && b.InBounds(c) && c !in path
    requires path != [] ==> Adjacent(path[|path| - 1], c)
    ensures SimplePath(b, path + [c])
  {
  }

  /** The cells a path visits. */
  ghost function CellsOf(path: seq<Cell>): set<Cell> {
    set c | c in path
  }

  lemma CellsOfAppend(path: seq<Cell>, c: Cell)
    requires c !in path
    ensures CellsOf(path + [c]) == CellsOf(path) + {c}
    ensures CellsOf(path) == CellsOf(path + [c]) - {c}
  {
  }

  /** The cells of the board not on the path; the search depth is bounded
      by their number. */
  ghost function CellsOff(b: BoggleBoard, path: seq<Cell>): set<Cell> {
    set r, c | 0 <= r < b.rows && 0 <= c < b.cols && (r, c) !in path :: (r, c)
  }

  /** Extending the path by an unused board cell removes it from CellsOff. */
  lemma CellsOffShrinks(b: BoggleBoard, path: seq<Cell>, c: Cell)
    requires b.InBounds(c) && c !in path
    ensures c in CellsOff(b, path)
    ensures CellsOff(b, path + [c]) == CellsOff(b, path) - {c}
  {
  }

  /** `marked` is true exactly on the given cells. */
  ghost predicate Marks(marked: array2<bool>, cells: set<Cell>)
    reads marked
  {
    forall r, c :: 0 <= r < marked.Length0 && 0 <= c < marked.Length1 ==>
      (marked[r, c] <==> (r, c) in cells)
  }

  /** `marked[row][col] = v`, moving between the marked sets `before` and
      `after`, which differ in that one cell only. */
  method SetMark(marked: array2<bool>, row: int, col: int, v: bool,
                 ghost before: set<Cell>, ghost after: set<Cell>)
    requires 0 <= row < marked.Length0 && 0 <= col < marked.Length1
    requires Marks(marked, before)
    requires after == if v then before + {(row, col)} else before - {(row, col)}
    modifies marked
    ensures Marks(marked, after)
  {
    marked[row, col] := v;
    forall r, c | 0 <= r < marked.Length0 && 0 <= c < marked.Length1
      ensures marked[r, c] <==> (r, c) in after
    {
      if (r, c) != (row, col) {
        assert (r, c) in after <==> (r, c) in before;
      }
    }
  }

  class BoggleSolver {
    /** The words of the dictionary trie. */
    const dict: set<string>
    /** The words found by the current search. */
    var validWords: set<string>
    /** The word under construction, the solver's StringBuilder. */
    var word: string

    /** Builds the trie from the dictionary array. */
    constructor (dictionary: seq<string>)
      ensures dict == set w | w in dictionary
    {
      var words: set<string> := {};
      for k := 0 to |dictionary|
        invariant words == set w | w in dictionary[..k]
      {
        words := words + {dictionary[k]};
        assert dictionary[..k + 1] == dictionary[..k] + [dictionary[k]];
      }
      assert dictionary[..|dictionary|] == dictionary;
      dict := words;
      validWords := {};
      word := [];
    }

    /** `marked` records exactly the cells of the current path. */
    ghost predicate MarksPath(marked: array2<bool>, path: seq<Cell>)
      reads marked
    {
      Marks(marked, CellsOf(path))
    }

    /** `getAllValidWords`: runs the search from every cell and returns the
        words found; every one of them is a dictionary word of length at
        least three spelled by a simple path. */
    method GetAllValidWords(board: BoggleBoard) returns (words: set<string>)
      requires board.Valid()
      modifies this
      ensures words == validWords
      ensures forall w :: w in words ==> Sound(board, dict, w)
    {
      var marked := new bool[board.rows, board.cols]((_, _) => false);
      validWords := {};
      word := [];
      for row := 0 to board.rows
        invariant fresh(marked) && MarksPath(marked, [])
        invariant word == []
        invariant forall w :: w in validWords ==> Sound(board, dict, w)
      {
        for col := 0 to board.cols
          invariant fresh(marked) && MarksPath(marked, [])
          invariant word == []
          invariant forall w :: w in validWords ==> Sound(board, dict, w)
        {
          Dfs(board, row, col, marked, []);
        }
      }
      words := validWords;
    }

    /** `dfs`: extends the current path by the cell (row, col) when it is on
        the board and unmarked and the extended word is still a dictionary
        prefix, records the word when it is valid, explores the eight
        neighbours, and restores `marked` and the word before returning. */
    method Dfs(board: BoggleBoard, row: int, col: int, marked: array2<bool>, ghost path: seq<Cell>)
      requires board.Valid()
      requires marked.Length0 == board.rows && marked.Length1 == board.cols
      requires SimplePath(board, path) && MarksPath(marked, path)
      requires path != [] ==> Adjacent(path[|path| - 1], (row, col))
      requires word == Spell(board, path)
      requires forall w :: w in validWords ==> Sound(board, dict, w)
      modifies this`validWords, this`word, marked
      ensures word == old(word)
      ensures old(validWords) <= validWords
      ensures forall w :: w in validWords ==> Sound(board, dict, w)
      ensures MarksPath(marked, path)
      ensures (!board.InBounds((row, col)) || old(marked[row, col])
               || !StartsWith(dict, old(word) + CellText(board.letters[row][col]))) ==> validWords == old(validWords)
      ensures board.InBounds((row, col)) && !old(marked[row, col]) ==>
                var w := old(word) + CellText(board.letters[row][col]);
                StartsWith(dict, w) && |w| >= 3 && w in dict ==> w in validWords
      decreases |CellsOff(board, path)|, 1
    {
      if row < 0 || row >= board.rows || col < 0 || col >= board.cols {
        return;
      }
      if marked[row, col] {
        return;
      }
      var letter := CellText(board.letters[row][col]);
      var len := |word|;
      word := word + letter;
      ghost var path' := path + [(row, col)];
      assert (row, col) !in path;
      ExtendSimplePath(board, path, (row, col));
      assert path'[..|path'| - 1] == path;
      assert word == Spell(board, path');
      if !StartsWith(dict, word) {
        word := word[..len];
        return;
      }
      Visit(board, row, col, marked, path);
      word := word[..len];
    }

    /** The part of `dfs` after the prefix test, with the word already
        extended by the cell (row, col): records the word when it is valid,
        marks the cell, explores the neighbours and unmarks it again. */
    method Visit(board: BoggleBoard, row: int, col: int, marked: array2<bool>, ghost path: seq<Cell>)
      requires board.Valid()
      requires marked.Length0 == board.rows && marked.Length1 == board.cols
      requires board.InBounds((row, col)) && (row, col) !in path
      requires SimplePath(board, path + [(row, col)]) && MarksPath(marked, path)
      requires word == Spell(board, path + [(row, col)])
      requires forall w :: w in validWords ==> Sound(board, dict, w)
      modifies this`validWords, this`word, marked
      ensures word == old(word)
      ensures old(validWords) <= validWords
      ensures forall w :: w in validWords ==> Sound(board, dict, w)
      ensures MarksPath(marked, path)
      ensures |old(word)| >= 3 && old(word) in dict ==> old(word) in validWords
      decreases |CellsOff(board, path)|, 0
    {
      ghost var path' := path + [(row, col)];
      Record(board, path');
      CellsOffShrinks(board, path, (row, col));
      CellsOfAppend(path, (row, col));
      SetMark(marked, row, col, true, CellsOf(path), CellsOf(path'));
      ExploreNeighbours(board, row, col, marked, path');
      SetMark(marked, row, col, false, CellsOf(path'), CellsOf(path));
    }

    /** Adds the current word to the words found when it is a dictionary
        word of at least three characters. */
    method Record(board: BoggleBoard, ghost path: seq<Cell>)
      requires board.Valid() && SimplePath(board, path) && word == Spell(board, path)
      requires forall w :: w in validWords ==> Sound(board, dict, w)
      modifies this`validWords
      ensures validWords == old(validWords) + (if |word| >= 3 && word in dict then {word} else {})
      ensures forall w :: w in validWords ==> Sound(board, dict, w)
    {
      if |word| >= 3 && word in dict {
        assert Sound(board, dict, word);
        validWords := validWords + {word};
      }
    }

    /** The loop of `dfs` over the eight directions, run with the cell
        (row, col) marked as the last cell of the path. */
    method ExploreNeighbours(board: BoggleBoard, row: int, col: int, marked: array2<bool>, ghost path: seq<Cell>)
      requires board.Valid()
      requires marked.Length0 == board.rows && marked.Length1 == board.cols
      requires SimplePath(board, path) && MarksPath(marked, path)
      requires path != [] && path[|path| - 1] == (row, col)
      requires word == Spell(board, path)
      requires forall w :: w in validWords ==> Sound(board, dict, w)
      modifies this`validWords, this`word, marked
      ensures word == old(word)
      ensures old(validWords) <= validWords
      ensures forall w :: w in validWords ==> Sound(board, dict, w)
      ensures MarksPath(marked, path)
      decreases |CellsOff(board, path)|, 2
    {
      for i := 0 to 8
        invariant word == Spell(board, path)
        invariant MarksPath(marked, path)
        invariant old(validWords) <= validWords
        invariant forall w :: w in validWords ==> Sound(board, dict, w)
      {
        DirectionsAreAdjacent((row, col), i);
        Dfs(board, row + RowDir[i], col + ColDir[i], marked, path);
      }
    }
  }
}
