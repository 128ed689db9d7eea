/**
 * The first draft of the board (pipe.py at the repository root): a grid of
 * text tokens, its neighbour lookups, the tab-separated parser, and the
 * printer read as the serialiser the parser inverts.
 */
module Text {
  import opened Wrappers

  /** The draft's grid: rows of tokens, as parse_instance builds it. */
  type TextGrid = seq<seq<string>>

  /** The entry at cell c, or None when c is not a cell of g. */
  function TokenAt<T>(g: seq<seq<T>>, c: (int, int)): Option<T>
  {
    if 0 <= c.0 < |g| && 0 <= c.1 < |g[c.0]| then Some(g[c.0][c.1]) else None
  }

  /**
   * adjacent_vertical_values: the tokens of the cells just above and just
   * below, each None when that cell is off the grid. The depth-first draft
   * has the same lookup over its grid of codes.
   */
  function AdjacentVertical<T>(g: seq<seq<T>>, row: int, col: int): (r: (Option<T>, Option<T>))
    requires 0 <= row < |g| && 0 <= col
    requires row > 0 ==> col < |g[row - 1]|
    requires row < |g| - 1 ==> col < |g[row + 1]|
    ensures r == (TokenAt(g, (row - 1, col)), TokenAt(g, (row + 1, col)))
  {
    var above := if row == 0 then None else Some(g[row - 1][col]);
    var below := if row == |g| - 1 then None else Some(g[row + 1][col]);
    (above, below)
  }

  /**
   * adjacent_horizontal_values: the tokens of the cells just left and just
   * right, each None when that cell is off the grid. The last column is
   * found from the width of the first row, so the row must be as wide.
   */
  function AdjacentHorizontal<T>(g: seq<seq<T>>, row: int, col: int): (r: (Option<T>, Option<T>))
    requires 0 <= row < |g| && 0 <= col < |g[row]| && |g[row]| == |g[0]|
    ensures r == (TokenAt(g, (row, col - 1)), TokenAt(g, (row, col + 1)))
  {
    var left := if col == 0 then None else Some(g[row][col - 1]);
    var right := if col == |g[0]| - 1 then None else Some(g[row][col + 1]);
    (left, right)
  }

  // ---------------------------------------------------------------------
  // Text format
  // ---------------------------------------------------------------------

  /** The characters str.strip removes (the ASCII whitespace of str.isspace). */
  predicate IsSpace(c: char)
  {
    // space, tab, newline, carriage return, vertical tab and form feed,
    // and the four information separators 0x1C to 0x1F
    c == ' ' || c == '\t' || c == '\n' || c == '\r'
    || 11 <= c as int <= 12 || 28 <= c as int <= 31
  }

  function StripLeft(s: string): string
    decreases |s|
  {
    if |s| > 0 && IsSpace(s[0]) then StripLeft(s[1..]) else s
  }

  function StripRight(s: string): string
    decreases |s|
  {
    if |s| > 0 && IsSpace(s[|s| - 1]) then StripRight(s[..|s| - 1]) else s
  }

  /** str.strip(): whitespace removed from both ends. */
  function Strip(s: string): string
  {
    StripRight(StripLeft(s))
  }

  /** str.split(sep): the pieces between separators; "" gives [""]. */
  function Split(s: string, sep: char): (r: seq<string>)
    ensures |r| >= 1
    decreases |s|
  {
    if |s| == 0 then [""]
    else if s[0] == sep then [""] + Split(s[1..], sep)
    else
      var rest := Split(s[1..], sep);
      [[s[0]] + rest[0]] + rest[1..]
  }

  /** sep.join(parts). */
  function Join(parts: seq<string>, sep: char): string
    decreases |parts|
  {
    if |parts| == 0 then ""
    else if |parts| == 1 then parts[0]
    else parts[0] + [sep] + Join(parts[1..], sep)
  }

  /** parse_instance: strip, one row per line, tokens split on tabs. */
  function ParseInstance(input: string): (g: TextGrid)
  {
    var lines := Split(Strip(input), '\n');
    seq(|lines|, i requires 0 <= i < |lines| => Split(lines[i], '\t'))
  }

  /** What print writes: each row's tokens joined by tabs, then a newline. */
  function Serialise(g: TextGrid): string
    decreases |g|
  {
    if |g| == 0 then "" else Join(g[0], '\t') + "\n" + Serialise(g[1..])
  }

  // ---------------------------------------------------------------------
  // The parser inverts the printer
  // ---------------------------------------------------------------------

  /** A token print can write and parse_instance gives back. */
  predicate PlainToken(t: string)
  {
    |t| > 0 && forall k :: 0 <= k < |t| ==> !IsSpace(t[k])
  }

  /** A grid with at least one row, no empty row, and plain tokens only. */
  predicate PlainGrid(g: TextGrid)
  {
    && |g| > 0
    && (forall i :: 0 <= i < |g| ==> |g[i]| > 0)
    && (forall i, j :: 0 <= i < |g| && 0 <= j < |g[i]| ==> PlainToken(g[i][j]))
  }

  /** The rows as print writes them, without the newlines. */
  function Lines(g: TextGrid): (r: seq<string>)
    ensures |r| == |g|
  {
    seq(|g|, i requires 0 <= i < |g| => Join(g[i], '\t'))
  }

  /**
   * For non-empty rows of non-empty tokens without whitespace,
   * parse_instance reads back exactly the grid print wrote.
   */
  lemma ParsePrinted(g: TextGrid)
    requires PlainGrid(g)
    ensures ParseInstance(Serialise(g)) == g
  {
    var ls := Lines(g);
    SerialiseLines(g);
    forall i | 0 <= i < |g| ensures '\n' !in ls[i] && |ls[i]| > 0 && !IsSpace(ls[i][0]) && !IsSpace(ls[i][|ls[i]| - 1]) {
      JoinHas(g[i], '\t', '\n');
      JoinEnds(g[i], '\t');
    }
    JoinEnds(ls, '\n');
    StripPlain(Join(ls, '\n'));
    SplitJoin(ls, '\n');
    var p := ParseInstance(Serialise(g));
    assert Split(Strip(Serialise(g)), '\n') == ls;
    forall i | 0 <= i < |g| ensures p[i] == g[i] {
      forall j | 0 <= j < |g[i]| ensures '\t' !in g[i][j] {
        assert PlainToken(g[i][j]);
      }
      SplitJoin(g[i], '\t');
    }
  }

  /** What print writes is the lines joined by newlines, plus a last newline. */
  lemma {:induction false} SerialiseLines(g: TextGrid)
    requires |g| > 0
    ensures Serialise(g) == Join(Lines(g), '\n') + "\n"
    decreases |g|
  {
    if |g| > 1 {
      SerialiseLines(g[1..]);
      assert Lines(g)[1..] == Lines(g[1..]);
    }
  }

  /** A joined string holds c only where some part does (c is not the separator). */
  lemma {:induction false} JoinHas(parts: seq<string>, sep: char, c: char)
    requires c != sep
    requires forall i :: 0 <= i < |parts| ==> forall k :: 0 <= k < |parts[i]| ==> !IsSpace(parts[i][k])
    requires IsSpace(c)
    ensures c !in Join(parts, sep)
    decreases |parts|
  {
    if |parts| > 0 {
      assert c !in parts[0];
      if |parts| > 1 {
        JoinHas(parts[1..], sep, c);
      }
    }
  }

  /** The first and last characters of a join of non-empty parts. */
  lemma {:induction false} JoinEnds(parts: seq<string>, sep: char)
    requires |parts| > 0 && forall i :: 0 <= i < |parts| ==> |parts[i]| > 0
    ensures |Join(parts, sep)| > 0
    ensures Join(parts, sep)[0] == parts[0][0]
    ensures Join(parts, sep)[|Join(parts, sep)| - 1] == parts[|parts| - 1][|parts[|parts| - 1]| - 1]
    decreases |parts|
  {
    if |parts| > 1 {
      JoinEnds(parts[1..], sep);
    }
  }

  /** strip takes only the final newline off a string that starts and ends with other characters. */
  lemma StripPlain(s: string)
    requires |s| > 0 && !IsSpace(s[0]) && !IsSpace(s[|s| - 1])
    ensures Strip(s + "\n") == s
  {
    var t := s + "\n";
    assert StripLeft(t) == t;
    assert t[..|t| - 1] == s;
    assert StripRight(t) == StripRight(s);
  }

  /** Splitting what was joined on a separator none of the parts holds gives the parts back. */
  lemma {:induction false} SplitJoin(parts: seq<string>, sep: char)
    requires |parts| > 0 && forall i :: 0 <= i < |parts| ==> sep !in parts[i]
    ensures Split(Join(parts, sep), sep) == parts
    decreases |parts|
  {
    if |parts| == 1 {
      SplitPlain(parts[0], sep, []);
      assert parts[0] + [] == parts[0];
    } else {
      SplitJoin(parts[1..], sep);
      var rest := Join(parts[1..], sep);
      SplitAfter(parts[0], sep, rest);
      assert parts[0] + [sep] + rest == parts[0] + ([sep] + rest);
      assert [parts[0]] + parts[1..] == parts;
    }
  }

  /** A separator-free piece followed by more text ends up at the front of the first piece. */
  lemma {:induction false} SplitPlain(p: string, sep: char, rest: string)
    requires sep !in p
    ensures Split(p + rest, sep) == [p + Split(rest, sep)[0]] + Split(rest, sep)[1..]
    decreases |p|
  {
    if |p| > 0 {
      assert (p + rest)[1..] == p[1..] + rest;
      SplitPlain(p[1..], sep, rest);
      assert [p[0]] + (p[1..] + Split(rest, sep)[0]) == p + Split(rest, sep)[0];
    } else {
      var r := Split(rest, sep);
      assert p + rest == rest;
      assert p + r[0] == r[0];
      assert [r[0]] + r[1..] == r;
    }
  }

  /** A separator-free piece, the separator, then more text: the piece is split off whole. */
  lemma SplitAfter(p: string, sep: char, rest: string)
    requires sep !in p
    ensures Split(p + ([sep] + rest), sep) == [p] + Split(rest, sep)
  {
    SplitPlain(p, sep, [sep] + rest);
    assert ([sep] + rest)[1..] == rest;
    assert p + "" == p;
  }

  // ---------------------------------------------------------------------
  // The draft's worked instance
  // ---------------------------------------------------------------------

  /** The grid of the instance string at the end of the draft. */
  function Sample(): TextGrid
  {
    [["FB", "VC", "VD"], ["BC", "BB", "LV"], ["FB", "FB", "FE"]]
  }

  /**
   * The instance string parses to the 3 x 3 sample grid, and the cell
   * (1, 1) has BC on its left and LV on its right.
   */
  lemma SampleParses()
    ensures ParseInstance("FB\tVC\tVD\nBC\tBB\tLV\nFB\tFB\tFE\n") == Sample()
    ensures AdjacentHorizontal(Sample(), 1, 1) == (Some("BC"), Some("LV"))
  {
    SamplePlain();
    SamplePrinted();
    ParsePrinted(Sample());
  }

  lemma SamplePlain()
    ensures PlainGrid(Sample())
  {
    var g := Sample();
    forall i, j | 0 <= i < |g| && 0 <= j < |g[i]| ensures PlainToken(g[i][j]) {
      var t := g[i][j];
      assert |t| == 2 && t[0] in "FBVL" && t[1] in "CBEDHV";
    }
  }

  lemma SamplePrinted()
    ensures Serialise(Sample()) == "FB\tVC\tVD\nBC\tBB\tLV\nFB\tFB\tFE\n"
  {
    var g := Sample();
    RowPrinted(g[0], "FB\tVC\tVD\n");
    RowPrinted(g[1], "BC\tBB\tLV\n");
    RowPrinted(g[2], "FB\tFB\tFE\n");
    assert g[2..][1..] == [];
    assert g[1..][1..] == g[2..];
  }

  /** A row of three tokens is printed as the tokens with two tabs between them. */
  lemma RowPrinted(row: seq<string>, text: string)
    requires |row| == 3 && text == row[0] + "\t" + row[1] + "\t" + row[2] + "\n"
    ensures Join(row, '\t') + "\n" == text
  {
    assert row[1..][1..] == [row[2]];
    assert Join(row[1..], '\t') == row[1] + "\t" + row[2];
  }
}
