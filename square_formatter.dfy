/** SquareFormatter.format: turns a comma-separated square into rows of
    tab-separated items, one row per line. */
module SquareFormatter {

  /** Integer square root, standing for (int) Math.sqrt(n). */
  function ISqrt(n: nat): (r: nat)
    ensures r * r <= n < (r + 1) * (r + 1)
  {
    if n == 0 then 0
    else
      var r := ISqrt(n - 1);
      if (r + 1) * (r + 1) <= n then r + 1 else r
  }

  /** All pieces of s between separators, empty ones included. */
  function SplitAll(s: string, sep: char): (r: seq<string>)
    ensures |r| >= 1
    ensures forall k :: 0 <= k < |r| ==> sep !in r[k]
  {
    if s == [] then [""]
    else
      var rest := SplitAll(s[1..], sep);
      if s[0] == sep then [""] + rest else [[s[0]] + rest[0]] + rest[1..]
  }

  function DropTrailingEmpty(xs: seq<string>): seq<string> {
    if xs != [] && xs[|xs| - 1] == "" then DropTrailingEmpty(xs[..|xs| - 1]) else xs
  }

  /** String.split with a one-character pattern: trailing empty strings are
      removed, and a string without any separator (the empty string
      included) splits into itself. */
  function JavaSplit(s: string, sep: char): seq<string> {
    if s == "" then [""] else DropTrailingEmpty(SplitAll(s, sep))
  }

  /** String.join. */
  function Join(xs: seq<string>, sep: char): string {
    if xs == [] then ""
    else if |xs| == 1 then xs[0]
    else xs[0] + [sep] + Join(xs[1..], sep)
  }

  /** Arrays.copyOfRange(items, 0, w): the first w items, padded with the
      nulls that String.join prints as "null". */
  function CopyOfRange(items: seq<string>, w: nat): seq<string> {
    seq(w, k requires 0 <= k < w => if k < |items| then items[k] else "null")
  }

  /** The lines the for loop joins: one per step of w items. */
  function RowStrings(items: seq<string>, w: nat): seq<string>
    requires w > 0 || items == []
    decreases |items|
  {
    if items == [] then []
    else [Join(CopyOfRange(items, w), '\t')] + RowStrings(items[if w < |items| then w else |items|..], w)
  }

  /** Each line followed by a newline, as the StringBuilder receives them. */
  function Terminated(lines: seq<string>): string {
    if lines == [] then "" else lines[0] + "\n" + Terminated(lines[1..])
  }

  predicate IsSpace(c: char) { c <= ' ' }

  /** String.trim: strips leading and trailing characters up to U+0020. */
  function TrimStart(s: string): string {
    if s != [] && IsSpace(s[0]) then TrimStart(s[1..]) else s
  }

  function TrimEnd(s: string): string {
    if s != [] && IsSpace(s[|s| - 1]) then TrimEnd(s[..|s| - 1]) else s
  }

  function Trim(s: string): string { TrimEnd(TrimStart(s)) }

  /** What format returns. */
  function Formatted(square: string): string {
    var items := JavaSplit(square, ',');
    Trim(Terminated(RowStrings(items, ISqrt(|items|))))
  }

  /** format: the loop steps i by the row width and appends one tab-joined
      line per step. */
  method Format(square: string) returns (r: string)
    ensures r == Formatted(square)
  {
    var items := JavaSplit(square, ',');
    var size := ISqrt(|items|);
    var sb := "";
    var i: nat := 0;
    assert items[0..] == items;
    while i < |items|
      invariant size > 0 || items == []
      invariant sb + RowsFrom(items, size, i) == RowsFrom(items, size, 0)
      decreases |items| - i
    {
      var line := CopyOfRange(items[i..], size);
      LoopStep(items, size, i, sb);
      sb := sb + Join(line, '\t') + "\n";
      i := i + size;
    }
    assert items[|items|..] == [];
    assert RowsFrom(items, size, i) == "";
    assert sb + "" == sb;
    r := Trim(sb);
  }

  /** The text of the rows from item i on, each with its newline. */
  function RowsFrom(items: seq<string>, w: nat, i: nat): string
    requires w > 0 || items == []
  {
    Terminated(RowStrings(items[Min(i, |items|)..], w))
  }

  /** The invariant of the loop of format is kept by one step. */
  lemma LoopStep(items: seq<string>, w: nat, i: nat, sb: string)
    requires w > 0 && i < |items|
    requires sb + RowsFrom(items, w, i) == RowsFrom(items, w, 0)
    ensures (sb + Join(CopyOfRange(items[i..], w), '\t') + "\n") + RowsFrom(items, w, i + w) == RowsFrom(items, w, 0)
  {
    RowStep(items, w, i);
    var row := Join(CopyOfRange(items[i..], w), '\t') + "\n";
    var rest := Terminated(RowStrings(items[Min(i + w, |items|)..], w));
    assert sb + (row + rest) == (sb + row) + rest;
  }

  /** One step of the loop: the rows from item i on are the row starting at
      i followed by the rows from the next step on. */
  lemma RowStep(items: seq<string>, w: nat, i: nat)
    requires w > 0 && i < |items|
    ensures Terminated(RowStrings(items[i..], w)) ==
      Join(CopyOfRange(items[i..], w), '\t') + "\n" +
      Terminated(RowStrings(items[Min(i + w, |items|)..], w))
  {
    assert items[i..][Min(w, |items[i..]|)..] == items[Min(i + w, |items|)..];
  }

  function Min(a: int, b: int): int { if a < b then a else b }

  // ---------------------------------------------------------------------
  // Properties of the well-formed case: N*N non-empty items without
  // whitespace.

  /** Items that contain no character up to U+0020 (so no tab, newline or
      space) and are not empty. */
  predicate CleanItem(x: string) {
    x != [] && forall k :: 0 <= k < |x| ==> !IsSpace(x[k])
  }

  /** The rows of w items each. */
  function Chunks(items: seq<string>, w: nat): seq<seq<string>>
    requires w > 0
    decreases |items|
  {
    if items == [] then []
    else [items[..if w < |items| then w else |items|]] + Chunks(items[if w < |items| then w else |items|..], w)
  }

  function Flatten(xss: seq<seq<string>>): seq<string> {
    if xss == [] then [] else xss[0] + Flatten(xss[1..])
  }

  function JoinEach(xss: seq<seq<string>>, sep: char): seq<string> {
    if xss == [] then [] else [Join(xss[0], sep)] + JoinEach(xss[1..], sep)
  }

  lemma ISqrtOfSquare(n: nat)
    ensures ISqrt(n * n) == n
  {
    var r := ISqrt(n * n);
    MulMonotone(r + 1, n);
    MulMonotone(n + 1, r);
  }

  lemma MulMonotone(a: nat, b: nat)
    ensures a <= b ==> a * a <= b * b
  {
    if a <= b {
      assert a * a <= a * b <= b * b;
    }
  }

  lemma {:induction false} ChunksShape(items: seq<string>, w: nat, m: nat)
    requires w > 0 && |items| == m * w
    ensures |Chunks(items, w)| == m
    ensures forall k :: 0 <= k < m ==> |Chunks(items, w)[k]| == w
    ensures Flatten(Chunks(items, w)) == items
    ensures RowStrings(items, w) == JoinEach(Chunks(items, w), '\t')
    decreases m
  {
    if m > 0 {
      assert |items| >= w;
      assert |items[w..]| == (m - 1) * w;
      ChunksShape(items[w..], w, m - 1);
      assert CopyOfRange(items, w) == items[..w];
      assert items[..w] + items[w..] == items;
    }
  }

  lemma {:induction false} JoinSplitAll(s: string, sep: char)
    ensures Join(SplitAll(s, sep), sep) == s
  {
    if s != [] {
      JoinSplitAll(s[1..], sep);
      var rest := SplitAll(s[1..], sep);
      if s[0] == sep {
        assert s == [sep] + s[1..];
      } else if |rest| == 1 {
        assert s == [s[0]] + rest[0];
      } else {
        var r := SplitAll(s, sep);
        assert r[1..] == rest[1..];
        assert Join(rest, sep) == rest[0] + [sep] + Join(rest[1..], sep);
      }
    }
  }

  lemma {:induction false} SplitAllJoin(xs: seq<string>, sep: char)
    requires |xs| >= 1
    requires forall k :: 0 <= k < |xs| ==> sep !in xs[k]
    ensures SplitAll(Join(xs, sep), sep) == xs
    decreases |xs|
  {
    if |xs| == 1 {
      SplitAllNoSep(xs[0], sep);
    } else {
      SplitAllJoin(xs[1..], sep);
      SplitAllConcat(xs[0], Join(xs[1..], sep), sep);
    }
  }

  lemma {:induction false} SplitAllNoSep(x: string, sep: char)
    requires sep !in x
    ensures SplitAll(x, sep) == [x]
  {
    if x != [] {
      SplitAllNoSep(x[1..], sep);
      assert [x[0]] + x[1..] == x;
    }
  }

  lemma {:induction false} SplitAllConcat(x: string, y: string, sep: char)
    requires sep !in x
    ensures SplitAll(x + [sep] + y, sep) == [x] + SplitAll(y, sep)
  {
    if x == [] {
      assert [sep] + y == x + [sep] + y;
      assert (x + [sep] + y)[1..] == y;
    } else {
      assert (x + [sep] + y)[1..] == x[1..] + [sep] + y;
      SplitAllConcat(x[1..], y, sep);
      assert [x[0]] + x[1..] == x;
    }
  }

  lemma {:induction false} NoTrailingEmpty(xs: seq<string>)
    requires forall k :: 0 <= k < |xs| ==> xs[k] != ""
    ensures DropTrailingEmpty(xs) == xs
  {
  }

  /** Dropping trailing empty strings leaves a prefix, and only empty strings
      are dropped. */
  lemma {:induction false} DropTrailingEmptyPrefix(xs: seq<string>)
    ensures var d := DropTrailingEmpty(xs);
      |d| <= |xs| && xs[..|d|] == d && forall k :: |d| <= k < |xs| ==> xs[k] == ""
    decreases |xs|
  {
    if xs != [] && xs[|xs| - 1] == "" {
      var init := xs[..|xs| - 1];
      DropTrailingEmptyPrefix(init);
      var d := DropTrailingEmpty(init);
      assert xs[..|d|] == init[..|d|];
    }
  }

  /** String.split(",") gives the pieces between commas, up to the last
      non-empty one: the full list of pieces is JavaSplit's followed only by
      empty pieces. */
  lemma JavaSplitPieces(s: string, sep: char)
    ensures var p := JavaSplit(s, sep);
      var a := SplitAll(s, sep);
      |p| <= |a| && a[..|p|] == p && forall k :: |p| <= k < |a| ==> a[k] == ""
  {
    if s != "" {
      DropTrailingEmptyPrefix(SplitAll(s, sep));
    }
  }

  lemma {:induction false} JoinFirstLast(xs: seq<string>, sep: char)
    requires xs != [] && xs[0] != [] && xs[|xs| - 1] != []
    ensures var j := Join(xs, sep); |j| > 0 && j[0] == xs[0][0] && j[|j| - 1] == xs[|xs| - 1][|xs[|xs| - 1]| - 1]
  {
    JoinLast(xs, sep);
  }

  lemma JoinFirst(xs: seq<string>, sep: char)
    requires xs != [] && xs[0] != []
    ensures var j := Join(xs, sep); |j| > 0 && j[0] == xs[0][0]
  {
  }

  lemma {:induction false} JoinLast(xs: seq<string>, sep: char)
    requires xs != [] && xs[|xs| - 1] != []
    ensures var j := Join(xs, sep); |j| > 0 && j[|j| - 1] == xs[|xs| - 1][|xs[|xs| - 1]| - 1]
    decreases |xs|
  {
    if |xs| > 1 {
      JoinLast(xs[1..], sep);
    }
  }

  lemma {:induction false} TerminatedIsJoin(lines: seq<string>)
    requires lines != []
    ensures Terminated(lines) == Join(lines, '\n') + "\n"
    decreases |lines|
  {
    if |lines| > 1 {
      TerminatedIsJoin(lines[1..]);
    }
  }

  lemma {:induction false} TrimStartNoSpace(s: string)
    requires s != [] && !IsSpace(s[0])
    ensures TrimStart(s) == s
  {
  }

  lemma {:induction false} TrimNewline(t: string)
    requires t != [] && !IsSpace(t[0]) && !IsSpace(t[|t| - 1])
    ensures Trim(t + "\n") == t
  {
    TrimStartNoSpace(t + "\n");
    assert (t + "\n")[..|t + "\n"| - 1] == t;
    assert TrimEnd(t + "\n") == TrimEnd(t);
    assert TrimEnd(t) == t;
  }

  lemma {:induction false} JoinEachProperties(xss: seq<seq<string>>, sep: char)
    requires forall k :: 0 <= k < |xss| ==> xss[k] != [] && forall j :: 0 <= j < |xss[k]| ==> CleanItem(xss[k][j])
    ensures |JoinEach(xss, sep)| == |xss|
    ensures forall k :: 0 <= k < |xss| ==> JoinEach(xss, sep)[k] == Join(xss[k], sep)
  {
    if xss != [] {
      JoinEachProperties(xss[1..], sep);
    }
  }

  /** The well-formed input: a perfect-square number of clean items. */
  predicate WellFormed(square: string, n: nat) {
    var items := SplitAll(square, ',');
    n > 0 && |items| == n * n && forall k :: 0 <= k < |items| ==> CleanItem(items[k])
  }

  lemma {:induction false} FormattedIsJoinedRows(square: string, n: nat)
    requires WellFormed(square, n)
    ensures var items := SplitAll(square, ',');
      var rows := Chunks(items, n);
      Formatted(square) == Join(JoinEach(rows, '\t'), '\n') &&
      Flatten(rows) == items && Grid(rows, n)
  {
    var items := SplitAll(square, ',');
    NoTrailingEmpty(items);
    assert square != "";
    assert JavaSplit(square, ',') == items;
    ISqrtOfSquare(n);
    ChunksShape(items, n, n);
    var rows := Chunks(items, n);
    forall k, j | 0 <= k < n && 0 <= j < |rows[k]| ensures CleanItem(rows[k][j]) {
      ChunkItem(items, n, k, j);
    }
    var lines := JoinEach(rows, '\t');
    JoinEachProperties(rows, '\t');
    TerminatedIsJoin(lines);
    assert CleanItem(rows[0][0]) && CleanItem(rows[n - 1][n - 1]);
    JoinedRowsEnds(rows, lines);
    TrimNewline(Join(lines, '\n'));
  }

  /** The joined rows start with the first item's first character and end
      with the last item's last character. */
  lemma JoinedRowsEnds(rows: seq<seq<string>>, lines: seq<string>)
    requires |rows| == |lines| > 0
    requires forall k :: 0 <= k < |rows| ==> lines[k] == Join(rows[k], '\t')
    requires rows[0] != [] && CleanItem(rows[0][0])
    requires rows[|rows| - 1] != [] && CleanItem(rows[|rows| - 1][|rows[|rows| - 1]| - 1])
    ensures var j := Join(lines, '\n'); j != [] && !IsSpace(j[0]) && !IsSpace(j[|j| - 1])
  {
    var first, last := rows[0], rows[|rows| - 1];
    JoinFirst(first, '\t');
    JoinLast(last, '\t');
    JoinFirstLast(lines, '\n');
  }

  lemma {:induction false} ChunkItem(items: seq<string>, w: nat, k: nat, j: nat)
    requires w > 0 && k < |Chunks(items, w)| && j < |Chunks(items, w)[k]|
    ensures Chunks(items, w)[k][j] in items
    decreases |items|
  {
    var step := if w < |items| then w else |items|;
    if k > 0 {
      ChunkItem(items[step..], w, k - 1, j);
    } else {
      assert Chunks(items, w)[0][j] == items[j];
    }
  }

  /** For N*N clean items the output has exactly N lines separated by single
      newlines with no trailing one, each line holds N items separated by
      single tabs, and reading the lines in order gives back the items. */
  lemma FormatShape(square: string, n: nat)
    requires WellFormed(square, n)
    ensures var items := SplitAll(square, ',');
      var lines := SplitAll(Formatted(square), '\n');
      |lines| == n &&
      (forall k :: 0 <= k < n ==> lines[k] != "" && |SplitAll(lines[k], '\t')| == n) &&
      Flatten(seq(n, k requires 0 <= k < n => SplitAll(lines[k], '\t'))) == items
  {
    FormattedIsJoinedRows(square, n);
    GridLines(Chunks(SplitAll(square, ','), n), n);
  }

  /** N rows of N clean items each. */
  predicate Grid(rows: seq<seq<string>>, n: nat) {
    |rows| == n &&
    forall k :: 0 <= k < n ==> |rows[k]| == n && forall j :: 0 <= j < n ==> CleanItem(rows[k][j])
  }

  /** Splitting the joined grid at newlines and then at tabs gives the rows
      back. */
  lemma GridLines(rows: seq<seq<string>>, n: nat)
    requires n > 0 && Grid(rows, n)
    ensures var lines := SplitAll(Join(JoinEach(rows, '\t'), '\n'), '\n');
      |lines| == n &&
      (forall k :: 0 <= k < n ==> lines[k] != "" && SplitAll(lines[k], '\t') == rows[k]) &&
      seq(n, k requires 0 <= k < n => SplitAll(lines[k], '\t')) == rows
  {
    JoinEachProperties(rows, '\t');
    var joined := JoinEach(rows, '\t');
    forall k | 0 <= k < n ensures SplitAll(joined[k], '\t') == rows[k] && '\n' !in joined[k] && joined[k] != "" {
      RowLine(rows[k]);
    }
    SplitAllJoin(joined, '\n');
  }

  /** One row of clean items joined by tabs splits back into the row, holds
      no newline and is not empty. */
  lemma RowLine(row: seq<string>)
    requires row != [] && forall j :: 0 <= j < |row| ==> CleanItem(row[j])
    ensures var line := Join(row, '\t'); SplitAll(line, '\t') == row && '\n' !in line && line != ""
  {
    forall j | 0 <= j < |row| ensures '\t' !in row[j] {
      assert CleanItem(row[j]);
    }
    SplitAllJoin(row, '\t');
    NoNewlineInJoin(row);
    JoinFirst(row, '\t');
  }

  lemma {:induction false} NoNewlineInJoin(xs: seq<string>)
    requires forall j :: 0 <= j < |xs| ==> CleanItem(xs[j])
    ensures '\n' !in Join(xs, '\t')
    decreases |xs|
  {
    if |xs| > 1 {
      NoNewlineInJoin(xs[1..]);
      assert CleanItem(xs[0]);
    } else if |xs| == 1 {
      assert CleanItem(xs[0]);
    }
  }

  /** Replaces every tab and every newline by a comma. */
  function Commas(s: string): string {
    if s == [] then [] else [if s[0] == '\t' || s[0] == '\n' then ',' else s[0]] + Commas(s[1..])
  }

  lemma {:induction false} CommasConcat(a: string, b: string)
    ensures Commas(a + b) == Commas(a) + Commas(b)
  {
    if a != [] {
      assert (a + b)[0] == a[0] && (a + b)[1..] == a[1..] + b;
      CommasConcat(a[1..], b);
      var c := if a[0] == '\t' || a[0] == '\n' then ',' else a[0];
      assert Commas(a + b) == [c] + Commas(a[1..] + b);
      assert Commas(a) == [c] + Commas(a[1..]);
    } else {
      assert a + b == b;
    }
  }

  lemma {:induction false} CommasOfClean(x: string)
    requires forall k :: 0 <= k < |x| ==> !IsSpace(x[k])
    ensures Commas(x) == x
  {
    if x != [] {
      CommasOfClean(x[1..]);
    }
  }

  lemma {:induction false} CommasOfJoin(xs: seq<string>, sep: char)
    requires sep == '\t' || sep == '\n'
    ensures Commas(Join(xs, sep)) == Join(seq(|xs|, k requires 0 <= k < |xs| => Commas(xs[k])), ',')
    decreases |xs|
  {
    if |xs| > 1 {
      CommasOfJoin(xs[1..], sep);
      CommasConcat(xs[0] + [sep], Join(xs[1..], sep));
      CommasConcat(xs[0], [sep]);
      assert seq(|xs| - 1, k requires 0 <= k < |xs| - 1 => Commas(xs[1..][k])) ==
             seq(|xs|, k requires 0 <= k < |xs| => Commas(xs[k]))[1..];
    }
  }

  lemma {:induction false} JoinAppend(a: seq<string>, b: seq<string>, sep: char)
    requires a != [] && b != []
    ensures Join(a + b, sep) == Join(a, sep) + [sep] + Join(b, sep)
    decreases |a|
  {
    if |a| == 1 {
      assert (a + b)[1..] == b;
    } else {
      assert (a + b)[1..] == a[1..] + b;
      JoinAppend(a[1..], b, sep);
    }
  }

  lemma {:induction false} JoinFlatten(xss: seq<seq<string>>, sep: char)
    requires xss != [] && forall k :: 0 <= k < |xss| ==> xss[k] != []
    ensures Join(Flatten(xss), sep) == Join(seq(|xss|, k requires 0 <= k < |xss| => Join(xss[k], sep)), sep)
    decreases |xss|
  {
    if |xss| > 1 {
      JoinFlatten(xss[1..], sep);
      FlattenNonEmpty(xss[1..]);
      JoinAppend(xss[0], Flatten(xss[1..]), sep);
      assert seq(|xss| - 1, k requires 0 <= k < |xss| - 1 => Join(xss[1..][k], sep)) ==
             seq(|xss|, k requires 0 <= k < |xss| => Join(xss[k], sep))[1..];
    } else {
      assert xss[1..] == [];
      assert Flatten(xss) == xss[0] + [] == xss[0];
      assert seq(|xss|, k requires 0 <= k < |xss| => Join(xss[k], sep)) == [Join(xss[0], sep)];
    }
  }

  lemma {:induction false} FlattenNonEmpty(xss: seq<seq<string>>)
    requires xss != [] && xss[0] != []
    ensures Flatten(xss) != []
  {
  }

  /** Round trip: for N*N clean items, turning every tab and newline of the
      output back into a comma gives the input. */
  lemma FormatRoundTrip(square: string, n: nat)
    requires WellFormed(square, n)
    ensures Commas(Formatted(square)) == square
  {
    var items := SplitAll(square, ',');
    FormattedIsJoinedRows(square, n);
    GridCommas(Chunks(items, n), n);
    JoinSplitAll(square, ',');
  }

  /** Turning the separators of the joined grid into commas gives the items
      joined by commas, row after row. */
  lemma GridCommas(rows: seq<seq<string>>, n: nat)
    requires n > 0 && Grid(rows, n)
    ensures Commas(Join(JoinEach(rows, '\t'), '\n')) == Join(Flatten(rows), ',')
  {
    JoinEachProperties(rows, '\t');
    var lines := JoinEach(rows, '\t');
    CommasOfJoin(lines, '\n');
    var commaLines := seq(n, k requires 0 <= k < n => Commas(lines[k]));
    forall k | 0 <= k < n ensures commaLines[k] == Join(rows[k], ',') {
      RowCommas(rows[k]);
    }
    JoinFlatten(rows, ',');
    assert commaLines == seq(n, k requires 0 <= k < n => Join(rows[k], ','));
  }

  lemma RowCommas(row: seq<string>)
    requires forall j :: 0 <= j < |row| ==> CleanItem(row[j])
    ensures Commas(Join(row, '\t')) == Join(row, ',')
  {
    CommasOfJoin(row, '\t');
    forall j | 0 <= j < |row| ensures Commas(row[j]) == row[j] {
      CommasOfClean(row[j]);
    }
    assert seq(|row|, j requires 0 <= j < |row| => Commas(row[j])) == row;
  }

  /** A single item formats to itself, and the empty string to itself. */
  lemma FormatSmallCases()
    ensures Formatted("x") == "x"
    ensures Formatted("") == ""
  {
    SplitAllNoSep("x", ',');
    assert JavaSplit("x", ',') == ["x"];
    assert ISqrt(1) == 1;
    assert CopyOfRange(["x"], 1) == ["x"];
    assert RowStrings(["x"], 1) == ["x"];
    assert Terminated(["x"]) == "x\n";
    assert TrimStart("x\n") == "x\n";
    assert TrimEnd("x\n") == "x";
    assert JavaSplit("", ',') == [""];
    assert CopyOfRange([""], 1) == [""];
    assert RowStrings([""], 1) == [""];
    assert Terminated([""]) == "\n";
    assert TrimStart("\n") == "";
  }

  /** Five items give rows of two, and the short last row is padded with
      "null". */
  lemma FormatPadsShortRow()
    ensures Formatted("1,2,3,4,5") == "1\t2\n3\t4\n5\tnull"
  {
    var items := ["1", "2", "3", "4", "5"];
    PaddedItems();
    FormattedOf("1,2,3,4,5", items);
    ISqrtOfFive();
    PaddedRows();
    PaddedText();
  }

  lemma FormattedOf(square: string, items: seq<string>)
    requires JavaSplit(square, ',') == items
    ensures Formatted(square) == Trim(Terminated(RowStrings(items, ISqrt(|items|))))
  {
  }

  lemma ISqrtOfFive()
    ensures ISqrt(5) == 2
  {
    ISqrtOfSquare(2);
  }

  lemma PaddedItems()
    ensures JavaSplit("1,2,3,4,5", ',') == ["1", "2", "3", "4", "5"]
  {
    var items := ["1", "2", "3", "4", "5"];
    assert Join(items[4..], ',') == "5";
    assert Join(items[3..], ',') == "4,5";
    assert Join(items[2..], ',') == "3,4,5";
    assert Join(items[1..], ',') == "2,3,4,5";
    assert Join(items, ',') == "1,2,3,4,5";
    SplitAllJoin(items, ',');
  }

  lemma PaddedRows()
    ensures RowStrings(["1", "2", "3", "4", "5"], 2) == ["1\t2", "3\t4", "5\tnull"]
  {
    var items := ["1", "2", "3", "4", "5"];
    assert CopyOfRange(items, 2) == ["1", "2"];
    assert CopyOfRange(items[2..], 2) == ["3", "4"];
    assert CopyOfRange(items[4..], 2) == ["5", "null"];
    assert items[2..][2..] == items[4..] && items[4..][1..] == [];
    assert Join(["5", "null"], '\t') == "5\tnull";
    assert Join(["3", "4"], '\t') == "3\t4";
    assert Join(["1", "2"], '\t') == "1\t2";
    assert RowStrings(items[4..], 2) == ["5\tnull"] + RowStrings([], 2);
    assert RowStrings(items[2..], 2) == ["3\t4"] + RowStrings(items[4..], 2);
  }

  lemma PaddedText()
    ensures Trim(Terminated(["1\t2", "3\t4", "5\tnull"])) == "1\t2\n3\t4\n5\tnull"
  {
    var lines := ["1\t2", "3\t4", "5\tnull"];
    assert lines[1..][1..] == ["5\tnull"] && lines[1..][1..][1..] == [];
    assert Terminated(lines[1..][1..]) == "5\tnull\n";
    assert Terminated(lines[1..]) == "3\t4\n5\tnull\n";
    var t := "1\t2\n3\t4\n5\tnull";
    assert Terminated(lines) == t + "\n";
    TrimNewline(t);
  }
}
