/** The CSV export: a fixed seven-column header, then one row per entry in
    list order; cells joined by ',' and rows by '\n', with no quoting or
    escaping of any cell. */
module CsvExport {
  import opened Strings
  import opened Library

  const HeaderCells: seq<string> :=
    ["Title", "Status", "Chapters Read", "Total Chapters", "Progress %", "Rating", "Genre"]

  /** `((m.chaptersRead / m.totalChapters) * 100).toFixed(1)`, with JavaScript's
      results for a zero divisor: 0 / 0 prints "NaN", a non-zero count over 0
      prints an infinity with the count's sign. */
  function ProgressCell(m: Manga): (r: string)
    ensures |r| > 0 && ',' !in r && '\n' !in r
    ensures '.' in r <==> m.totalChapters != 0
  {
    if m.totalChapters == 0 then
      (if m.chaptersRead == 0 then "NaN" else if m.chaptersRead > 0 then "Infinity" else "-Infinity")
    else if m.totalChapters > 0 then Fixed1(100 * m.chaptersRead, m.totalChapters)
    else Fixed1(-100 * m.chaptersRead, -m.totalChapters)
  }

  /** `m.rating || 'N/A'`: a zero rating is falsy and prints as "N/A". */
  function RatingCell(m: Manga): (r: string)
    ensures r == "N/A" <==> m.rating == 0
    ensures ',' !in r && '\n' !in r
  {
    assert m.rating != 0 ==> IntToString(m.rating) != "N/A" by {
      assert !IsDigit("N/A"[2]) && "N/A"[2] != '-';
    }
    if m.rating == 0 then "N/A" else IntToString(m.rating)
  }

  /** The seven cells of one entry, in header order. */
  function RowCells(m: Manga): (r: seq<string>)
    ensures |r| == |HeaderCells|
    ensures r[0] == m.title && r[6] == m.genre
  {
    [m.title, StatusName(m.status), IntToString(m.chaptersRead), IntToString(m.totalChapters),
     ProgressCell(m), RatingCell(m), m.genre]
  }

  /** One CSV line: the cells joined by ','. It starts with the title and ends
      with the genre. */
  function Row(m: Manga): (r: string)
    ensures m.title <= r && EndsWith(r, m.genre)
  {
    Join(',', RowCells(m))
  }

  /** The header line: it holds no newline, starts with "Title" and ends
      with "Genre". */
  function HeaderLine(): (r: string)
    ensures '\n' !in r
    ensures "Title" <= r && EndsWith(r, "Genre")
  {
    HeaderCellsClean();
    CountCharJoinOther(',', '\n', HeaderCells);
    Join(',', HeaderCells)
  }

  /** `mangaList.map(...)`, each row already joined: one row per entry, and
      the row of an entry with no ',' in its title or genre reads back as that
      entry's seven cells. */
  function Rows(list: seq<Manga>): (r: seq<string>)
    ensures |r| == |list|
    ensures forall k :: 0 <= k < |list| && ',' !in list[k].title && ',' !in list[k].genre ==>
              Split(r[k], ',') == RowCells(list[k])
  {
    RowsSplitIntoCells(list);
    seq(|list|, k requires 0 <= k < |list| => Row(list[k]))
  }

  /** The k-th row is the k-th entry's row. */
  lemma RowsAt(list: seq<Manga>, k: int)
    requires 0 <= k < |list|
    ensures Rows(list)[k] == Row(list[k])
  {
  }

  lemma RowsSplitIntoCells(list: seq<Manga>)
    ensures forall k :: 0 <= k < |list| && ',' !in list[k].title && ',' !in list[k].genre ==>
              Split(Row(list[k]), ',') == RowCells(list[k])
  {
    forall k | 0 <= k < |list| && ',' !in list[k].title && ',' !in list[k].genre
      ensures Split(Row(list[k]), ',') == RowCells(list[k])
    {
      RowSplitsIntoCells(list[k]);
    }
  }

  /** `[headers, ...rows].map(row => row.join(',')).join('\n')`. The text
      starts with the header line and ends with the last entry's row; an empty
      library gives the header line alone. */
  function Csv(list: seq<Manga>): (r: string)
    ensures HeaderLine() <= r
    ensures |list| == 0 ==> r == HeaderLine()
    ensures |list| > 0 ==> EndsWith(r, Row(list[|list| - 1]))
  {
    LastLine(list);
    Join('\n', [HeaderLine()] + Rows(list))
  }

  /** The file's last line is the last entry's row, or the header line. */
  lemma LastLine(list: seq<Manga>)
    ensures ([HeaderLine()] + Rows(list))[|list|] ==
            if |list| == 0 then HeaderLine() else Row(list[|list| - 1])
  {
    if |list| > 0 {
      RowsAt(list, |list| - 1);
    }
  }

  /// Cells

  /** The rating cell is "N/A" exactly for a zero rating; any other rating
      reads back as itself. */
  lemma RatingCellNA(m: Manga)
    ensures RatingCell(m) == "N/A" <==> m.rating == 0
    ensures m.rating != 0 ==> ParseInt(RatingCell(m)) == m.rating
  {
    if m.rating != 0 {
      var r := IntToString(m.rating);
      assert IsDigit(r[|r| - 1]);
      assert r != "N/A" by { assert !IsDigit("N/A"[2]); }
      ParseIntToString(m.rating);
    }
  }

  /** The chapter counts read back as themselves. */
  lemma ChapterCellsReadBack(m: Manga)
    ensures ParseInt(RowCells(m)[2]) == m.chaptersRead
    ensures ParseInt(RowCells(m)[3]) == m.totalChapters
  {
    ParseIntToString(m.chaptersRead);
    ParseIntToString(m.totalChapters);
  }

  /** With 0 <= chaptersRead <= totalChapters the progress cell reads as a
      number of tenths between 0 and 1000 within half a tenth of the exact
      percentage 100 * chaptersRead / totalChapters. */
  lemma ProgressCellIsPercentage(m: Manga)
    requires 0 <= m.chaptersRead <= m.totalChapters && m.totalChapters > 0
    ensures 0 <= ParseTenths(ProgressCell(m)) <= 1000
    ensures NearTenths(ParseTenths(ProgressCell(m)), (100 * m.chaptersRead) as real / m.totalChapters as real)
  {
    var num, den := 100 * m.chaptersRead, m.totalChapters;
    Fixed1ReadsBack(num, den);
    RoundTenthsAtMost(num, den, 100);
    RoundTenthsNearest(num, den);
    TenthsNearReal(num, den, RoundTenths(num, den));
  }

  /** Only the title and the genre can hold a ',' or a '\n'; every other cell
      is a status name or a number. */
  lemma GeneratedCellsClean(m: Manga, k: int)
    requires 1 <= k <= 5
    ensures ',' !in RowCells(m)[k] && '\n' !in RowCells(m)[k]
  {
    var c := RowCells(m)[k];
    if k == 4 {
      if m.totalChapters == 0 {
        assert c == "NaN" || c == "Infinity" || c == "-Infinity";
      }
    } else if k == 5 && m.rating == 0 {
      assert c == "N/A";
    }
  }

  /** Counting a character no generated cell holds over the cells of a row
      counts it in the title and the genre only. */
  lemma CellsCount(m: Manga, c: char)
    requires forall k :: 1 <= k <= 5 ==> CountChar(RowCells(m)[k], c) == 0
    ensures CountCharAll(RowCells(m), c) == CountChar(m.title, c) + CountChar(m.genre, c)
  {
    var cells := RowCells(m);
    var middle := cells[1..6];
    assert cells == [m.title] + middle + [m.genre];
    assert forall k :: 0 <= k < |middle| ==> c !in middle[k] by {
      assert forall k :: 0 <= k < |middle| ==> middle[k] == cells[k + 1];
    }
    CountCharAllAppend([m.title] + middle, [m.genre], c);
    CountCharAllAppend([m.title], middle, c);
  }

  /// Rows

  /** A reader that cuts a row at every ',' finds the seven cells plus one
      more field per ',' inside the title or the genre: nothing is escaped,
      so a row has exactly seven fields only when neither holds a ','. */
  lemma RowFieldCount(m: Manga)
    ensures |Split(Row(m), ',')| == 7 + CountChar(m.title, ',') + CountChar(m.genre, ',')
    ensures |Split(Row(m), ',')| == 7 <==> ',' !in m.title && ',' !in m.genre
  {
    var cells := RowCells(m);
    forall k | 1 <= k <= 5 ensures CountChar(cells[k], ',') == 0 {
      GeneratedCellsClean(m, k);
    }
    CountCharJoin(',', cells);
    SplitLength(Row(m), ',');
    CellsCount(m, ',');
  }

  /** With no ',' in the title or the genre, a row reads back as its cells. */
  lemma RowSplitsIntoCells(m: Manga)
    requires ',' !in m.title && ',' !in m.genre
    ensures Split(Row(m), ',') == RowCells(m)
  {
    forall k | 1 <= k <= 5 ensures ',' !in RowCells(m)[k] {
      GeneratedCellsClean(m, k);
    }
    SplitJoin(',', RowCells(m));
  }

  /** A row holds a '\n' only when the title or the genre does. */
  lemma RowHasNoNewline(m: Manga)
    requires '\n' !in m.title && '\n' !in m.genre
    ensures '\n' !in Row(m)
  {
    var cells := RowCells(m);
    forall k | 1 <= k <= 5 ensures CountChar(cells[k], '\n') == 0 {
      GeneratedCellsClean(m, k);
    }
    CountCharJoinOther(',', '\n', cells);
    CellsCount(m, '\n');
  }

  /// The whole file

  /** No column name holds a ',' or a '\n'. */
  lemma HeaderCellsClean()
    ensures forall k :: 0 <= k < |HeaderCells| ==> ',' !in HeaderCells[k] && '\n' !in HeaderCells[k]
  {
  }

  /** The header row holds no newline and reads back as the seven column names. */
  lemma HeaderLineCells()
    ensures '\n' !in HeaderLine()
    ensures Split(HeaderLine(), ',') == HeaderCells
  {
    HeaderCellsClean();
    CountCharJoinOther(',', '\n', HeaderCells);
    SplitJoin(',', HeaderCells);
  }

  /** An empty library exports the header row alone. */
  lemma CsvEmpty()
    ensures Csv([]) == HeaderLine()
    ensures Split(Csv([]), ',') == HeaderCells
  {
    assert [HeaderLine()] + Rows([]) == [HeaderLine()];
    HeaderLineCells();
  }

  /** One more entry adds one '\n' and its row at the end, so the rows follow
      list order. */
  lemma CsvSnoc(list: seq<Manga>, m: Manga)
    ensures Csv(list + [m]) == Csv(list) + "\n" + Row(m)
  {
    RowsSnoc(list, m);
    assert [HeaderLine()] + Rows(list + [m]) == ([HeaderLine()] + Rows(list)) + [Row(m)];
    JoinSnoc('\n', [HeaderLine()] + Rows(list), Row(m));
  }

  /** One more entry adds its row after the others. */
  lemma RowsSnoc(list: seq<Manga>, m: Manga)
    ensures Rows(list + [m]) == Rows(list) + [Row(m)]
  {
    var l := list + [m];
    forall k | 0 <= k < |l| ensures Rows(l)[k] == (Rows(list) + [Row(m)])[k] {
      RowsAt(l, k);
      if k < |list| {
        RowsAt(list, k);
      }
    }
  }

  /** With no '\n' in any title or genre, none of the file's lines holds one. */
  lemma LinesHaveNoNewline(list: seq<Manga>)
    requires forall k :: 0 <= k < |list| ==> '\n' !in list[k].title && '\n' !in list[k].genre
    ensures forall k :: 0 <= k < |list| + 1 ==> '\n' !in ([HeaderLine()] + Rows(list))[k]
  {
    var rows := Rows(list);
    forall k | 0 <= k < |rows| ensures '\n' !in rows[k] {
      RowsAt(list, k);
      RowHasNoNewline(list[k]);
    }
    HeaderLineCells();
    LinesCons(HeaderLine(), rows);
  }

  /** A line list made of a clean first line and clean further lines is clean. */
  lemma LinesCons(first: string, rest: seq<string>)
    requires '\n' !in first
    requires forall k :: 0 <= k < |rest| ==> '\n' !in rest[k]
    ensures forall k :: 0 <= k < |rest| + 1 ==> '\n' !in ([first] + rest)[k]
  {
    forall k | 0 <= k < |rest| + 1 ensures '\n' !in ([first] + rest)[k] {
      if k > 0 {
        assert ([first] + rest)[k] == rest[k - 1];
      }
    }
  }

  /** When no title or genre holds a '\n', reading the text line by line gives
      the header and then exactly one row per entry, in list order. */
  lemma CsvLines(list: seq<Manga>)
    requires forall k :: 0 <= k < |list| ==> '\n' !in list[k].title && '\n' !in list[k].genre
    ensures Split(Csv(list), '\n') == [HeaderLine()] + Rows(list)
    ensures |Split(Csv(list), '\n')| == |list| + 1
  {
    LinesHaveNoNewline(list);
    SplitJoin('\n', [HeaderLine()] + Rows(list));
  }

  /** When no genre holds a '\n' the text does not end in a newline. */
  lemma {:induction false} CsvNoTrailingNewline(list: seq<Manga>)
    requires forall k :: 0 <= k < |list| ==> '\n' !in list[k].genre
    ensures |Csv(list)| > 0 && Csv(list)[|Csv(list)| - 1] != '\n'
  {
    if |list| == 0 {
      CsvEmpty();
    } else {
      var init, m := list[..|list| - 1], list[|list| - 1];
      assert list == init + [m];
      CsvSnoc(init, m);
      var cells := RowCells(m);
      assert cells == cells[..6] + [m.genre];
      JoinSnoc(',', cells[..6], m.genre);
      var row := Join(',', cells[..6]) + [','] + m.genre;
      assert Row(m) == row;
      if |m.genre| > 0 {
        assert row[|row| - 1] == m.genre[|m.genre| - 1];
        assert m.genre[|m.genre| - 1] in m.genre;
      }
    }
  }
}
